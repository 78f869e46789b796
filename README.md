# CW loop merger — a Dafny model of its alignment core

The application takes one primary CSV log and several secondary logs. It aligns them on
the primary log's clock and draws the result as a chart. This project models the
row-level logic of `app.py` that does this:

- **Uploads and names.** Upload names are checked for a `.csv` suffix. Chart titles are
  turned into file-name slugs. Export paths are assembled under optional dated folders.
- **Time column.** `detect_time_col` picks each log's time column: keyword-named columns
  are tried first, and a column must parse on at least 80% of its rows.
- **Sequence columns.** `drop_sequence_cols` removes sequence and index columns.
- **Merging.** `merge_align` keeps the primary rows whose time parses and passes an
  optional cutoff, and sorts them. Each secondary log's numeric columns are aligned to
  the primary clock with a nearest-sample lookup bounded by a tolerance. The aligned
  columns are left-joined in turn. Time-like columns are dropped, and the output columns
  are ordered: time first, then the primary's columns, then the new ones.
- **Plot data.** `build_plot` picks the numeric columns and forward-fills them. It
  resolves the setpoint column and puts exactly that trace on the right-hand axis.

The model works on values:

- A table is a list of column names plus rows of optional text cells.
- `pd.to_datetime` and `pd.to_numeric` are parser functions passed in as parameters
  (`Tables.Parsers`). They are applied cell by cell, and times are integer seconds.
- Under this integer-seconds view of times, every exception `merge_align` can raise on
  well-formed input is an `Err` value of `Merge.MergeError`. Two failures that depend on
  pandas dtypes fall outside that view; they are listed under "Left out".
- The loops of the source are methods (`TimeColumn.DetectTimeCol`,
  `Merge.PickValueColumns`, `Merge.MergeAlign`, `Plot.NumericColumns`, `Plot.BuildPlot`,
  `Plot.ResolveSetpoint`). Each is proved equal to a specification function, and the
  lemmas state what the source promises about that function.

The files, one module each:

| file | module | contents |
|---|---|---|
| `wrappers.dfy` | `Wrappers` | `Option`, `Result` |
| `seqs.dfy` | `Seqs` | positions of a mask, selection, distinctness |
| `text.dfy` | `Text` | `lower`, `in` on strings, strip, run replacement |
| `slug.dfy` | `Slug` | `slugify`, `allowed_file` |
| `paths.dfy` | `ExportPaths` | `join_path`, the zero-padded date path |
| `tables.dfy` | `Tables` | tables, keyword tests, `drop_sequence_cols`, stamped rows, sorting |
| `timecol.dfy` | `TimeColumn` | `detect_time_col` |
| `asof.dfy` | `Asof` | `merge_asof(direction="nearest", tolerance=tol)` on one timestamp |
| `merge.dfy` | `Merge` | `merge_align` |
| `mergeprops.dfy` | `MergeProperties` | what `merge_align` guarantees |
| `plot.dfy` | `Plot` | the data side of `build_plot` |

## Model

| member | source | states |
|---|---|---|
| Text.ReplaceRunsChars | app.py:39-40 | after a run replacement, every character is the replacement or an input character outside the replaced class |
| Text.ReplaceRunsNoAdjacent | app.py:39-40 | when the replacement belongs to the replaced class, no two class characters are adjacent in the output |
| Text.ReplaceRunsFixed | app.py:40 | a string whose class characters are all lone replacement characters is left unchanged |
| Text.TrimSpec | app.py:39-40 | `strip` cuts only stripped characters from the two ends and leaves a contiguous piece that starts and ends outside them |
| Slug.Slugify | app.py:38-41 | `slugify` strips, turns runs outside `[A-Za-z0-9_-]` into `-`, collapses `-` runs, strips `-`, lower-cases and falls back to `"viewer"`; its result is never empty (its full shape is `Slug.SlugifyIsSlug`) |
| Slug.ReplacedIsAllowed | app.py:39 | after the first substitution, only letters, digits, `-` and `_` remain |
| Slug.CollapsedShape | app.py:40 | collapsing hyphen runs keeps the alphabet and leaves no `--` |
| Slug.TrimmedShape | app.py:40 | stripping hyphens leaves no leading or trailing hyphen and keeps the alphabet and no `--` |
| Slug.LoweredShape | app.py:40 | lower-casing a non-empty trimmed string gives a slug: only `[a-z0-9_-]`, no `--`, no hyphen at either end |
| Slug.ViewerIsSlug | app.py:41 | the fallback `"viewer"` is itself a slug |
| Slug.SlugifyIsSlug | app.py:38-41 | `slugify` always returns a non-empty string over `[a-z0-9_-]` with no leading or trailing hyphen and no `--` |
| Slug.SlugifyFixesSlugs | app.py:38-41 | `slugify` returns every slug unchanged |
| Slug.SlugifyIdempotent | app.py:38-41 | applying `slugify` twice equals applying it once |
| Slug.LastIndexOf | app.py:44 | the last position of a character (for `rsplit(".", 1)`), or none when the character is absent |
| Slug.AllowedFile | app.py:43-44 | `allowed_file`: the name holds a `.` and the text after its last `.`, lower-cased, is in `ALLOWED_EXTENSIONS`; `Slug.AllowedFileIsCsvSuffix` states what that accepts |
| Slug.AllowedFileIsCsvSuffix | app.py:43-44 | `allowed_file(f)` holds iff `f` ends in `.` followed by three characters that lower-case to `csv` |
| ExportPaths.JoinPath | app.py:317-319 | `join_path`: the non-empty parts among base, date path and name, joined with `/`; `JoinPathParts`, `UndatedPath` and `DatedPath` state its results |
| ExportPaths.NonEmptyOfThree | app.py:318 | the list comprehension keeps exactly the non-empty parts, in order |
| ExportPaths.IndexOf | app.py:317-319 | the first position of a character, or none when it is absent |
| ExportPaths.IndexOfAfter | app.py:317-319 | in `a + "/" + b` with no `/` in `a`, the first `/` is right after `a` |
| ExportPaths.SplitJoin | app.py:319 | splitting a `/`-join on `/` gives the parts back when no part holds a `/` |
| ExportPaths.JoinPathParts | app.py:317-319 | a joined path splits into exactly the non-empty parts among base, date path and name |
| ExportPaths.UndatedPath | app.py:315-319 | without dated folders and with a base, the path is `base/name` |
| ExportPaths.NameOnlyPath | app.py:317-319 | with an empty base and no dated folder, the path is just the name |
| ExportPaths.Decimal | app.py:315 | the decimal rendering of a number is at least one digit long and all digits |
| ExportPaths.Zeros | app.py:315 | the zero padding is all digits and as long as asked |
| ExportPaths.Pad | app.py:315 | the `:0Nd` rendering is all digits |
| ExportPaths.DecimalValue | app.py:315 | the decimal rendering reads back as the number |
| ExportPaths.ZerosValue | app.py:315 | leading zeros do not change the value read back |
| ExportPaths.PadSpec | app.py:315 | the padded rendering reads back as the number, and its length is the larger of the width and the number's own length |
| ExportPaths.DecimalFits | app.py:315 | a number below 10^k has at most k digits |
| ExportPaths.PadWidth | app.py:315 | a number below 10^width pads to exactly `width` digits and reads back as itself |
| ExportPaths.DateFields | app.py:315 | the year pads to 4 digits and the month and day to 2, each reading back as the date's field |
| ExportPaths.NoSlashInDigits | app.py:315 | a digit string holds no `/` |
| ExportPaths.ThreeFields | app.py:315 | `y/m/d` with widths 4, 2, 2 is 10 characters long with `/` at positions 4 and 7, and splits back into its three fields |
| ExportPaths.DatePath | app.py:315 | the date folder is non-empty iff dated folders are on; `DatePathSpec` gives its `YYYY/MM/DD` shape |
| ExportPaths.DatePathSpec | app.py:315 | the dated path is `YYYY/MM/DD`: 10 characters, slashes at 4 and 7, its fields read back as year, month and day |
| ExportPaths.IndexOfPrefix | app.py:319 | the first `/` inside a string stays the first whatever is appended |
| ExportPaths.SplitAtFirst | app.py:319 | with no `/` in `a`, splitting `a/b` gives `a` followed by the parts of `b` |
| ExportPaths.SplitInside | app.py:319 | when `a` holds a `/`, splitting `a` followed by anything cuts first at that `/` |
| ExportPaths.SplitPastFirst | app.py:319 | splitting `a/b` when `a` holds a `/` cuts first at that `/` inside `a` |
| ExportPaths.SplitAroundStep | app.py:319 | the split of `a/b` follows the split of `a` past its first `/` |
| ExportPaths.SplitAround | app.py:319 | splitting `a/b` on `/` gives the parts of `a` followed by the parts of `b` |
| ExportPaths.DateAndName | app.py:315-319 | `YYYY/MM/DD/name` splits into the three padded date fields and the name |
| ExportPaths.DatedPath | app.py:315-319 | with dated folders, the path is `base/YYYY/MM/DD/name`, or `YYYY/MM/DD/name` under an empty base; any base, nested or not |
| ExportPaths.BaseInFront | app.py:317-319 | a non-empty base in front of a path puts the base's own `/`-parts in front of the path's parts |
| ExportPaths.DatedPathParts | app.py:315-319 | the `/`-parts of a dated path are the base's own parts (none for an empty base), the three padded date fields and the name |
| ExportPaths.UseDatedFolders | app.py:313 | `STATIC_DATED_SUBFOLDERS` read as a flag: its lower-cased value is one of `1`, `true`, `yes`, `on` |
| ExportPaths.UseDatedFoldersSpec | app.py:313 | the flag ignores case, is on for `1`, `TRUE`, `Yes`, `ON` and for an unset variable (default `"true"`), and off for `""`, `0`, `false`, `no` |
| ExportPaths.GetEnv | app.py:312-313 | `os.getenv` with a default: the value, or the default when the variable is unset |
| ExportPaths.ExportPath | app.py:312-321 | the pushed path from `STATIC_PATH` (stripped of `/`), `STATIC_DATED_SUBFOLDERS`, the day and the file name |
| ExportPaths.ExportPathDefault | app.py:312-321 | with neither variable set, an export is pushed to `YYYY/MM/DD/name` |
| ExportPaths.ExportPathDated | app.py:312-321 | with dated folders on, an export is pushed to `base/YYYY/MM/DD/name` (or `YYYY/MM/DD/name`), the stripped base having no `/` at either end |
| ExportPaths.ExportPathUndated | app.py:312-321 | with dated folders off, an export is pushed to `base/name`, or `name` under an empty base |
| Tables.IsTimeLike | app.py:47 | a name is time-like iff its lower-cased form contains `time`, `date`, `timestamp` or `datetime`; used for the candidate order (`TimeColumn.ScanOrderSpec`) and the final drop (`Merge.WithoutTimeLikeMembers`) |
| Tables.IsSequenceLike | app.py:63 | a name is a sequence name iff its lower-cased form contains `sequence`, `seq #`, `seq#`, `seq ` or `index`; `Tables.DropSequenceColsNames` states what is dropped |
| Tables.SelectColumns | app.py:64 | keeping columns by ascending positions gives a well-formed table with the same rows count |
| Tables.DropSequenceCols | app.py:62-64 | dropping columns keeps a well-formed table with the same number of rows |
| Tables.DropSequenceColsSpec | app.py:62-64 | the result is the order-preserving projection onto exactly the columns whose lower-cased name holds none of `sequence`, `seq #`, `seq#`, `seq `, `index` |
| Tables.DropSequenceColsNames | app.py:62-64 | a name survives iff it was there and is not a sequence name: nothing else is dropped |
| Tables.DropSequenceColsIdempotent | app.py:62-64 | dropping sequence columns twice equals doing it once |
| Tables.Stamped | app.py:73-74 | the stamped rows are exactly the rows whose time cell parses, each paired with its parsed time |
| Tables.AtOrAfter | app.py:79 | the `>= cutoff` filter keeps exactly the rows at or after the cutoff, with their multiplicities |
| Tables.Insert | app.py:74 | inserting into a time-sorted list keeps it sorted and adds exactly that row |
| Tables.SortByTime | app.py:74 | `sort_values` gives a time-sorted permutation of the rows |
| Tables.InsertAscending | app.py:74 | inserting a row with a new time into a strictly ascending list keeps it strictly ascending |
| Tables.SortAscending | app.py:74 | with distinct timestamps the sorted rows are strictly ascending |
| Tables.AtOrAfterKeepsOrder | app.py:74-79 | the cutoff filter keeps sorted and strictly ascending lists so |
| TimeColumn.ScanOrder | app.py:47-54 | the scan order lists valid column positions |
| TimeColumn.ScanOrderSpec | app.py:47-54 | the scan order is a permutation of the columns, with keyword-named columns first and each group in column order |
| TimeColumn.ParsedCount | app.py:50-51 | the number of parsed cells is at most the number of rows |
| TimeColumn.FirstClearing | app.py:54-57 | the scan stops at a column of the order that clears the threshold, or reports that none does |
| TimeColumn.ChosenTimeColumn | app.py:46-60 | the chosen time column exists |
| TimeColumn.ChosenTimeColumnSpec | app.py:46-60 | if some column has at least 80% of its rows parsing (`5*ok >= 4*n`, `n > 0`), the first such column in the scan order is chosen; if none does, column 0 is |
| TimeColumn.FirstClearingIsFirst | app.py:54-57 | no column before the chosen one in the order clears the threshold |
| TimeColumn.ScanForClearing | app.py:54-57 | the scan loop with its early return computes `FirstClearing` over the scan order |
| TimeColumn.DetectTimeCol | app.py:46-60 | the loop with its early return picks `ChosenTimeColumn`; with no columns, `df.columns[0]` fails |
| Asof.LastAtOrBefore | app.py:115-122 | the backward search finds the last sample at or before the time, or reports that all samples are later |
| Asof.FirstAtOrAfter | app.py:115-122 | the forward search finds the first sample at or after the time, or reports that all samples are earlier |
| Asof.Backward | app.py:115-122 | a backward match is a valid sample index |
| Asof.Forward | app.py:115-122 | a forward match is a valid sample index |
| Asof.Nearest | app.py:115-122 | a nearest match is a valid sample index |
| Asof.CandidatesAreClosest | app.py:115-122 | on sorted samples, no sample is closer than both the backward and the forward candidate |
| Asof.NearestIsClosest | app.py:115-122 | a match is within the tolerance and at minimal distance among all samples; no match means every sample is further than the tolerance |
| Asof.NearestZeroTolerance | app.py:115-122 | tolerance 0 matches only a sample at exactly the time, and does so whenever one exists |
| Asof.NearestToleranceMonotone | app.py:115-122 | raising the tolerance never changes a match, in particular never turns it into null |
| Merge.Names | app.py:83 | the column names in order |
| Merge.TimesOf | app.py:84 | the time index of sorted rows is sorted |
| Merge.PassesCutoff | app.py:76-81 | a time passes an empty cutoff and an unparseable one, no time passes a NaT cutoff, and otherwise a time passes iff it is at or after the cutoff; `Merge.ApplyCutoff` and `MergeProperties.MergeRows` state its use |
| Merge.ApplyCutoff | app.py:76-81 | the optional cutoff keeps exactly the rows that pass it (all rows when the text is empty or cannot be parsed, none when it parses to NaT) |
| Merge.ApplyCutoffCounts | app.py:76-81 | the cutoff keeps each passing row as often as it occurs and drops every other row |
| Merge.PrepareTable | app.py:67-95 | a log fails with `NoColumns` iff nothing is left after dropping sequence columns; otherwise its cleaned table, time column and sorted stamped rows are prepared |
| Merge.NonTimePositions | app.py:83 | `orig_non_time_cols`: all positions except the time column, ascending |
| Merge.PrimaryColumns | app.py:83-84 | the primary's non-time columns, in order, one cell per kept row, each cell the row's text (or null) in that column |
| Merge.SourceOf | app.py:88-106 | a secondary fails exactly as its preparation does; otherwise it carries its value columns |
| Merge.AlignedColumns | app.py:108-126 | one aligned column per value column, with its name and one cell per reference time |
| Merge.NumberCell | app.py:101-104 | a secondary cell coerced by `pd.to_numeric(errors="coerce")`: its number, or null |
| Merge.AlignedCell | app.py:115-122 | the `merge_asof` cell at one reference time: null without a nearest sample in the tolerance, else that sample's number (or null); `MergeProperties.AlignedCellMeaning` states its meaning |
| Merge.Clash | app.py:124-127 | a join clashes iff some added name is the time name or an existing column name; `MergeProperties.ClashIsRepeat` states it as a repeated name |
| Merge.JoinStep | app.py:88-127 | one secondary: its preparation error, no change without value columns, `NegativeTolerance`, `ColumnClash`, or the frame with its aligned columns appended; `MergeProperties.JoinStepOutcome` and `JoinStepAppends` state the outcomes |
| Merge.JoinAll | app.py:87-127 | the loop over the secondaries: steps in order, the first error stops it; `Merge.JoinAllSnoc`, `JoinAllErrorSticks`, `MergeProperties.JoinAllErrors` and `JoinAllAppends` state it |
| Merge.MergeSpec | app.py:66-134 | `merge_align` as a function: prepare the primary, cut off, join every secondary, finish; `MergeProperties` states its rows, columns, cells and errors |
| Merge.WithoutTimeLikeMembers | app.py:129-130 | exactly the columns whose name has no time keyword survive |
| Merge.NotAmongMembers | app.py:132 | exactly the columns whose name is not among the given names survive |
| Merge.Finish | app.py:129-133 | the final selection fails iff a primary non-time column has a time keyword in its name |
| Merge.Prepare | app.py:67-74 | the preparation method computes `PrepareTable` |
| Merge.PickValueColumns | app.py:98-104 | the loop collects exactly the non-time columns with at least one number, in order |
| Merge.JoinAllErrorSticks | app.py:87-127 | once a secondary raises, the whole merge raises that error |
| Merge.JoinAllSnoc | app.py:87-127 | the loop over one more secondary runs one more step on the previous frame, or keeps the previous error |
| Merge.JoinOne | app.py:87-127 | one turn of the loop body computes `JoinStep` |
| Merge.MergeAlign | app.py:66-134 | the method with its loop over the secondaries computes `MergeSpec` |
| MergeProperties.MergeSpecParts | app.py:83-133 | a successful merge is the primary's time column and rows, joined with every secondary, then finished |
| MergeProperties.CutoffRows | app.py:74-81 | for any rows, stamping, sorting and cutting off gives a sorted list holding exactly the rows whose time parses and passes the cutoff |
| MergeProperties.PreparedRows | app.py:67-81 | the primary's kept rows are sorted, a permutation of the qualifying rows, and exactly those |
| MergeProperties.MergeRows | app.py:67-133 | the output's time column is the detected one, its times are sorted, its rows are exactly the primary rows whose time parsed and passes the cutoff, and its first columns hold those rows' cells in the primary's non-time columns |
| MergeProperties.PrimaryColumnsPrefix | app.py:133 | a header that starts with the primary's columns holds each kept row's primary cells at those positions |
| MergeProperties.MergeTimesAscending | app.py:74-133 | with distinct primary timestamps the output times are strictly ascending |
| MergeProperties.UnparseableCutoffIgnored | app.py:76-81 | a cutoff whose parse raises gives the same result as no cutoff |
| MergeProperties.ContributedFrom | app.py:87-127 | every contributed column comes from the aligned columns of one secondary |
| MergeProperties.AlignedNamesDistinct | app.py:98-104 | one secondary's value columns have distinct names |
| MergeProperties.BaseNamesDistinct | app.py:83 | the primary time name and its other column names are distinct |
| MergeProperties.AppendKeepsNamesDistinct | app.py:127 | a join without a clash keeps all names distinct |
| MergeProperties.JoinStepAppends | app.py:87-127 | a successful step appends that secondary's aligned columns and keeps names distinct |
| MergeProperties.JoinAllAppends | app.py:87-127 | the joined frame is the primary's columns followed by the contributed columns in join order, all names distinct |
| MergeProperties.WithoutTimeLikeAppend | app.py:129-130 | dropping time-like columns distributes over concatenation |
| MergeProperties.WithoutTimeLikeKeepsAll | app.py:129-130 | a frame without time-like names loses nothing |
| MergeProperties.WithoutTimeLikeDistinct | app.py:129-130 | dropping columns keeps names distinct |
| MergeProperties.NotAmongAppend | app.py:132 | the `not in orig_non_time_cols` filter distributes over concatenation |
| MergeProperties.NotAmongKeepsAll | app.py:132 | columns with new names all pass the filter |
| MergeProperties.NotAmongDropsAll | app.py:132 | columns with primary names are all dropped by the filter |
| MergeProperties.FinishValue | app.py:129-133 | the final columns are the primary's non-time columns followed by the contributed columns without time keywords |
| MergeProperties.SelectionValue | app.py:132 | `new_cols` is exactly the contributed columns without time keywords |
| MergeProperties.FilteredNamesFresh | app.py:132 | fresh names stay fresh after dropping time-like columns |
| MergeProperties.SurvivingNamesDistinct | app.py:129-133 | the surviving contributed names are new and all names are distinct |
| MergeProperties.FinishShape | app.py:129-133 | the finished columns have no time-like name and distinct names |
| MergeProperties.ContributedCells | app.py:115-127 | every contributed column has one cell per reference time |
| MergeProperties.MergeColumnsValue | app.py:83-133 | the output columns are the primary's non-time columns followed by the contributed columns without time keywords; none is time-like and the header is duplicate-free |
| MergeProperties.MergeColumns | app.py:83-133 | the output columns start with the primary's non-time columns in order, continue with the new columns in join order, have no time keyword, one cell per row, and distinct names |
| MergeProperties.NearestCell | app.py:115-122 | the `merge_asof` nearest promise for one cell: with some sample within the tolerance, the cell is the coerced value of a sample within the tolerance at minimal distance; with none, it is null |
| MergeProperties.NearestCellInRange | app.py:115-122 | a cell with a sample in range, among samples whose cells all hold numbers, is never null |
| MergeProperties.AlignedCellMeaning | app.py:85-122 | an aligned cell keeps the nearest promise in both directions: a sample in range gives the value of a closest one, and no sample in range gives null |
| MergeProperties.AlignedColumnMeaning | app.py:98-122 | the column of an aligned value is a non-time column with a number; each cell is the coerced value of a closest sample within the tolerance when one is in range, and null when none is |
| MergeProperties.MergedColumnFrom | app.py:87-133 | every output column after the primary's is an aligned column of some secondary |
| MergeProperties.SourceColumnMeaning | app.py:98-122 | an aligned column of a secondary is named after one of its numeric non-time columns and keeps the nearest promise cell by cell |
| MergeProperties.MergeSecondaryCells | app.py:87-133 | every new output column is a value column of some secondary; each cell is the coerced value of that secondary's closest sample within the tolerance when one is in range, and null when none is |
| MergeProperties.SkipsNonNumeric | app.py:105-106 | a secondary without numeric non-time columns is skipped: the frame is unchanged, even under a negative tolerance |
| MergeProperties.NamesAppend | app.py:127 | the names of joined columns are the names of the parts |
| MergeProperties.ContributedNames | app.py:87-127 | the contributed names are the secondaries' value-column names in order |
| MergeProperties.ClashIsRepeat | app.py:124-127 | a clash happens iff joining would repeat a name |
| MergeProperties.JoinStepOutcome | app.py:88-127 | one secondary fails with `NoColumns` iff it has no columns, with `NegativeTolerance` only under a negative tolerance and value columns, and with `ColumnClash` iff it has columns, its tolerance is usable or it has no value columns, and its value names repeat one; never with `MissingColumn` |
| MergeProperties.JoinAllErrors | app.py:87-127 | the join loop raises only for a secondary without columns, for a negative tolerance with value columns present, or a repeated name |
| MergeProperties.JoinStepNoMissing | app.py:88-127 | a step never raises `MissingColumn`, and raises `NoColumns` and `NegativeTolerance` only for their causes |
| MergeProperties.ExplainedSnoc | app.py:87-127 | a cause of an error of the loop over a prefix is still a cause once more secondaries follow |
| MergeProperties.LastStepExplained | app.py:87-127 | an error raised by the last secondary has one of the listed causes |
| MergeProperties.JoinAllPlanned | app.py:87-127 | with distinct planned names, the joined header is exactly the planned one |
| MergeProperties.PlannedOfAppend | app.py:127 | appending columns appends their names to the header |
| MergeProperties.JoinAllSucceeds | app.py:87-127 | with all secondaries having columns, a usable tolerance and no repeated name, the join loop succeeds |
| MergeProperties.LastStepSucceeds | app.py:87-127 | one more step on a valid frame succeeds under the same conditions |
| MergeProperties.BaseNames | app.py:83 | the primary's non-time names are the selection of its columns by the non-time positions |
| MergeProperties.BaseTimeLike | app.py:129-133 | some kept primary column is time-like iff some non-time primary column name is |
| MergeProperties.PrimaryPieces | app.py:67-83 | the primary header is the detected time name followed by the other names |
| MergeProperties.MergeSpecAfterPrimary | app.py:87-134 | once the primary is prepared, the merge fails exactly as the join fails, or with `MissingColumn` at the final selection |
| MergeProperties.JoinedErrorCauses | app.py:87-127 | the join loop's errors described by the primary's names |
| MergeProperties.MergeErrorsAfterPrimary | app.py:87-134 | with a usable primary, each error has its cause |
| MergeProperties.MergeErrors | app.py:66-134 | `merge_align` fails only with a table without columns, a negative tolerance met by value columns, a repeated name, or a primary non-time column named with a time keyword |
| MergeProperties.MergeSucceeds | app.py:66-134 | without any of those causes, `merge_align` succeeds |
| Plot.Coerce | app.py:139-145 | coercing a column maps each cell to its number or null |
| Plot.NumericCount | app.py:140 | `notna().sum() > 0` iff some cell coerces to a number |
| Plot.NumericNames | app.py:137-142 | `numeric_cols`: the non-time columns with at least one number, in order; `Plot.NumericNamesSpec` states it |
| Plot.NumericMask | app.py:138-141 | one flag per merged column |
| Plot.NumericColumns | app.py:137-142 | the loop collects the non-time columns with at least one number, in order |
| Plot.NumericNamesSpec | app.py:137-142 | a name is plotted iff it names a non-time column with at least one number |
| Plot.NumericNamesDistinct | app.py:137-142 | plotted names are distinct when the frame's are |
| Plot.FillFrom | app.py:147 | the carry keeps the length |
| Plot.FFill | app.py:147 | forward fill keeps the length |
| Plot.FillFromMeaning | app.py:147 | with a carry: non-null cells stay, a null takes the latest earlier non-null, and leading nulls take the carry |
| Plot.FFillMeaning | app.py:147 | forward fill keeps non-null cells, sets each null to the latest earlier non-null value, and leaves leading nulls null |
| Plot.FillFromAt | app.py:147 | each filled cell is the cell itself when it holds a number, else the carry at the start, else the filled cell before it |
| Plot.FillFromIdempotent | app.py:147 | filling with a carry twice equals once |
| Plot.FFillIdempotent | app.py:147 | forward filling twice equals filling once |
| Plot.ForwardFill | app.py:147 | the in-place fill turns the buffer into its forward fill |
| Plot.LowerMap | app.py:151 | the keys of `lower_map` are exactly the lower-cased numeric names |
| Plot.LowerMapLast | app.py:151 | `lower_map` maps each key to the last name with that lower-case form |
| Plot.LowerMapValues | app.py:151 | every value of `lower_map` is a numeric name |
| Plot.FirstCandidate | app.py:152-155 | the lookup hits iff some candidate's lower-case form is a key, and then takes the first such candidate |
| Plot.FirstFlowSetpoint | app.py:157-160 | the fallback finds the first name holding both `flow` and `setpoint` (ignoring case), or nothing iff none does |
| Plot.ChosenSetpoint | app.py:149-160 | the given name when not blank, else the candidate lookup, else the first flow setpoint, else the given blank; `SetpointFromCandidates`, `SetpointFallback`, `SetpointGiven` and `SetpointFound` state it |
| Plot.LookUpCandidates | app.py:152-155 | the candidate loop with its `break` computes `FirstCandidate` |
| Plot.FindFlowSetpoint | app.py:157-160 | the fallback loop with its `break` computes `FirstFlowSetpoint` |
| Plot.ResolveSetpoint | app.py:149-160 | the setpoint resolution computes `ChosenSetpoint` |
| Plot.SetpointFromCandidates | app.py:149-155 | with no name given, the first candidate matched by some numeric name (ignoring case) wins, and the last numeric name matching it is chosen |
| Plot.SetpointFallback | app.py:156-160 | with no candidate matched, the first numeric name holding `flow` and `setpoint` is chosen; without one, the given blank name stays |
| Plot.SetpointGiven | app.py:149 | a given non-empty name is used as it is |
| Plot.SetpointFound | app.py:149-160 | a setpoint found by the program, not given, is one of the numeric columns |
| Plot.FillColumns | app.py:144-147 | the loop over the numeric columns gives each column's coerced, forward-filled cells |
| Plot.BuildPlot | app.py:136-164 | the data steps produce `PlotTraces` and `ChosenSetpoint` |
| Plot.ColumnCellsAt | app.py:145-147 | with distinct labels, looking a column up by name gives that column |
| Plot.PlotTraces | app.py:143-164 | the traces: one per numeric column with the times, forward-filled numbers and the y2 flag; `Plot.TracesSpec` and `AtMostOneOnY2` state it |
| Plot.TracesSpec | app.py:143-164 | one trace per numeric column, in order: its name, the times, its forward-filled numbers, and y2 iff it is named like the setpoint |
| Plot.AtMostOneOnY2 | app.py:162-164 | at most one trace is on y2, and one is iff the setpoint is a numeric column |
| Plot.OnY2Unique | app.py:162-164 | with distinct names, the `col == setpoint_name` test flags at most one trace, and flags one iff the setpoint is among the names |
| Plot.MergedPlotAtMostOneOnY2 | app.py:134-164 | plotting a successful merge puts at most one trace on y2 |

## Left out

- Flask routes, form parsing, temporary files, `to_csv`, ZIP bundles, `send_file` and the exports directory with `latest.json`: I/O.
- `push_to_github`, `get_drive`, `upload_to_drive`: network clients.
- The Plotly figure: layout, axis titles (the y2 title is the setpoint or `"Setpoint"`), hover templates, `y1_min`/`y1_max`, the title and the HTML. This is library UI.
- `pd.read_csv`: a table arrives as column names plus rows of optional cells. Distinct names are required, because pandas renames repeated headers on reading.
- `pd.to_datetime` and `pd.to_numeric` are parsers passed in and applied per cell.
  - Format inference across a whole column is not modelled.
  - An exception in `try_parse` behaves as if no cell parsed, which leads to the same ratio 0 and the same dropped rows.
  - Times are integer seconds; numbers are reals.
- Floating point: values are exact reals, and the 0.8 ratio is the exact test `5*ok >= 4*n`.
- `str.lower()` lower-cases ASCII letters only.
- `Tables.SortByTime`: a stable insertion sort, where `sort_values` uses an unstable quicksort. The two differ only in the order of rows with equal timestamps.
- `Merge.MergeAlign`: when primary timestamps repeat, `join` on the repeated index multiplies rows. The model keeps one output row per kept primary row. `MergeProperties.MergeTimesAscending` states strict order only for distinct timestamps.
- `Merge.MergeAlign`: the tolerance is taken as an integer, so the `int(...)` truncation of a fractional tolerance happens before the model.
- `merge_asof` at app.py:115-122 raises `MergeError` when the two time keys have different dtypes, for example one time-zone aware and one naive. Times here are plain integers, so the model has no such error.
- At app.py:79, comparing naive times with a time-zone aware cutoff raises `TypeError`. The `except` at app.py:80-81 swallows it and every row is kept. The model has this outcome only as the `Unparseable` result of the cutoff parser, so the parser parameter must report such a cutoff that way.
- `STATIC_PATH` is stripped of `/` at both ends only; inner `//` runs are kept, and the model keeps them too.
- A `cutoff_str` of `None` is modelled as the empty text. Both are falsy and skip the filter.
- `Plot.ColumnCells`: `plot_df[c]` with repeated labels returns several columns. The model takes the first, and its properties are stated for distinct labels, which every successful merge has.
- The dtype of merged cells is not modelled: primary cells stay text and aligned cells are numbers.
- The output's time column holds the parsed times, not the original text.
- The checks at app.py:70 and app.py:91 are dead, because the detection never returns `None`, and they are not modelled.
- The wall clock (`datetime.utcnow`, `datetime.now`) is a `Date` parameter. The `-%Y%m%d-%H%M%S` suffix of export names is not modelled.
- `app.py` does not do the following, and neither does the model:
  - no stripping of device prefixes from column names;
  - no renaming of colliding columns (they raise);
  - no forward fill of the merged CSV (only the plot data is filled);
  - no dedicated errors for an empty reference or a missing timestamp column (detection falls back to the first column).

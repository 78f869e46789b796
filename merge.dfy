/** `merge_align` (app.py:66-134). The primary table's stamped rows, sorted and cut off,
    give the reference clock. Each secondary table contributes its numeric columns,
    aligned to that clock by the nearest-sample lookup of module Asof and left-joined in
    turn. Finally time-like columns are dropped and the output columns are ordered. */
module Merge {
  import opened Wrappers
  import opened Seqs
  import opened Tables
  import opened TimeColumn
  import opened Asof

  /** One output cell: a primary cell keeps its text, an aligned secondary cell is a number. */
  datatype Value = Null | Raw(text: string) | Num(x: real)

  datatype Column = Column(name: string, cells: seq<Value>)

  /** The returned frame: the time column (name and values) first, then the other columns. */
  datatype Merged = Merged(timeName: string, times: seq<int>, columns: seq<Column>)

  /** The exceptions `merge_align` can raise on well-formed tables:
      NoColumns — a table has no column left after dropping sequence columns
        (`df.columns[0]` in `detect_time_col`);
      NegativeTolerance — `merge_asof` refuses a negative tolerance;
      ColumnClash — a value column has the primary time column's name (the suffixed
        columns are then missing from `aligned[keep_cols]` at app.py:125) or an already merged name (`join` refuses
        overlapping columns at app.py:127);
      MissingColumn — a primary column with a time keyword in its name is dropped at
        app.py:130 and then selected at app.py:133. */
  datatype MergeError = NoColumns | NegativeTolerance | ColumnClash | MissingColumn

  /** `pd.to_datetime(cutoff_str)`: a time, NaT, or an exception. */
  datatype CutoffParse = At(time: int) | NotATime | Unparseable

  function Names(cols: seq<Column>): (r: seq<string>)
    ensures |r| == |cols| && forall j :: 0 <= j < |cols| ==> r[j] == cols[j].name
  {
    seq(|cols|, j requires 0 <= j < |cols| => cols[j].name)
  }

  /** The output header, time column first. */
  function Header(m: Merged): seq<string> {
    [m.timeName] + Names(m.columns)
  }

  function TimesOf(rs: seq<Record>): (r: seq<int>)
    ensures |r| == |rs| && forall i :: 0 <= i < |rs| ==> r[i] == rs[i].time
    ensures SortedByTime(rs) ==> Sorted(r)
  {
    seq(|rs|, i requires 0 <= i < |rs| => rs[i].time)
  }

  /** Whether a row's time survives the cutoff text, as app.py:76-81 decide it. */
  predicate PassesCutoff(time: int, cutoffText: string, parseCutoff: string -> CutoffParse) {
    cutoffText == "" ||
    match parseCutoff(cutoffText)
    case At(c) => time >= c
    case NotATime => false
    case Unparseable => true
  }

  /** The cutoff filter: an empty text and an unparseable one keep every row, NaT keeps none. */
  function ApplyCutoff(rs: seq<Record>, cutoffText: string, parseCutoff: string -> CutoffParse): (r: seq<Record>)
    ensures forall x :: x in r <==> x in rs && PassesCutoff(x.time, cutoffText, parseCutoff)
  {
    if cutoffText == "" then rs
    else
      match parseCutoff(cutoffText)
      case At(c) => AtOrAfter(rs, c)
      case NotATime => []
      case Unparseable => rs
  }

  /** The cutoff keeps every passing row as often as it occurs, and no other row. */
  lemma ApplyCutoffCounts(rs: seq<Record>, cutoffText: string, parseCutoff: string -> CutoffParse)
    ensures forall x :: multiset(ApplyCutoff(rs, cutoffText, parseCutoff))[x] ==
                        (if PassesCutoff(x.time, cutoffText, parseCutoff) then multiset(rs)[x] else 0)
  {
    if cutoffText != "" && parseCutoff(cutoffText).NotATime? {
      assert ApplyCutoff(rs, cutoffText, parseCutoff) == [];
    }
  }

  /** A table after app.py:67-74 (or 88-94): sequence columns dropped, the time column
      chosen, and its stamped rows sorted by time. */
  datatype Prepared = Prepared(table: Table, timeCol: nat, records: seq<Record>)

  predicate PreparedOk(pr: Prepared) {
    && WellFormed(pr.table) && pr.timeCol < |pr.table.columns|
    && (forall i :: 0 <= i < |pr.records| ==> |pr.records[i].cells| == |pr.table.columns|)
    && SortedByTime(pr.records)
  }

  function PrepareTable(raw: Table, p: Parsers): (r: Result<Prepared, MergeError>)
    requires WellFormed(raw)
    ensures r.Err? <==> |DropSequenceCols(raw).columns| == 0
    ensures r.Err? ==> r.error == NoColumns
    ensures r.Ok? ==> PreparedOk(r.value) && r.value.table == DropSequenceCols(raw)
  {
    var t := DropSequenceCols(raw);
    if |t.columns| == 0 then Err(NoColumns)
    else
      var k := ChosenTimeColumn(t, p);
      var stamped := Stamped(t.rows, k, p);
      var sorted := SortByTime(stamped);
      assert forall i :: 0 <= i < |sorted| ==> |sorted[i].cells| == |t.columns| by {
        forall i | 0 <= i < |sorted| ensures |sorted[i].cells| == |t.columns| {
          assert sorted[i] in multiset(stamped);
        }
      }
      Ok(Prepared(t, k, sorted))
  }

  /** The positions of the primary's columns other than its time column
      (`orig_non_time_cols`, app.py:83). */
  function NonTimePositions(pr: Prepared): (r: seq<nat>)
    ensures Increasing(r)
    ensures forall i: nat :: i in r <==> i < |pr.table.columns| && i != pr.timeCol
    ensures forall j :: 0 <= j < |r| ==> r[j] < |pr.table.columns|
  {
    Positions(seq(|pr.table.columns|, i requires 0 <= i < |pr.table.columns| => i != pr.timeCol))
  }

  function PrimaryCell(c: Cell): Value {
    match c
    case None => Null
    case Some(s) => Raw(s)
  }

  /** A secondary cell after `pd.to_numeric(..., errors="coerce")`: its number, or null. */
  function NumberCell(p: Parsers, c: Cell): Value {
    match ParseNumber(p, c)
    case None => Null
    case Some(x) => Num(x)
  }

  /** The primary's non-time columns over the surviving records. */
  function PrimaryColumns(pr: Prepared, recs: seq<Record>): (r: seq<Column>)
    requires PreparedOk(pr)
    requires forall i :: 0 <= i < |recs| ==> |recs[i].cells| == |pr.table.columns|
    ensures |r| == |NonTimePositions(pr)|
    ensures forall j :: 0 <= j < |r| ==> r[j].name == pr.table.columns[NonTimePositions(pr)[j]] && |r[j].cells| == |recs|
    ensures forall j, i :: 0 <= j < |r| && 0 <= i < |recs| ==>
      r[j].cells[i] == PrimaryCell(recs[i].cells[NonTimePositions(pr)[j]])
  {
    var idx := NonTimePositions(pr);
    seq(|idx|, j requires 0 <= j < |idx| =>
      Column(pr.table.columns[idx[j]], seq(|recs|, i requires 0 <= i < |recs| => PrimaryCell(recs[i].cells[idx[j]]))))
  }

  /** `col_num.notna().sum() > 0` over the stamped rows. */
  predicate HasNumber(recs: seq<Record>, c: nat, p: Parsers) {
    exists i :: 0 <= i < |recs| && c < |recs[i].cells| && ParseNumber(p, recs[i].cells[c]).Some?
  }

  function ValueMask(pr: Prepared, p: Parsers): seq<bool> {
    seq(|pr.table.columns|, c requires 0 <= c < |pr.table.columns| => c != pr.timeCol && HasNumber(pr.records, c, p))
  }

  /** A secondary table with its value columns (`value_cols`, app.py:98-104). */
  datatype Source = Source(prepared: Prepared, valueCols: seq<nat>)

  predicate SourceOk(src: Source) {
    && PreparedOk(src.prepared)
    && Increasing(src.valueCols)
    && forall j :: 0 <= j < |src.valueCols| ==> src.valueCols[j] < |src.prepared.table.columns|
  }

  function SourceOf(raw: Table, p: Parsers): (r: Result<Source, MergeError>)
    requires WellFormed(raw)
    ensures r.Err? <==> |DropSequenceCols(raw).columns| == 0
    ensures r.Err? ==> r.error == NoColumns
    ensures r.Ok? ==> SourceOk(r.value) && PrepareTable(raw, p) == Ok(r.value.prepared)
  {
    match PrepareTable(raw, p)
    case Err(e) => Err(e)
    case Ok(pr) => Ok(Source(pr, Positions(ValueMask(pr, p))))
  }

  /** The value of column `c` merge_asof gives reference time `t`: that of the nearest
      sample within `tol`, as a number, or null. */
  function AlignedCell(samples: seq<Record>, c: nat, t: int, tol: int, p: Parsers): Value
    requires forall i :: 0 <= i < |samples| ==> c < |samples[i].cells|
  {
    match Nearest(TimesOf(samples), t, tol)
    case None => Null
    case Some(i) => NumberCell(p, samples[i].cells[c])
  }

  /** The `aligned` frame of app.py:115-125 as columns over the reference times. */
  function AlignedColumns(src: Source, refTimes: seq<int>, tol: int, p: Parsers): (r: seq<Column>)
    requires SourceOk(src)
    ensures |r| == |src.valueCols|
    ensures forall j :: 0 <= j < |r| ==> r[j].name == src.prepared.table.columns[src.valueCols[j]] && |r[j].cells| == |refTimes|
  {
    var pr := src.prepared;
    seq(|src.valueCols|, j requires 0 <= j < |src.valueCols| =>
      Column(pr.table.columns[src.valueCols[j]],
        seq(|refTimes|, i requires 0 <= i < |refTimes| => AlignedCell(pr.records, src.valueCols[j], refTimes[i], tol, p))))
  }

  /** Some added name is the time column's or one already merged. */
  predicate Clash(added: seq<string>, timeName: string, existing: seq<string>) {
    exists j :: 0 <= j < |added| && (added[j] == timeName || added[j] in existing)
  }

  /** One turn of the loop at app.py:87-127. */
  function JoinStep(acc: seq<Column>, timeName: string, refTimes: seq<int>, raw: Table, tol: int, p: Parsers)
    : Result<seq<Column>, MergeError>
    requires WellFormed(raw)
  {
    match SourceOf(raw, p)
    case Err(e) => Err(e)
    case Ok(src) =>
      if |src.valueCols| == 0 then Ok(acc)
      else if tol < 0 then Err(NegativeTolerance)
      else
        var added := AlignedColumns(src, refTimes, tol, p);
        if Clash(Names(added), timeName, Names(acc)) then Err(ColumnClash) else Ok(acc + added)
  }

  predicate AllWellFormed(ts: seq<Table>) {
    forall s :: 0 <= s < |ts| ==> WellFormed(ts[s])
  }

  /** The whole loop: the secondaries joined in order, the first error ending it. */
  function JoinAll(base: seq<Column>, timeName: string, refTimes: seq<int>, secs: seq<Table>, tol: int, p: Parsers)
    : Result<seq<Column>, MergeError>
    requires AllWellFormed(secs)
  {
    if |secs| == 0 then Ok(base)
    else
      match JoinAll(base, timeName, refTimes, secs[..|secs| - 1], tol, p)
      case Err(e) => Err(e)
      case Ok(acc) => JoinStep(acc, timeName, refTimes, secs[|secs| - 1], tol, p)
  }

  /** `merged.drop(columns=drop_cols)` for the time-like names (app.py:129-130). */
  function WithoutTimeLike(cols: seq<Column>): seq<Column> {
    if |cols| == 0 then []
    else WithoutTimeLike(cols[..|cols| - 1]) + (if IsTimeLike(cols[|cols| - 1].name) then [] else [cols[|cols| - 1]])
  }

  /** Exactly the columns whose name carries no time keyword survive the drop. */
  lemma {:induction false} WithoutTimeLikeMembers(cols: seq<Column>)
    ensures forall c :: c in WithoutTimeLike(cols) <==> c in cols && !IsTimeLike(c.name)
  {
    if |cols| > 0 {
      var front := cols[..|cols| - 1];
      WithoutTimeLikeMembers(front);
      assert cols == front + [cols[|cols| - 1]];
    }
  }

  /** `[c for c in merged.columns if c not in orig_non_time_cols]` (app.py:132). */
  function NotAmong(cols: seq<Column>, names: seq<string>): seq<Column> {
    if |cols| == 0 then []
    else NotAmong(cols[..|cols| - 1], names) + (if cols[|cols| - 1].name in names then [] else [cols[|cols| - 1]])
  }

  /** Exactly the columns whose name is not among `names` survive the selection. */
  lemma {:induction false} NotAmongMembers(cols: seq<Column>, names: seq<string>)
    ensures forall c :: c in NotAmong(cols, names) <==> c in cols && c.name !in names
  {
    if |cols| > 0 {
      var front := cols[..|cols| - 1];
      NotAmongMembers(front, names);
      assert cols == front + [cols[|cols| - 1]];
    }
  }

  /** App.py:129-133: drop the time-like columns, then select the primary columns followed
      by the new ones; a dropped primary column cannot be selected. */
  function Finish(base: seq<Column>, acc: seq<Column>): (r: Result<seq<Column>, MergeError>)
    ensures r.Err? <==> exists j :: 0 <= j < |base| && IsTimeLike(base[j].name)
  {
    if exists j :: 0 <= j < |base| && IsTimeLike(base[j].name) then Err(MissingColumn)
    else Ok(base + NotAmong(WithoutTimeLike(acc), Names(base)))
  }

  /** What `merge_align` returns, or the error it raises. */
  function MergeSpec(primary: Table, secs: seq<Table>, tol: int, cutoffText: string,
                     parseCutoff: string -> CutoffParse, p: Parsers): Result<Merged, MergeError>
    requires WellFormed(primary) && AllWellFormed(secs)
  {
    match PrepareTable(primary, p)
    case Err(e) => Err(e)
    case Ok(pr) =>
      var recs := ApplyCutoff(pr.records, cutoffText, parseCutoff);
      var timeName := pr.table.columns[pr.timeCol];
      var base := PrimaryColumns(pr, recs);
      match JoinAll(base, timeName, TimesOf(recs), secs, tol, p)
      case Err(e) => Err(e)
      case Ok(acc) =>
        match Finish(base, acc)
        case Err(e) => Err(e)
        case Ok(cols) => Ok(Merged(timeName, TimesOf(recs), cols))
  }

  /** App.py:67-74 and 88-94: drop sequence columns, detect the time column, keep and sort
      the rows whose time parsed. */
  method Prepare(raw: Table, p: Parsers) returns (r: Result<Prepared, MergeError>)
    requires WellFormed(raw)
    ensures r == PrepareTable(raw, p)
  {
    var t := DropSequenceCols(raw);
    var k := DetectTimeCol(t, p);
    if k.None? {
      return Err(NoColumns);
    }
    r := Ok(Prepared(t, k.value, SortByTime(Stamped(t.rows, k.value, p))));
  }

  /** The loop at app.py:98-104 appending to `value_cols`. */
  method PickValueColumns(pr: Prepared, p: Parsers) returns (valueCols: seq<nat>)
    requires PreparedOk(pr)
    ensures valueCols == Positions(ValueMask(pr, p))
  {
    var mask := ValueMask(pr, p);
    valueCols := [];
    var c := 0;
    while c < |pr.table.columns|
      invariant 0 <= c <= |pr.table.columns|
      invariant valueCols == Positions(mask[..c])
    {
      assert mask[..c + 1][..c] == mask[..c];
      if c != pr.timeCol && HasNumber(pr.records, c, p) {
        valueCols := valueCols + [c];
      }
      c := c + 1;
    }
    assert mask[..c] == mask;
  }

  /** Once a prefix of the secondaries fails, the whole loop fails with that error. */
  lemma {:induction false} JoinAllErrorSticks(base: seq<Column>, timeName: string, refTimes: seq<int>,
                                              secs: seq<Table>, tol: int, p: Parsers, i: nat, e: MergeError)
    requires AllWellFormed(secs) && i <= |secs|
    requires JoinAll(base, timeName, refTimes, secs[..i], tol, p) == Err(e)
    ensures JoinAll(base, timeName, refTimes, secs, tol, p) == Err(e)
    decreases |secs| - i
  {
    if i < |secs| {
      assert secs[..i + 1][..i] == secs[..i];
      JoinAllErrorSticks(base, timeName, refTimes, secs, tol, p, i + 1, e);
    } else {
      assert secs[..i] == secs;
    }
  }

  /** The first `i + 1` secondaries joined: the first `i`, then one more step. */
  lemma JoinAllSnoc(base: seq<Column>, timeName: string, refTimes: seq<int>, secs: seq<Table>,
                    tol: int, p: Parsers, i: nat)
    requires AllWellFormed(secs) && i < |secs|
    ensures JoinAll(base, timeName, refTimes, secs[..i + 1], tol, p) ==
      match JoinAll(base, timeName, refTimes, secs[..i], tol, p)
      case Err(e) => Err(e)
      case Ok(acc) => JoinStep(acc, timeName, refTimes, secs[i], tol, p)
  {
    assert secs[..i + 1][..i] == secs[..i];
  }

  /** One turn of the loop at app.py:87-127: prepare the secondary, pick its value columns,
      align them and join them onto `merged`. */
  method JoinOne(merged: seq<Column>, timeName: string, times: seq<int>, raw: Table, tol: int, p: Parsers)
    returns (r: Result<seq<Column>, MergeError>)
    requires WellFormed(raw)
    ensures r == JoinStep(merged, timeName, times, raw, tol, p)
  {
    var sp := Prepare(raw, p);
    if sp.Err? {
      return Err(NoColumns);
    }
    var valueCols := PickValueColumns(sp.value, p);
    if |valueCols| == 0 {
      return Ok(merged);
    }
    if tol < 0 {
      return Err(NegativeTolerance);
    }
    var added := AlignedColumns(Source(sp.value, valueCols), times, tol, p);
    if Clash(Names(added), timeName, Names(merged)) {
      return Err(ColumnClash);
    }
    return Ok(merged + added);
  }

  /** `merge_align` as the source runs it: the primary first, then a loop over the
      secondaries reassigning `merged`, then the final drop and selection. */
  method MergeAlign(primary: Table, secs: seq<Table>, tol: int, cutoffText: string,
                    parseCutoff: string -> CutoffParse, p: Parsers) returns (r: Result<Merged, MergeError>)
    requires WellFormed(primary) && AllWellFormed(secs)
    ensures r == MergeSpec(primary, secs, tol, cutoffText, parseCutoff, p)
  {
    var prep := Prepare(primary, p);
    if prep.Err? {
      return Err(prep.error);
    }
    var pr := prep.value;
    var recs := ApplyCutoff(pr.records, cutoffText, parseCutoff);
    var timeName := pr.table.columns[pr.timeCol];
    var times := TimesOf(recs);
    var base := PrimaryColumns(pr, recs);
    var merged := base;
    assert secs[..0] == [];
    for i := 0 to |secs|
      invariant JoinAll(base, timeName, times, secs[..i], tol, p) == Ok(merged)
    {
      JoinAllSnoc(base, timeName, times, secs, tol, p, i);
      var step := JoinOne(merged, timeName, times, secs[i], tol, p);
      if step.Err? {
        JoinAllErrorSticks(base, timeName, times, secs, tol, p, i + 1, step.error);
        return Err(step.error);
      }
      merged := step.value;
    }
    assert secs[..|secs|] == secs;
    var fin := Finish(base, merged);
    if fin.Err? {
      return Err(fin.error);
    }
    r := Ok(Merged(timeName, times, fin.value));
  }
}

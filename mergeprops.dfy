/** What `merge_align` promises about its output: which rows it keeps and in what order,
    which columns and in what order, where each aligned value comes from, and when it
    raises. */
module MergeProperties {
  import opened Wrappers
  import opened Seqs
  import opened Tables
  import opened TimeColumn
  import opened Asof
  import opened Merge

  /** The primary rows that qualify, in file order: their time cell parsed and the time
      passes the cutoff. */
  function Qualifying(primary: Table, p: Parsers, cutoffText: string, parseCutoff: string -> CutoffParse): seq<Record>
    requires WellFormed(primary) && |DropSequenceCols(primary).columns| > 0
  {
    var t := DropSequenceCols(primary);
    ApplyCutoff(Stamped(t.rows, ChosenTimeColumn(t, p), p), cutoffText, parseCutoff)
  }

  /** The pieces `MergeSpec` is built from, when it succeeds. */
  lemma MergeSpecParts(primary: Table, secs: seq<Table>, tol: int, cutoffText: string,
                       parseCutoff: string -> CutoffParse, p: Parsers)
    requires WellFormed(primary) && AllWellFormed(secs)
    requires MergeSpec(primary, secs, tol, cutoffText, parseCutoff, p).Ok?
    ensures PrepareTable(primary, p).Ok?
    ensures var pr := PrepareTable(primary, p).value;
      var recs := ApplyCutoff(pr.records, cutoffText, parseCutoff);
      forall i :: 0 <= i < |recs| ==> |recs[i].cells| == |pr.table.columns|
    ensures var m := MergeSpec(primary, secs, tol, cutoffText, parseCutoff, p).value;
      var pr := PrepareTable(primary, p).value;
      var recs := ApplyCutoff(pr.records, cutoffText, parseCutoff);
      var timeName := pr.table.columns[pr.timeCol];
      var base := PrimaryColumns(pr, recs);
      var acc := JoinAll(base, timeName, TimesOf(recs), secs, tol, p);
      && m.timeName == timeName && m.times == TimesOf(recs)
      && acc.Ok? && Finish(base, acc.value) == Ok(m.columns)
  {
    CutoffKeepsWidths(PrepareTable(primary, p).value, cutoffText, parseCutoff);
  }

  /** The cutoff keeps rows, so every kept row is as wide as the table. */
  lemma CutoffKeepsWidths(pr: Prepared, cutoffText: string, parseCutoff: string -> CutoffParse)
    requires PreparedOk(pr)
    ensures var recs := ApplyCutoff(pr.records, cutoffText, parseCutoff);
      forall i :: 0 <= i < |recs| ==> |recs[i].cells| == |pr.table.columns|
  {
    var recs := ApplyCutoff(pr.records, cutoffText, parseCutoff);
    forall i | 0 <= i < |recs| ensures |recs[i].cells| == |pr.table.columns| {
      assert recs[i] in recs;
    }
  }

  /** The cutoff filter keeps a sorted list sorted, and a strictly ascending one strictly
      ascending. */
  lemma ApplyCutoffKeepsOrder(rs: seq<Record>, cutoffText: string, parseCutoff: string -> CutoffParse)
    ensures SortedByTime(rs) ==> SortedByTime(ApplyCutoff(rs, cutoffText, parseCutoff))
    ensures AscendingTimes(rs) ==> AscendingTimes(ApplyCutoff(rs, cutoffText, parseCutoff))
  {
    if cutoffText != "" && parseCutoff(cutoffText).At? {
      AtOrAfterKeepsOrder(rs, parseCutoff(cutoffText).time);
    }
  }

  /** The cutoff filter treats two arrangements of the same records alike. */
  lemma ApplyCutoffPermutation(a: seq<Record>, b: seq<Record>, cutoffText: string, parseCutoff: string -> CutoffParse)
    requires multiset(a) == multiset(b)
    ensures multiset(ApplyCutoff(a, cutoffText, parseCutoff)) == multiset(ApplyCutoff(b, cutoffText, parseCutoff))
  {
    var fa := ApplyCutoff(a, cutoffText, parseCutoff);
    var fb := ApplyCutoff(b, cutoffText, parseCutoff);
    ApplyCutoffCounts(a, cutoffText, parseCutoff);
    ApplyCutoffCounts(b, cutoffText, parseCutoff);
    forall x ensures multiset(fa)[x] == multiset(fb)[x] {
    }
  }

  /** A record of a row survives stamping and the cutoff iff the row's time cell parses to
      its time and that time passes the cutoff. */
  lemma StampedCutoffMembers(rows: seq<seq<Cell>>, k: nat, p: Parsers, recs: seq<Record>,
                             cutoffText: string, parseCutoff: string -> CutoffParse)
    requires forall j :: 0 <= j < |rows| ==> k < |rows[j]|
    requires multiset(recs) == multiset(ApplyCutoff(Stamped(rows, k, p), cutoffText, parseCutoff))
    ensures forall row, tm :: 0 <= row < |rows| ==>
      (Record(tm, rows[row]) in recs <==> ParseTime(p, rows[row][k]) == Some(tm) && PassesCutoff(tm, cutoffText, parseCutoff))
  {
    var stamped := Stamped(rows, k, p);
    var q := ApplyCutoff(stamped, cutoffText, parseCutoff);
    forall row, tm | 0 <= row < |rows|
      ensures Record(tm, rows[row]) in recs <==> ParseTime(p, rows[row][k]) == Some(tm) && PassesCutoff(tm, cutoffText, parseCutoff)
    {
      var x := Record(tm, rows[row]);
      assert x in recs <==> x in multiset(q);
      assert x in q <==> x in stamped && PassesCutoff(tm, cutoffText, parseCutoff);
    }
  }

  /** Sorting the stamped rows and then applying the cutoff gives a sorted arrangement of
      the rows that qualify in file order; a row is kept with time `tm` iff its time cell
      parses to `tm` and `tm` passes the cutoff. */
  lemma CutoffRows(rows: seq<seq<Cell>>, k: nat, p: Parsers, cutoffText: string, parseCutoff: string -> CutoffParse)
    requires forall j :: 0 <= j < |rows| ==> k < |rows[j]|
    ensures var stamped := Stamped(rows, k, p);
      var recs := ApplyCutoff(SortByTime(stamped), cutoffText, parseCutoff);
      && SortedByTime(recs)
      && multiset(recs) == multiset(ApplyCutoff(stamped, cutoffText, parseCutoff))
      && forall row, tm :: 0 <= row < |rows| ==>
           (Record(tm, rows[row]) in recs <==> ParseTime(p, rows[row][k]) == Some(tm) && PassesCutoff(tm, cutoffText, parseCutoff))
  {
    var stamped := Stamped(rows, k, p);
    var sorted := SortByTime(stamped);
    var recs := ApplyCutoff(sorted, cutoffText, parseCutoff);
    ApplyCutoffKeepsOrder(sorted, cutoffText, parseCutoff);
    ApplyCutoffPermutation(sorted, stamped, cutoffText, parseCutoff);
    StampedCutoffMembers(rows, k, p, recs, cutoffText, parseCutoff);
  }

  /** The same for the primary table as prepared. */
  lemma PreparedRows(primary: Table, p: Parsers, cutoffText: string, parseCutoff: string -> CutoffParse)
    requires WellFormed(primary) && |DropSequenceCols(primary).columns| > 0
    ensures var pr := PrepareTable(primary, p).value;
      var recs := ApplyCutoff(pr.records, cutoffText, parseCutoff);
      var t := DropSequenceCols(primary); var k := ChosenTimeColumn(t, p);
      && pr.table == t && pr.timeCol == k
      && SortedByTime(recs)
      && multiset(recs) == multiset(Qualifying(primary, p, cutoffText, parseCutoff))
      && forall row, tm :: 0 <= row < |t.rows| ==>
           (Record(tm, t.rows[row]) in recs <==> ParseTime(p, t.rows[row][k]) == Some(tm) && PassesCutoff(tm, cutoffText, parseCutoff))
  {
    var t := DropSequenceCols(primary);
    var k := ChosenTimeColumn(t, p);
    assert PrepareTable(primary, p).value.records == SortByTime(Stamped(t.rows, k, p));
    CutoffRows(t.rows, k, p, cutoffText, parseCutoff);
  }

  /** The output rows are a sorted arrangement of exactly the qualifying rows, the time
      column being the one `detect_time_col` chose. */
  lemma MergeRows(primary: Table, secs: seq<Table>, tol: int, cutoffText: string,
                  parseCutoff: string -> CutoffParse, p: Parsers)
    requires WellFormed(primary) && AllWellFormed(secs)
    requires MergeSpec(primary, secs, tol, cutoffText, parseCutoff, p).Ok?
    ensures var m := MergeSpec(primary, secs, tol, cutoffText, parseCutoff, p).value;
      var t := DropSequenceCols(primary); var k := ChosenTimeColumn(t, p);
      && m.timeName == t.columns[k]
      && Sorted(m.times)
      && exists recs: seq<Record> ::
        && SortedByTime(recs) && m.times == TimesOf(recs)
        && multiset(recs) == multiset(Qualifying(primary, p, cutoffText, parseCutoff))
        && (forall row, tm :: 0 <= row < |t.rows| ==>
             (Record(tm, t.rows[row]) in recs <==> ParseTime(p, t.rows[row][k]) == Some(tm) && PassesCutoff(tm, cutoffText, parseCutoff)))
        && HoldsPrimaryCells(m.columns, NonTimePositions(PrepareTable(primary, p).value), recs)
  {
    var m := MergeSpec(primary, secs, tol, cutoffText, parseCutoff, p).value;
    var t := DropSequenceCols(primary);
    var k := ChosenTimeColumn(t, p);
    MergeSpecParts(primary, secs, tol, cutoffText, parseCutoff, p);
    PreparedRows(primary, p, cutoffText, parseCutoff);
    MergeColumnsValue(primary, secs, tol, cutoffText, parseCutoff, p);
    var pr := PrepareTable(primary, p).value;
    var recs := ApplyCutoff(pr.records, cutoffText, parseCutoff);
    PrimaryColumnsPrefix(m.columns, pr, recs);
  }

  /** Column `j` of `cols` holds, row by row, the cell of `recs` at position `idx[j]`. */
  predicate HoldsPrimaryCells(cols: seq<Column>, idx: seq<nat>, recs: seq<Record>) {
    forall j, i :: 0 <= j < |idx| && 0 <= i < |recs| ==>
      && j < |cols| && i < |cols[j].cells| && idx[j] < |recs[i].cells|
      && cols[j].cells[i] == PrimaryCell(recs[i].cells[idx[j]])
  }

  /** Cells of a header that starts with the primary's own columns. */
  lemma PrimaryColumnsPrefix(cols: seq<Column>, pr: Prepared, recs: seq<Record>)
    requires PreparedOk(pr)
    requires forall i :: 0 <= i < |recs| ==> |recs[i].cells| == |pr.table.columns|
    requires |PrimaryColumns(pr, recs)| <= |cols| && cols[..|PrimaryColumns(pr, recs)|] == PrimaryColumns(pr, recs)
    ensures HoldsPrimaryCells(cols, NonTimePositions(pr), recs)
  {
    var base := PrimaryColumns(pr, recs);
    forall j | 0 <= j < |base|
      ensures cols[j] == base[j]
    {
      assert cols[..|base|][j] == base[j];
    }
  }

  /** With no repeated time among the primary's stamped rows, the output times strictly
      ascend. */
  lemma MergeTimesAscending(primary: Table, secs: seq<Table>, tol: int, cutoffText: string,
                            parseCutoff: string -> CutoffParse, p: Parsers)
    requires WellFormed(primary) && AllWellFormed(secs)
    requires MergeSpec(primary, secs, tol, cutoffText, parseCutoff, p).Ok?
    requires var t := DropSequenceCols(primary); DistinctTimes(Stamped(t.rows, ChosenTimeColumn(t, p), p))
    ensures var m := MergeSpec(primary, secs, tol, cutoffText, parseCutoff, p).value;
      forall i, j :: 0 <= i < j < |m.times| ==> m.times[i] < m.times[j]
  {
    MergeSpecParts(primary, secs, tol, cutoffText, parseCutoff, p);
    var pr := PrepareTable(primary, p).value;
    PreparedAscending(primary, p);
    var recs := ApplyCutoff(pr.records, cutoffText, parseCutoff);
    ApplyCutoffKeepsOrder(pr.records, cutoffText, parseCutoff);
    TimesAscending(recs);
  }

  /** With no repeated time among the stamped rows, the prepared rows strictly ascend. */
  lemma PreparedAscending(primary: Table, p: Parsers)
    requires WellFormed(primary) && PrepareTable(primary, p).Ok?
    requires var t := DropSequenceCols(primary); DistinctTimes(Stamped(t.rows, ChosenTimeColumn(t, p), p))
    ensures AscendingTimes(PrepareTable(primary, p).value.records)
  {
    var t := DropSequenceCols(primary);
    SortAscending(Stamped(t.rows, ChosenTimeColumn(t, p), p));
  }

  /** The times of strictly ascending records strictly ascend. */
  lemma TimesAscending(recs: seq<Record>)
    requires AscendingTimes(recs)
    ensures forall i, j :: 0 <= i < j < |TimesOf(recs)| ==> TimesOf(recs)[i] < TimesOf(recs)[j]
  {
  }

  /** An unparseable cutoff is ignored. */
  lemma UnparseableCutoffIgnored(primary: Table, secs: seq<Table>, tol: int, cutoffText: string,
                                 parseCutoff: string -> CutoffParse, p: Parsers)
    requires WellFormed(primary) && AllWellFormed(secs)
    requires parseCutoff(cutoffText) == Unparseable
    ensures MergeSpec(primary, secs, tol, cutoffText, parseCutoff, p) == MergeSpec(primary, secs, tol, "", parseCutoff, p)
  {
  }

  /** What one secondary contributes: its aligned value columns, or nothing. */
  function StepColumns(refTimes: seq<int>, raw: Table, tol: int, p: Parsers): seq<Column>
    requires WellFormed(raw)
  {
    match SourceOf(raw, p)
    case Err(_) => []
    case Ok(src) => AlignedColumns(src, refTimes, tol, p)
  }

  /** The columns the secondaries contribute, in join order. */
  function Contributed(refTimes: seq<int>, secs: seq<Table>, tol: int, p: Parsers): seq<Column>
    requires AllWellFormed(secs)
  {
    if |secs| == 0 then []
    else Contributed(refTimes, secs[..|secs| - 1], tol, p) + StepColumns(refTimes, secs[|secs| - 1], tol, p)
  }

  /** Every contributed column is one of some secondary's aligned columns. */
  lemma {:induction false} ContributedFrom(refTimes: seq<int>, secs: seq<Table>, tol: int, p: Parsers, c: Column)
    requires AllWellFormed(secs) && c in Contributed(refTimes, secs, tol, p)
    ensures exists s :: 0 <= s < |secs| && SourceOf(secs[s], p).Ok? && c in AlignedColumns(SourceOf(secs[s], p).value, refTimes, tol, p)
  {
    var front := secs[..|secs| - 1];
    ContributedSnoc(refTimes, secs, tol, p);
    if c in Contributed(refTimes, front, tol, p) {
      ContributedFrom(refTimes, front, tol, p, c);
      var s :| 0 <= s < |front| && SourceOf(front[s], p).Ok? && c in AlignedColumns(SourceOf(front[s], p).value, refTimes, tol, p);
      assert front[s] == secs[s];
    } else {
      StepColumnsFrom(refTimes, secs[|secs| - 1], tol, p, c);
    }
  }

  lemma StepColumnsFrom(refTimes: seq<int>, raw: Table, tol: int, p: Parsers, c: Column)
    requires WellFormed(raw) && c in StepColumns(refTimes, raw, tol, p)
    ensures SourceOf(raw, p).Ok? && c in AlignedColumns(SourceOf(raw, p).value, refTimes, tol, p)
  {
  }

  /** The columns aligned from one secondary have distinct names. */
  lemma AlignedNamesDistinct(src: Source, refTimes: seq<int>, tol: int, p: Parsers)
    requires SourceOk(src)
    ensures Distinct(Names(AlignedColumns(src, refTimes, tol, p)))
  {
    assert Names(AlignedColumns(src, refTimes, tol, p)) == Select(src.prepared.table.columns, src.valueCols);
    SelectDistinct(src.prepared.table.columns, src.valueCols);
  }

  /** The primary's time name and its other column names are all distinct. */
  lemma BaseNamesDistinct(pr: Prepared, recs: seq<Record>)
    requires PreparedOk(pr)
    requires forall i :: 0 <= i < |recs| ==> |recs[i].cells| == |pr.table.columns|
    ensures Distinct([pr.table.columns[pr.timeCol]] + Names(PrimaryColumns(pr, recs)))
  {
    var idx := NonTimePositions(pr);
    var n := Names(PrimaryColumns(pr, recs));
    assert n == Select(pr.table.columns, idx);
    SelectDistinct(pr.table.columns, idx);
    forall j | 0 <= j < |n| ensures n[j] !in [pr.table.columns[pr.timeCol]] {
      assert idx[j] in idx;
    }
    DistinctConcat([pr.table.columns[pr.timeCol]], n);
  }

  /** Appending columns that do not clash keeps every name unique. */
  lemma AppendKeepsNamesDistinct(acc: seq<Column>, timeName: string, added: seq<Column>)
    requires Distinct([timeName] + Names(acc)) && Distinct(Names(added))
    requires !Clash(Names(added), timeName, Names(acc))
    ensures Distinct([timeName] + Names(acc + added))
  {
    var n := Names(added);
    forall j | 0 <= j < |n| ensures n[j] !in [timeName] + Names(acc) {
    }
    DistinctConcat([timeName] + Names(acc), n);
    assert [timeName] + Names(acc + added) == [timeName] + Names(acc) + n;
  }

  /** One successful join step appends the secondary's columns and keeps names unique. */
  lemma JoinStepAppends(acc: seq<Column>, timeName: string, refTimes: seq<int>, raw: Table, tol: int, p: Parsers)
    requires WellFormed(raw)
    requires Distinct([timeName] + Names(acc))
    requires JoinStep(acc, timeName, refTimes, raw, tol, p).Ok?
    ensures var r := JoinStep(acc, timeName, refTimes, raw, tol, p).value;
      r == acc + StepColumns(refTimes, raw, tol, p) && Distinct([timeName] + Names(r))
  {
    var src := SourceOf(raw, p).value;
    var added := AlignedColumns(src, refTimes, tol, p);
    assert StepColumns(refTimes, raw, tol, p) == added;
    if |src.valueCols| > 0 {
      assert JoinStep(acc, timeName, refTimes, raw, tol, p) ==
        if tol < 0 then Err(NegativeTolerance)
        else if Clash(Names(added), timeName, Names(acc)) then Err(ColumnClash) else Ok(acc + added);
      AlignedNamesDistinct(src, refTimes, tol, p);
      AppendKeepsNamesDistinct(acc, timeName, added);
    } else {
      assert added == [];
      assert acc + added == acc;
    }
  }

  /** A successful join loop appends exactly the contributed columns and keeps every name,
      the time name included, unique. */
  lemma {:induction false} JoinAllAppends(base: seq<Column>, timeName: string, refTimes: seq<int>,
                                          secs: seq<Table>, tol: int, p: Parsers)
    requires AllWellFormed(secs)
    requires Distinct([timeName] + Names(base))
    requires JoinAll(base, timeName, refTimes, secs, tol, p).Ok?
    ensures var acc := JoinAll(base, timeName, refTimes, secs, tol, p).value;
      acc == base + Contributed(refTimes, secs, tol, p) && Distinct([timeName] + Names(acc))
  {
    if |secs| > 0 {
      var front := secs[..|secs| - 1];
      var last := secs[|secs| - 1];
      JoinAllPrefixOk(base, timeName, refTimes, secs, tol, p);
      var acc0 := JoinAll(base, timeName, refTimes, front, tol, p).value;
      JoinAllAppends(base, timeName, refTimes, front, tol, p);
      JoinStepAppends(acc0, timeName, refTimes, last, tol, p);
      ContributedSnoc(refTimes, secs, tol, p);
    }
  }

  /** A successful loop succeeded on every prefix, and its result is the last step's. */
  lemma JoinAllPrefixOk(base: seq<Column>, timeName: string, refTimes: seq<int>, secs: seq<Table>, tol: int, p: Parsers)
    requires AllWellFormed(secs) && |secs| > 0
    requires JoinAll(base, timeName, refTimes, secs, tol, p).Ok?
    ensures JoinAll(base, timeName, refTimes, secs[..|secs| - 1], tol, p).Ok?
    ensures JoinAll(base, timeName, refTimes, secs, tol, p) ==
      JoinStep(JoinAll(base, timeName, refTimes, secs[..|secs| - 1], tol, p).value, timeName, refTimes, secs[|secs| - 1], tol, p)
  {
  }

  lemma ContributedSnoc(refTimes: seq<int>, secs: seq<Table>, tol: int, p: Parsers)
    requires AllWellFormed(secs) && |secs| > 0
    ensures Contributed(refTimes, secs, tol, p) ==
      Contributed(refTimes, secs[..|secs| - 1], tol, p) + StepColumns(refTimes, secs[|secs| - 1], tol, p)
  {
  }

  lemma {:induction false} WithoutTimeLikeAppend(a: seq<Column>, b: seq<Column>)
    ensures WithoutTimeLike(a + b) == WithoutTimeLike(a) + WithoutTimeLike(b)
    decreases |b|
  {
    if |b| > 0 {
      var b0 := b[..|b| - 1];
      assert (a + b)[..|a + b| - 1] == a + b0;
      WithoutTimeLikeAppend(a, b0);
    } else {
      assert a + b == a;
    }
  }

  lemma {:induction false} WithoutTimeLikeKeepsAll(a: seq<Column>)
    requires forall j :: 0 <= j < |a| ==> !IsTimeLike(a[j].name)
    ensures WithoutTimeLike(a) == a
  {
    if |a| > 0 {
      WithoutTimeLikeKeepsAll(a[..|a| - 1]);
      assert a == a[..|a| - 1] + [a[|a| - 1]];
    }
  }

  /** Dropping columns keeps the remaining names unique. */
  lemma {:induction false} WithoutTimeLikeDistinct(a: seq<Column>)
    requires Distinct(Names(a))
    ensures Distinct(Names(WithoutTimeLike(a)))
  {
    if |a| > 0 {
      var a0 := a[..|a| - 1];
      var last := a[|a| - 1];
      assert Names(a0) == Names(a)[..|a| - 1];
      WithoutTimeLikeDistinct(a0);
      var w := WithoutTimeLike(a0);
      WithoutTimeLikeMembers(a0);
      if !IsTimeLike(last.name) {
        forall j | 0 <= j < |w| ensures w[j].name != last.name {
          assert w[j] in a0;
          var i :| 0 <= i < |a0| && a0[i] == w[j];
          assert Names(a)[i] == w[j].name;
        }
        assert Names(w + [last]) == Names(w) + [last.name];
        DistinctConcat(Names(w), [last.name]);
      }
    }
  }

  lemma {:induction false} NotAmongAppend(a: seq<Column>, b: seq<Column>, names: seq<string>)
    ensures NotAmong(a + b, names) == NotAmong(a, names) + NotAmong(b, names)
    decreases |b|
  {
    if |b| > 0 {
      var b0 := b[..|b| - 1];
      assert (a + b)[..|a + b| - 1] == a + b0;
      NotAmongAppend(a, b0, names);
    } else {
      assert a + b == a;
    }
  }

  lemma {:induction false} NotAmongKeepsAll(a: seq<Column>, names: seq<string>)
    requires forall j :: 0 <= j < |a| ==> a[j].name !in names
    ensures NotAmong(a, names) == a
  {
    if |a| > 0 {
      var a0 := a[..|a| - 1];
      var last := a[|a| - 1];
      forall j | 0 <= j < |a0| ensures a0[j].name !in names {
        assert a0[j] == a[j];
      }
      NotAmongKeepsAll(a0, names);
      assert last.name !in names;
      assert a == a0 + [last];
    }
  }

  lemma {:induction false} NotAmongDropsAll(a: seq<Column>, names: seq<string>)
    requires forall j :: 0 <= j < |a| ==> a[j].name in names
    ensures NotAmong(a, names) == []
  {
    if |a| > 0 {
      NotAmongDropsAll(a[..|a| - 1], names);
    }
  }

  /** With no primary column time-like and no contributed name among the primary's, the
      final selection is the primary columns followed by the contributed columns that
      carry no time keyword. */
  lemma FinishValue(base: seq<Column>, contributed: seq<Column>)
    requires Finish(base, base + contributed).Ok?
    requires forall c :: c in contributed ==> c.name !in Names(base)
    ensures Finish(base, base + contributed).value == base + WithoutTimeLike(contributed)
  {
    assert forall j :: 0 <= j < |base| ==> !IsTimeLike(base[j].name);
    SelectionValue(base, contributed);
  }

  /** The selection of app.py:132-133 on the columns left after the drop. */
  lemma SelectionValue(base: seq<Column>, contributed: seq<Column>)
    requires forall j :: 0 <= j < |base| ==> !IsTimeLike(base[j].name)
    requires forall c :: c in contributed ==> c.name !in Names(base)
    ensures NotAmong(WithoutTimeLike(base + contributed), Names(base)) == WithoutTimeLike(contributed)
  {
    var w := WithoutTimeLike(contributed);
    var nb := Names(base);
    WithoutTimeLikeAppend(base, contributed);
    WithoutTimeLikeKeepsAll(base);
    NotAmongAppend(base, w, nb);
    forall j | 0 <= j < |base| ensures base[j].name in nb {
      assert nb[j] == base[j].name;
    }
    NotAmongDropsAll(base, nb);
    WithoutTimeLikeFresh(contributed, nb);
    NotAmongKeepsAll(w, nb);
    assert [] + w == w;
  }

  /** Names kept out of `names` stay out of it after dropping time-like columns. */
  lemma WithoutTimeLikeFresh(cols: seq<Column>, names: seq<string>)
    requires forall c :: c in cols ==> c.name !in names
    ensures forall j :: 0 <= j < |WithoutTimeLike(cols)| ==> WithoutTimeLike(cols)[j].name !in names
  {
    var w := WithoutTimeLike(cols);
    WithoutTimeLikeMembers(cols);
    forall j | 0 <= j < |w| ensures w[j].name !in names {
      assert w[j] in w;
    }
  }

  /** Names kept out of `nb` stay out of it after dropping time-like columns. */
  lemma FilteredNamesFresh(contributed: seq<Column>, nb: seq<string>)
    requires forall j :: 0 <= j < |contributed| ==> Names(contributed)[j] !in nb
    ensures forall c :: c in contributed ==> c.name !in nb
    ensures forall j :: 0 <= j < |WithoutTimeLike(contributed)| ==> Names(WithoutTimeLike(contributed))[j] !in nb
  {
    forall c | c in contributed ensures c.name !in nb {
      var i :| 0 <= i < |contributed| && contributed[i] == c;
      assert Names(contributed)[i] == c.name;
    }
    var w := WithoutTimeLike(contributed);
    WithoutTimeLikeMembers(contributed);
    forall j | 0 <= j < |w| ensures Names(w)[j] !in nb {
      assert w[j] in contributed;
    }
  }

  /** Dropping the time-like contributed columns keeps all output names unique. */
  lemma SurvivingNamesDistinct(base: seq<Column>, timeName: string, contributed: seq<Column>)
    requires Distinct([timeName] + Names(base + contributed))
    ensures forall c :: c in contributed ==> c.name !in Names(base)
    ensures Distinct([timeName] + Names(base + WithoutTimeLike(contributed)))
  {
    var nb := [timeName] + Names(base);
    var nc := Names(contributed);
    assert [timeName] + Names(base + contributed) == nb + nc;
    DistinctSplit(nb, nc);
    FilteredNamesFresh(contributed, nb);
    assert forall x :: x in Names(base) ==> x in nb;
    var w := WithoutTimeLike(contributed);
    WithoutTimeLikeDistinct(contributed);
    DistinctConcat(nb, Names(w));
    assert [timeName] + Names(base + w) == nb + Names(w);
  }

  /** The output names: the time name, the primary's names, the surviving contributed ones,
      all unique and none time-like. */
  lemma FinishShape(base: seq<Column>, timeName: string, contributed: seq<Column>)
    requires Distinct([timeName] + Names(base + contributed))
    requires Finish(base, base + contributed).Ok?
    ensures var cols := Finish(base, base + contributed).value;
      && cols == base + WithoutTimeLike(contributed)
      && (forall j :: 0 <= j < |cols| ==> !IsTimeLike(cols[j].name))
      && Distinct([timeName] + Names(cols))
  {
    SurvivingNamesDistinct(base, timeName, contributed);
    FinishValue(base, contributed);
    WithoutTimeLikeNames(contributed);
  }

  /** No surviving column carries a time keyword. */
  lemma WithoutTimeLikeNames(cols: seq<Column>)
    ensures forall j :: 0 <= j < |WithoutTimeLike(cols)| ==> !IsTimeLike(WithoutTimeLike(cols)[j].name)
  {
    var w := WithoutTimeLike(cols);
    WithoutTimeLikeMembers(cols);
    forall j | 0 <= j < |w| ensures !IsTimeLike(w[j].name) {
      assert w[j] in w;
    }
  }

  /** Every contributed column has one cell per reference time. */
  lemma ContributedCells(refTimes: seq<int>, secs: seq<Table>, tol: int, p: Parsers)
    requires AllWellFormed(secs)
    ensures forall c :: c in Contributed(refTimes, secs, tol, p) ==> |c.cells| == |refTimes|
  {
    forall c | c in Contributed(refTimes, secs, tol, p) ensures |c.cells| == |refTimes| {
      ContributedFrom(refTimes, secs, tol, p, c);
    }
  }

  /** The output columns as built: the primary's non-time columns over the kept rows, then
      the contributed columns whose names carry no time keyword. */
  lemma MergeColumnsValue(primary: Table, secs: seq<Table>, tol: int, cutoffText: string,
                          parseCutoff: string -> CutoffParse, p: Parsers)
    requires WellFormed(primary) && AllWellFormed(secs)
    requires MergeSpec(primary, secs, tol, cutoffText, parseCutoff, p).Ok?
    ensures var m := MergeSpec(primary, secs, tol, cutoffText, parseCutoff, p).value;
      var pr := PrepareTable(primary, p).value;
      var recs := ApplyCutoff(pr.records, cutoffText, parseCutoff);
      && m.times == TimesOf(recs)
      && (forall i :: 0 <= i < |recs| ==> |recs[i].cells| == |pr.table.columns|)
      && m.columns == PrimaryColumns(pr, recs) + WithoutTimeLike(Contributed(m.times, secs, tol, p))
      && (forall j :: 0 <= j < |m.columns| ==> !IsTimeLike(m.columns[j].name))
      && Distinct(Header(m))
  {
    MergeSpecParts(primary, secs, tol, cutoffText, parseCutoff, p);
    var pr := PrepareTable(primary, p).value;
    var recs := ApplyCutoff(pr.records, cutoffText, parseCutoff);
    var timeName := pr.table.columns[pr.timeCol];
    var base := PrimaryColumns(pr, recs);
    var times := TimesOf(recs);
    BaseNamesDistinct(pr, recs);
    JoinAllAppends(base, timeName, times, secs, tol, p);
    FinishShape(base, timeName, Contributed(times, secs, tol, p));
  }

  /** The output header is the time column, then the primary's other columns in their
      order, then the contributed columns in join order less the time-like ones; the names
      are unique, none but the first is time-like, and every column has one cell per row. */
  lemma MergeColumns(primary: Table, secs: seq<Table>, tol: int, cutoffText: string,
                     parseCutoff: string -> CutoffParse, p: Parsers)
    requires WellFormed(primary) && AllWellFormed(secs)
    requires MergeSpec(primary, secs, tol, cutoffText, parseCutoff, p).Ok?
    ensures var m := MergeSpec(primary, secs, tol, cutoffText, parseCutoff, p).value;
      var pr := PrepareTable(primary, p).value;
      var idx := NonTimePositions(pr);
      && |idx| <= |m.columns|
      && (forall j :: 0 <= j < |idx| ==> m.columns[j].name == pr.table.columns[idx[j]])
      && m.columns[|idx|..] == WithoutTimeLike(Contributed(m.times, secs, tol, p))
      && (forall j :: 0 <= j < |m.columns| ==> !IsTimeLike(m.columns[j].name) && |m.columns[j].cells| == |m.times|)
      && Distinct(Header(m))
  {
    MergeColumnsValue(primary, secs, tol, cutoffText, parseCutoff, p);
    var m := MergeSpec(primary, secs, tol, cutoffText, parseCutoff, p).value;
    var pr := PrepareTable(primary, p).value;
    var recs := ApplyCutoff(pr.records, cutoffText, parseCutoff);
    var c := Contributed(m.times, secs, tol, p);
    ContributedCells(m.times, secs, tol, p);
    MergedShape(m, PrimaryColumns(pr, recs), c, Select(pr.table.columns, NonTimePositions(pr)));
  }

  /** The shape of a merged frame whose columns are base columns followed by contributed
      columns less the time-like ones. */
  lemma MergedShape(m: Merged, base: seq<Column>, c: seq<Column>, names: seq<string>)
    requires m.columns == base + WithoutTimeLike(c)
    requires |base| == |names|
    requires forall j :: 0 <= j < |base| ==> base[j].name == names[j] && |base[j].cells| == |m.times|
    requires forall col :: col in c ==> |col.cells| == |m.times|
    ensures |names| <= |m.columns|
    ensures forall j :: 0 <= j < |names| ==> m.columns[j].name == names[j]
    ensures m.columns[|names|..] == WithoutTimeLike(c)
    ensures forall j :: 0 <= j < |m.columns| ==> |m.columns[j].cells| == |m.times|
  {
    WithoutTimeLikeCells(c, |m.times|);
    ConcatShape(m.columns, base, WithoutTimeLike(c), |m.times|);
    forall j | 0 <= j < |names| ensures m.columns[j].name == names[j] {
      assert m.columns[j] == base[j];
    }
  }

  /** Columns of one length keep it after dropping time-like columns. */
  lemma WithoutTimeLikeCells(cols: seq<Column>, n: nat)
    requires forall c :: c in cols ==> |c.cells| == n
    ensures forall j :: 0 <= j < |WithoutTimeLike(cols)| ==> |WithoutTimeLike(cols)[j].cells| == n
  {
    var w := WithoutTimeLike(cols);
    WithoutTimeLikeMembers(cols);
    forall j | 0 <= j < |w| ensures |w[j].cells| == n {
      assert w[j] in w;
    }
  }

  /** The two parts of a concatenation of columns, all of one length. */
  lemma ConcatShape(cols: seq<Column>, base: seq<Column>, rest: seq<Column>, n: nat)
    requires cols == base + rest
    requires forall j :: 0 <= j < |base| ==> |base[j].cells| == n
    requires forall j :: 0 <= j < |rest| ==> |rest[j].cells| == n
    ensures cols[|base|..] == rest
    ensures forall j :: 0 <= j < |cols| ==> |cols[j].cells| == n
  {
    forall j | 0 <= j < |cols| ensures |cols[j].cells| == n {
      if j >= |base| {
        assert cols[j] == rest[j - |base|];
      }
    }
  }

  /** What `merge_asof(direction="nearest", tolerance=tol)` promises for the cell `v` at
      reference time `t`: when some sample lies within `tol`, `v` is the coerced value of a
      sample within `tol` that no other sample is closer than; when none does, `v` is null.
      A number in `v` therefore always comes from such a sample. */
  predicate NearestCell(samples: seq<Record>, c: nat, t: int, tol: int, p: Parsers, v: Value) {
    && (v == Null || v.Num?)
    && ((exists s :: 0 <= s < |samples| && Dist(samples[s].time, t) <= tol) ==>
          exists s :: 0 <= s < |samples| && c < |samples[s].cells|
            && Dist(samples[s].time, t) <= tol
            && (forall s' :: 0 <= s' < |samples| ==> Dist(samples[s].time, t) <= Dist(samples[s'].time, t))
            && v == NumberCell(p, samples[s].cells[c]))
    && ((forall s :: 0 <= s < |samples| ==> Dist(samples[s].time, t) > tol) ==> v == Null)
    && (v.Num? ==>
          exists s :: 0 <= s < |samples| && c < |samples[s].cells|
            && Dist(samples[s].time, t) <= tol
            && (forall s' :: 0 <= s' < |samples| ==> Dist(samples[s].time, t) <= Dist(samples[s'].time, t))
            && ParseNumber(p, samples[s].cells[c]) == Some(v.x))
  }

  /** A reference time with a sample in range, among samples whose cells all hold numbers,
      never gets a null cell. */
  lemma NearestCellInRange(samples: seq<Record>, c: nat, t: int, tol: int, p: Parsers, v: Value)
    requires NearestCell(samples, c, t, tol, p, v)
    requires forall s :: 0 <= s < |samples| ==> c < |samples[s].cells| && ParseNumber(p, samples[s].cells[c]).Some?
    requires exists s :: 0 <= s < |samples| && Dist(samples[s].time, t) <= tol
    ensures v.Num?
  {
    var s :| 0 <= s < |samples| && c < |samples[s].cells|
      && Dist(samples[s].time, t) <= tol
      && (forall s' :: 0 <= s' < |samples| ==> Dist(samples[s].time, t) <= Dist(samples[s'].time, t))
      && v == NumberCell(p, samples[s].cells[c]);
  }

  /** Cell by cell, what an aligned column promises over the reference times. */
  predicate NearestCells(samples: seq<Record>, c: nat, refTimes: seq<int>, tol: int, p: Parsers, cells: seq<Value>) {
    && |cells| == |refTimes|
    && forall i :: 0 <= i < |refTimes| ==> NearestCell(samples, c, refTimes[i], tol, p, cells[i])
  }

  /** The coerced value of a closest sample within the tolerance keeps the promise. */
  lemma ClosestSampleCell(samples: seq<Record>, c: nat, t: int, tol: int, p: Parsers, s: nat)
    requires s < |samples| && c < |samples[s].cells| && Dist(samples[s].time, t) <= tol
    requires forall s' :: 0 <= s' < |samples| ==> Dist(samples[s].time, t) <= Dist(samples[s'].time, t)
    ensures NearestCell(samples, c, t, tol, p, NumberCell(p, samples[s].cells[c]))
  {
  }

  /** Null keeps the promise when no sample is within the tolerance. */
  lemma NoSampleCell(samples: seq<Record>, c: nat, t: int, tol: int, p: Parsers)
    requires forall s :: 0 <= s < |samples| ==> Dist(samples[s].time, t) > tol
    ensures NearestCell(samples, c, t, tol, p, Null)
  {
  }

  /** One aligned cell keeps the nearest-sample promise. */
  lemma AlignedCellMeaning(samples: seq<Record>, c: nat, t: int, tol: int, p: Parsers)
    requires SortedByTime(samples)
    requires forall s :: 0 <= s < |samples| ==> c < |samples[s].cells|
    ensures NearestCell(samples, c, t, tol, p, AlignedCell(samples, c, t, tol, p))
  {
    var ts := TimesOf(samples);
    NearestIsClosest(ts, t, tol);
    var r := Nearest(ts, t, tol);
    if r.Some? {
      var s := r.value;
      assert ts[s] == samples[s].time;
      forall s' | 0 <= s' < |samples| ensures Dist(samples[s].time, t) <= Dist(samples[s'].time, t) {
        assert ts[s'] == samples[s'].time;
      }
      ClosestSampleCell(samples, c, t, tol, p, s);
    } else {
      forall s | 0 <= s < |samples| ensures Dist(samples[s].time, t) > tol {
        assert ts[s] == samples[s].time;
      }
      NoSampleCell(samples, c, t, tol, p);
    }
  }

  /** Every column aligned from a secondary keeps the nearest-sample promise, and its
      secondary column is a non-time column holding at least one number. */
  lemma AlignedColumnMeaning(src: Source, refTimes: seq<int>, tol: int, p: Parsers, j: nat)
    requires SourceOk(src) && j < |src.valueCols|
    requires src.valueCols == Positions(ValueMask(src.prepared, p))
    ensures var pr := src.prepared; var c := src.valueCols[j];
      && c != pr.timeCol && HasNumber(pr.records, c, p)
      && NearestCells(pr.records, c, refTimes, tol, p, AlignedColumns(src, refTimes, tol, p)[j].cells)
  {
    var pr := src.prepared;
    var c := src.valueCols[j];
    assert c in src.valueCols;
    forall i | 0 <= i < |refTimes| {
      AlignedCellMeaning(pr.records, c, refTimes[i], tol, p);
    }
  }

  /** Every output column after the primary's comes from one secondary's value column and
      keeps the nearest-sample promise against that secondary's stamped, sorted rows. */
  lemma MergeSecondaryCells(primary: Table, secs: seq<Table>, tol: int, cutoffText: string,
                            parseCutoff: string -> CutoffParse, p: Parsers, j: nat)
    requires WellFormed(primary) && AllWellFormed(secs)
    requires MergeSpec(primary, secs, tol, cutoffText, parseCutoff, p).Ok?
    requires var m := MergeSpec(primary, secs, tol, cutoffText, parseCutoff, p).value;
      |NonTimePositions(PrepareTable(primary, p).value)| <= j < |m.columns|
    ensures var m := MergeSpec(primary, secs, tol, cutoffText, parseCutoff, p).value;
      exists s :: 0 <= s < |secs| && SourceOf(secs[s], p).Ok? &&
        var src := SourceOf(secs[s], p).value;
        exists v :: 0 <= v < |src.valueCols| &&
          var c := src.valueCols[v];
          && m.columns[j].name == src.prepared.table.columns[c]
          && c != src.prepared.timeCol && HasNumber(src.prepared.records, c, p)
          && NearestCells(src.prepared.records, c, m.times, tol, p, m.columns[j].cells)
  {
    var m := MergeSpec(primary, secs, tol, cutoffText, parseCutoff, p).value;
    MergedColumnFrom(primary, secs, tol, cutoffText, parseCutoff, p, j);
    var s :| 0 <= s < |secs| && SourceOf(secs[s], p).Ok?
      && m.columns[j] in AlignedColumns(SourceOf(secs[s], p).value, m.times, tol, p);
    SourceColumnMeaning(SourceOf(secs[s], p).value, m.times, tol, p, m.columns[j]);
  }

  /** Every output column after the primary's is one of the aligned columns of some
      secondary. */
  lemma MergedColumnFrom(primary: Table, secs: seq<Table>, tol: int, cutoffText: string,
                         parseCutoff: string -> CutoffParse, p: Parsers, j: nat)
    requires WellFormed(primary) && AllWellFormed(secs)
    requires MergeSpec(primary, secs, tol, cutoffText, parseCutoff, p).Ok?
    requires var m := MergeSpec(primary, secs, tol, cutoffText, parseCutoff, p).value;
      |NonTimePositions(PrepareTable(primary, p).value)| <= j < |m.columns|
    ensures var m := MergeSpec(primary, secs, tol, cutoffText, parseCutoff, p).value;
      exists s :: 0 <= s < |secs| && SourceOf(secs[s], p).Ok?
        && m.columns[j] in AlignedColumns(SourceOf(secs[s], p).value, m.times, tol, p)
  {
    MergeColumnsValue(primary, secs, tol, cutoffText, parseCutoff, p);
    var m := MergeSpec(primary, secs, tol, cutoffText, parseCutoff, p).value;
    var pr := PrepareTable(primary, p).value;
    var base := PrimaryColumns(pr, ApplyCutoff(pr.records, cutoffText, parseCutoff));
    var contributed := Contributed(m.times, secs, tol, p);
    var w := WithoutTimeLike(contributed);
    InTail(base, w, j);
    WithoutTimeLikeMembers(contributed);
    ContributedFrom(m.times, secs, tol, p, m.columns[j]);
  }

  lemma InTail(base: seq<Column>, rest: seq<Column>, j: nat)
    requires |base| <= j < |base| + |rest|
    ensures (base + rest)[j] in rest
  {
    assert (base + rest)[j] == rest[j - |base|];
  }

  /** An aligned column of a secondary comes from one of its value columns and keeps the
      nearest-sample promise. */
  lemma SourceColumnMeaning(src: Source, refTimes: seq<int>, tol: int, p: Parsers, col: Column)
    requires SourceOk(src) && src.valueCols == Positions(ValueMask(src.prepared, p))
    requires col in AlignedColumns(src, refTimes, tol, p)
    ensures exists v :: 0 <= v < |src.valueCols| &&
              var c := src.valueCols[v];
              && col.name == src.prepared.table.columns[c]
              && c != src.prepared.timeCol && HasNumber(src.prepared.records, c, p)
              && NearestCells(src.prepared.records, c, refTimes, tol, p, col.cells)
  {
    var cols := AlignedColumns(src, refTimes, tol, p);
    var v :| 0 <= v < |cols| && cols[v] == col;
    AlignedColumnMeaning(src, refTimes, tol, p, v);
  }

  /** A secondary none of whose non-time columns holds a number is skipped. */
  lemma SkipsNonNumeric(acc: seq<Column>, timeName: string, refTimes: seq<int>, raw: Table, tol: int, p: Parsers)
    requires WellFormed(raw) && SourceOf(raw, p).Ok?
    requires var pr := SourceOf(raw, p).value.prepared;
      forall c :: 0 <= c < |pr.table.columns| && c != pr.timeCol ==> !HasNumber(pr.records, c, p)
    ensures JoinStep(acc, timeName, refTimes, raw, tol, p) == Ok(acc)
  {
    var pr := SourceOf(raw, p).value.prepared;
    var mask := ValueMask(pr, p);
    assert forall c :: 0 <= c < |mask| ==> !mask[c];
    PositionsOfEmptyMask(mask);
  }

  /** The names of one secondary's value columns. */
  function StepNames(raw: Table, p: Parsers): seq<string>
    requires WellFormed(raw)
  {
    match SourceOf(raw, p)
    case Err(_) => []
    case Ok(src) => Select(src.prepared.table.columns, src.valueCols)
  }

  /** The names of the value columns of every secondary, in join order. */
  function ValueNames(secs: seq<Table>, p: Parsers): seq<string>
    requires AllWellFormed(secs)
  {
    if |secs| == 0 then [] else ValueNames(secs[..|secs| - 1], p) + StepNames(secs[|secs| - 1], p)
  }

  lemma NamesAppend(a: seq<Column>, b: seq<Column>)
    ensures Names(a + b) == Names(a) + Names(b)
  {
  }

  /** The contributed columns carry exactly the value-column names. */
  lemma {:induction false} ContributedNames(refTimes: seq<int>, secs: seq<Table>, tol: int, p: Parsers)
    requires AllWellFormed(secs)
    ensures Names(Contributed(refTimes, secs, tol, p)) == ValueNames(secs, p)
  {
    if |secs| > 0 {
      var front := secs[..|secs| - 1];
      var last := secs[|secs| - 1];
      ContributedNames(refTimes, front, tol, p);
      NamesAppend(Contributed(refTimes, front, tol, p), StepColumns(refTimes, last, tol, p));
      assert Names(StepColumns(refTimes, last, tol, p)) == StepNames(last, p);
    }
  }

  /** The header `merge_align` would give if nothing clashed, before the time-like columns
      are dropped: the primary's names, then every value column's name. */
  function PlannedNames(timeName: string, base: seq<Column>, secs: seq<Table>, p: Parsers): seq<string>
    requires AllWellFormed(secs)
  {
    [timeName] + Names(base) + ValueNames(secs, p)
  }

  /** A name clash is exactly a repeated name once the new names are appended. */
  lemma ClashIsRepeat(acc: seq<Column>, timeName: string, added: seq<string>)
    requires Distinct([timeName] + Names(acc)) && Distinct(added)
    ensures Clash(added, timeName, Names(acc)) <==> !Distinct([timeName] + Names(acc) + added)
  {
    var x := [timeName] + Names(acc);
    if Clash(added, timeName, Names(acc)) && Distinct(x + added) {
      DistinctSplit(x, added);
      var j :| 0 <= j < |added| && (added[j] == timeName || added[j] in Names(acc));
    }
    if !Clash(added, timeName, Names(acc)) {
      forall j | 0 <= j < |added| ensures added[j] !in x {
      }
      DistinctConcat(x, added);
    }
  }

  /** One join step raises for a reason, and succeeds when there is none. */
  lemma JoinStepOutcome(acc: seq<Column>, timeName: string, refTimes: seq<int>, raw: Table, tol: int, p: Parsers)
    requires WellFormed(raw) && Distinct([timeName] + Names(acc))
    ensures var r := JoinStep(acc, timeName, refTimes, raw, tol, p); var vn := StepNames(raw, p);
      && (r.Err? ==> r.error != MissingColumn)
      && (r.Err? && r.error == NoColumns <==> |DropSequenceCols(raw).columns| == 0)
      && (r.Err? && r.error == NegativeTolerance ==> tol < 0 && vn != [])
      && (r.Err? && r.error == ColumnClash <==> |DropSequenceCols(raw).columns| > 0 && (tol >= 0 || vn == []) && !Distinct([timeName] + Names(acc) + vn))
  {
    if SourceOf(raw, p).Ok? {
      var src := SourceOf(raw, p).value;
      var added := AlignedColumns(src, refTimes, tol, p);
      assert Names(added) == StepNames(raw, p);
      AlignedNamesDistinct(src, refTimes, tol, p);
      ClashIsRepeat(acc, timeName, Names(added));
      if |src.valueCols| == 0 {
        assert StepNames(raw, p) == [];
        assert [timeName] + Names(acc) + [] == [timeName] + Names(acc);
      }
    }
  }

  /** Why a join loop over `secs` may raise `e`: a secondary without columns, a negative
      tolerance met by a secondary with value columns, or a repeated name. */
  predicate ErrorExplained(e: MergeError, base: seq<Column>, timeName: string, secs: seq<Table>, tol: int, p: Parsers)
    requires AllWellFormed(secs)
  {
    && e != MissingColumn
    && (e == NoColumns ==> exists s :: 0 <= s < |secs| && |DropSequenceCols(secs[s]).columns| == 0)
    && (e == NegativeTolerance ==> tol < 0 && ValueNames(secs, p) != [])
    && (e == ColumnClash ==> !Distinct(PlannedNames(timeName, base, secs, p)))
  }

  /** The value names and the planned header grow by the last secondary's value names. */
  lemma PlannedSnoc(base: seq<Column>, timeName: string, secs: seq<Table>, p: Parsers)
    requires AllWellFormed(secs) && |secs| > 0
    ensures ValueNames(secs, p) == ValueNames(secs[..|secs| - 1], p) + StepNames(secs[|secs| - 1], p)
    ensures PlannedNames(timeName, base, secs, p) ==
      PlannedNames(timeName, base, secs[..|secs| - 1], p) + StepNames(secs[|secs| - 1], p)
  {
  }

  /** A reason for an error of the loop over a prefix stays a reason once more secondaries follow. */
  lemma ExplainedSnoc(e: MergeError, base: seq<Column>, timeName: string, secs: seq<Table>, tol: int, p: Parsers)
    requires AllWellFormed(secs) && |secs| > 0
    requires ErrorExplained(e, base, timeName, secs[..|secs| - 1], tol, p)
    ensures ErrorExplained(e, base, timeName, secs, tol, p)
  {
    PlannedSnoc(base, timeName, secs, p);
    if e == NoColumns {
      EmptySecondarySnoc(secs);
    } else if e == ColumnClash {
      RepeatSnoc(PlannedNames(timeName, base, secs[..|secs| - 1], p), StepNames(secs[|secs| - 1], p));
    }
  }

  lemma EmptySecondarySnoc(secs: seq<Table>)
    requires AllWellFormed(secs) && |secs| > 0
    requires exists s :: 0 <= s < |secs| - 1 && |DropSequenceCols(secs[s]).columns| == 0
    ensures exists s :: 0 <= s < |secs| && |DropSequenceCols(secs[s]).columns| == 0
  {
  }

  lemma RepeatSnoc(a: seq<string>, b: seq<string>)
    requires !Distinct(a)
    ensures !Distinct(a + b)
  {
    if Distinct(a + b) {
      DistinctSplit(a, b);
    }
  }

  /** An error raised by the last step of the loop has a reason. */
  lemma LastStepExplained(acc: seq<Column>, base: seq<Column>, timeName: string, refTimes: seq<int>,
                          secs: seq<Table>, tol: int, p: Parsers)
    requires AllWellFormed(secs) && |secs| > 0
    requires JoinAll(base, timeName, refTimes, secs[..|secs| - 1], tol, p) == Ok(acc)
    requires JoinStep(acc, timeName, refTimes, secs[|secs| - 1], tol, p).Err?
    ensures ErrorExplained(JoinStep(acc, timeName, refTimes, secs[|secs| - 1], tol, p).error, base, timeName, secs, tol, p)
  {
    var front := secs[..|secs| - 1];
    var last := secs[|secs| - 1];
    var pf := PlannedNames(timeName, base, front, p);
    var vn := StepNames(last, p);
    PlannedSnoc(base, timeName, secs, p);
    JoinStepNoMissing(acc, timeName, refTimes, last, tol, p);
    if Distinct(pf + vn) {
      DistinctSplit(pf, vn);
      JoinAllPlanned(base, timeName, refTimes, front, tol, p);
      JoinStepOutcome(acc, timeName, refTimes, last, tol, p);
    }
    var e := JoinStep(acc, timeName, refTimes, last, tol, p).error;
    if e == NoColumns {
      assert |DropSequenceCols(secs[|secs| - 1]).columns| == 0;
    }
  }

  /** The join loop raises for a reason: a secondary without columns, a negative tolerance
      met by a secondary with value columns, or a repeated name. It never raises
      MissingColumn. */
  lemma {:induction false} JoinAllErrors(base: seq<Column>, timeName: string, refTimes: seq<int>,
                                         secs: seq<Table>, tol: int, p: Parsers)
    requires AllWellFormed(secs)
    requires JoinAll(base, timeName, refTimes, secs, tol, p).Err?
    ensures var e := JoinAll(base, timeName, refTimes, secs, tol, p).error;
      && e != MissingColumn
      && (e == NoColumns ==> exists s :: 0 <= s < |secs| && |DropSequenceCols(secs[s]).columns| == 0)
      && (e == NegativeTolerance ==> tol < 0 && ValueNames(secs, p) != [])
      && (e == ColumnClash ==> !Distinct(PlannedNames(timeName, base, secs, p)))
  {
    var front := secs[..|secs| - 1];
    var r0 := JoinAll(base, timeName, refTimes, front, tol, p);
    if r0.Err? {
      JoinAllErrors(base, timeName, refTimes, front, tol, p);
      ExplainedSnoc(r0.error, base, timeName, secs, tol, p);
    } else {
      LastStepExplained(r0.value, base, timeName, refTimes, secs, tol, p);
    }
    assert ErrorExplained(JoinAll(base, timeName, refTimes, secs, tol, p).error, base, timeName, secs, tol, p);
  }

  /** A step never raises MissingColumn, and raises NoColumns or NegativeTolerance only for
      their reasons, whatever the names. */
  lemma JoinStepNoMissing(acc: seq<Column>, timeName: string, refTimes: seq<int>, raw: Table, tol: int, p: Parsers)
    requires WellFormed(raw)
    ensures var r := JoinStep(acc, timeName, refTimes, raw, tol, p);
      && (r.Err? ==> r.error != MissingColumn)
      && (r.Err? && r.error == NoColumns ==> |DropSequenceCols(raw).columns| == 0)
      && (r.Err? && r.error == NegativeTolerance ==> tol < 0 && StepNames(raw, p) != [])
  {
    if SourceOf(raw, p).Ok? {
      var src := SourceOf(raw, p).value;
      assert |StepNames(raw, p)| == |src.valueCols|;
    }
  }

  /** After a successful prefix of the loop, the merged names are the planned ones. */
  lemma JoinAllPlanned(base: seq<Column>, timeName: string, refTimes: seq<int>, secs: seq<Table>, tol: int, p: Parsers)
    requires AllWellFormed(secs)
    requires Distinct(PlannedNames(timeName, base, secs, p))
    requires JoinAll(base, timeName, refTimes, secs, tol, p).Ok?
    ensures [timeName] + Names(JoinAll(base, timeName, refTimes, secs, tol, p).value) == PlannedNames(timeName, base, secs, p)
    ensures Distinct([timeName] + Names(JoinAll(base, timeName, refTimes, secs, tol, p).value))
  {
    var vn := ValueNames(secs, p);
    DistinctSplit([timeName] + Names(base), vn);
    JoinAllAppends(base, timeName, refTimes, secs, tol, p);
    var c := Contributed(refTimes, secs, tol, p);
    ContributedNames(refTimes, secs, tol, p);
    PlannedOfAppend(base, c, timeName, vn);
  }

  lemma PlannedOfAppend(base: seq<Column>, c: seq<Column>, timeName: string, vn: seq<string>)
    requires Names(c) == vn
    ensures [timeName] + Names(base + c) == [timeName] + Names(base) + vn
  {
    NamesAppend(base, c);
  }

  /** The contrapositive of `JoinAllErrors`: with every secondary having columns, the
      tolerance usable and no repeated name, the join loop succeeds. */
  lemma {:induction false} JoinAllSucceeds(base: seq<Column>, timeName: string, refTimes: seq<int>,
                                           secs: seq<Table>, tol: int, p: Parsers)
    requires AllWellFormed(secs)
    requires forall s :: 0 <= s < |secs| ==> |DropSequenceCols(secs[s]).columns| > 0
    requires tol >= 0 || ValueNames(secs, p) == []
    requires Distinct(PlannedNames(timeName, base, secs, p))
    ensures JoinAll(base, timeName, refTimes, secs, tol, p).Ok?
  {
    ReadySucceeds(base, timeName, refTimes, secs, tol, p);
  }

  /** The success condition of the join loop, as one predicate. */
  predicate JoinReady(base: seq<Column>, timeName: string, secs: seq<Table>, tol: int, p: Parsers)
    requires AllWellFormed(secs)
  {
    && (forall s :: 0 <= s < |secs| ==> |DropSequenceCols(secs[s]).columns| > 0)
    && (tol >= 0 || ValueNames(secs, p) == [])
    && Distinct(PlannedNames(timeName, base, secs, p))
  }

  /** The success condition splits into the prefix's and the last secondary's. */
  lemma ReadySnoc(base: seq<Column>, timeName: string, secs: seq<Table>, tol: int, p: Parsers)
    requires AllWellFormed(secs) && |secs| > 0 && JoinReady(base, timeName, secs, tol, p)
    ensures JoinReady(base, timeName, secs[..|secs| - 1], tol, p)
    ensures |DropSequenceCols(secs[|secs| - 1]).columns| > 0
    ensures tol >= 0 || StepNames(secs[|secs| - 1], p) == []
    ensures Distinct(PlannedNames(timeName, base, secs[..|secs| - 1], p) + StepNames(secs[|secs| - 1], p))
  {
    var front := secs[..|secs| - 1];
    var pf := PlannedNames(timeName, base, front, p);
    var vn := StepNames(secs[|secs| - 1], p);
    PlannedSnoc(base, timeName, secs, p);
    assert Distinct(pf + vn);
    DistinctSplit(pf, vn);
    FrontReady(secs, tol, p);
    forall s | 0 <= s < |front|
      ensures |DropSequenceCols(front[s]).columns| > 0
    {
      assert front[s] == secs[s];
    }
  }

  lemma {:induction false} ReadySucceeds(base: seq<Column>, timeName: string, refTimes: seq<int>,
                                         secs: seq<Table>, tol: int, p: Parsers)
    requires AllWellFormed(secs) && JoinReady(base, timeName, secs, tol, p)
    ensures JoinAll(base, timeName, refTimes, secs, tol, p).Ok?
  {
    if |secs| > 0 {
      var front := secs[..|secs| - 1];
      ReadySnoc(base, timeName, secs, tol, p);
      ReadySucceeds(base, timeName, refTimes, front, tol, p);
      var acc0 := JoinAll(base, timeName, refTimes, front, tol, p).value;
      JoinAllPlanned(base, timeName, refTimes, front, tol, p);
      LastStepSucceeds(acc0, timeName, refTimes, secs[|secs| - 1], tol, p, PlannedNames(timeName, base, front, p));
      JoinAllOkSnoc(acc0, base, timeName, refTimes, secs, tol, p);
    }
  }

  /** What the success condition asks of all secondaries it asks of every prefix and of the last one. */
  lemma FrontReady(secs: seq<Table>, tol: int, p: Parsers)
    requires AllWellFormed(secs) && |secs| > 0
    requires forall s :: 0 <= s < |secs| ==> |DropSequenceCols(secs[s]).columns| > 0
    requires tol >= 0 || ValueNames(secs, p) == []
    ensures forall s :: 0 <= s < |secs| - 1 ==> |DropSequenceCols(secs[s]).columns| > 0
    ensures tol >= 0 || ValueNames(secs[..|secs| - 1], p) == []
    ensures tol >= 0 || StepNames(secs[|secs| - 1], p) == []
  {
    PlannedSnoc([], "", secs, p);
  }

  /** After a successful prefix, the loop's result is the last step's. */
  lemma JoinAllOkSnoc(acc: seq<Column>, base: seq<Column>, timeName: string, refTimes: seq<int>,
                      secs: seq<Table>, tol: int, p: Parsers)
    requires AllWellFormed(secs) && |secs| > 0
    requires JoinAll(base, timeName, refTimes, secs[..|secs| - 1], tol, p) == Ok(acc)
    ensures JoinAll(base, timeName, refTimes, secs, tol, p) == JoinStep(acc, timeName, refTimes, secs[|secs| - 1], tol, p)
  {
  }

  lemma LastStepSucceeds(acc: seq<Column>, timeName: string, refTimes: seq<int>, raw: Table, tol: int, p: Parsers,
                         planned: seq<string>)
    requires WellFormed(raw) && |DropSequenceCols(raw).columns| > 0
    requires [timeName] + Names(acc) == planned && Distinct(planned)
    requires tol >= 0 || StepNames(raw, p) == []
    requires Distinct(planned + StepNames(raw, p))
    ensures JoinStep(acc, timeName, refTimes, raw, tol, p).Ok?
  {
    JoinStepOutcome(acc, timeName, refTimes, raw, tol, p);
    JoinStepNoMissing(acc, timeName, refTimes, raw, tol, p);
  }

  /** The primary's names in output order: its time column, then its other columns. */
  function PrimaryNames(primary: Table, p: Parsers): seq<string>
    requires WellFormed(primary) && |DropSequenceCols(primary).columns| > 0
  {
    var pr := PrepareTable(primary, p).value;
    [pr.table.columns[pr.timeCol]] + Select(pr.table.columns, NonTimePositions(pr))
  }

  /** Whether the primary has a non-time column whose name carries a time keyword. */
  predicate PrimaryHasTimeLikeColumn(primary: Table, p: Parsers)
    requires WellFormed(primary) && |DropSequenceCols(primary).columns| > 0
  {
    var t := DropSequenceCols(primary);
    exists i :: 0 <= i < |t.columns| && i != ChosenTimeColumn(t, p) && IsTimeLike(t.columns[i])
  }

  /** The primary's base columns, with the time name in front, are named as planned. */
  lemma BaseNames(pr: Prepared, recs: seq<Record>)
    requires PreparedOk(pr)
    requires forall i :: 0 <= i < |recs| ==> |recs[i].cells| == |pr.table.columns|
    ensures Names(PrimaryColumns(pr, recs)) == Select(pr.table.columns, NonTimePositions(pr))
  {
  }

  /** A base column is time-like exactly when some non-time primary column is. */
  lemma BaseTimeLike(pr: Prepared, recs: seq<Record>)
    requires PreparedOk(pr)
    requires forall i :: 0 <= i < |recs| ==> |recs[i].cells| == |pr.table.columns|
    ensures var base := PrimaryColumns(pr, recs);
      (exists j :: 0 <= j < |base| && IsTimeLike(base[j].name)) <==>
      (exists i :: 0 <= i < |pr.table.columns| && i != pr.timeCol && IsTimeLike(pr.table.columns[i]))
  {
    var base := PrimaryColumns(pr, recs);
    var idx := NonTimePositions(pr);
    if exists i :: 0 <= i < |pr.table.columns| && i != pr.timeCol && IsTimeLike(pr.table.columns[i]) {
      var i :| 0 <= i < |pr.table.columns| && i != pr.timeCol && IsTimeLike(pr.table.columns[i]);
      assert i in idx;
      var j :| 0 <= j < |idx| && idx[j] == i;
      assert base[j].name == pr.table.columns[i];
    }
    if exists j :: 0 <= j < |base| && IsTimeLike(base[j].name) {
      var j :| 0 <= j < |base| && IsTimeLike(base[j].name);
      assert idx[j] in idx;
    }
  }

  lemma PrimaryPieces(primary: Table, p: Parsers, cutoffText: string, parseCutoff: string -> CutoffParse)
    requires WellFormed(primary) && |DropSequenceCols(primary).columns| > 0
    ensures var pr := PrepareTable(primary, p).value;
      var base := PrimaryColumns(pr, ApplyCutoff(pr.records, cutoffText, parseCutoff));
      && [pr.table.columns[pr.timeCol]] + Names(base) == PrimaryNames(primary, p)
      && ((exists j :: 0 <= j < |base| && IsTimeLike(base[j].name)) <==> PrimaryHasTimeLikeColumn(primary, p))
  {
    var pr := PrepareTable(primary, p).value;
    var recs := ApplyCutoff(pr.records, cutoffText, parseCutoff);
    assert pr.timeCol == ChosenTimeColumn(DropSequenceCols(primary), p);
    BaseNames(pr, recs);
    BaseTimeLike(pr, recs);
  }

  /** `MergeSpec` once the primary has columns: the join loop's error, else the selection's. */
  lemma MergeSpecAfterPrimary(primary: Table, secs: seq<Table>, tol: int, cutoffText: string,
                              parseCutoff: string -> CutoffParse, p: Parsers)
    requires WellFormed(primary) && AllWellFormed(secs)
    requires |DropSequenceCols(primary).columns| > 0
    ensures var pr := PrepareTable(primary, p).value;
      var recs := ApplyCutoff(pr.records, cutoffText, parseCutoff);
      var base := PrimaryColumns(pr, recs);
      var joined := JoinAll(base, pr.table.columns[pr.timeCol], TimesOf(recs), secs, tol, p);
      var r := MergeSpec(primary, secs, tol, cutoffText, parseCutoff, p);
      && (joined.Err? ==> r == Err(joined.error))
      && (joined.Ok? && Finish(base, joined.value).Err? ==> r == Err(MissingColumn))
      && (joined.Ok? && Finish(base, joined.value).Ok? ==> r.Ok?)
  {
  }

  /** The join loop's errors in terms of the primary's planned names. */
  lemma JoinedErrorCauses(base: seq<Column>, timeName: string, refTimes: seq<int>, secs: seq<Table>,
                          tol: int, p: Parsers, primaryNames: seq<string>)
    requires AllWellFormed(secs)
    requires [timeName] + Names(base) == primaryNames
    requires JoinAll(base, timeName, refTimes, secs, tol, p).Err?
    ensures var e := JoinAll(base, timeName, refTimes, secs, tol, p).error;
      && e != MissingColumn
      && (e == NoColumns ==> exists s :: 0 <= s < |secs| && |DropSequenceCols(secs[s]).columns| == 0)
      && (e == NegativeTolerance ==> tol < 0 && ValueNames(secs, p) != [])
      && (e == ColumnClash ==> !Distinct(primaryNames + ValueNames(secs, p)))
  {
    JoinAllErrors(base, timeName, refTimes, secs, tol, p);
  }

  /** The errors raised once the primary has columns. */
  lemma MergeErrorsAfterPrimary(primary: Table, secs: seq<Table>, tol: int, cutoffText: string,
                                parseCutoff: string -> CutoffParse, p: Parsers)
    requires WellFormed(primary) && AllWellFormed(secs)
    requires |DropSequenceCols(primary).columns| > 0
    requires MergeSpec(primary, secs, tol, cutoffText, parseCutoff, p).Err?
    ensures var e := MergeSpec(primary, secs, tol, cutoffText, parseCutoff, p).error;
      && (e == NoColumns ==> exists s :: 0 <= s < |secs| && |DropSequenceCols(secs[s]).columns| == 0)
      && (e == NegativeTolerance ==> tol < 0 && ValueNames(secs, p) != [])
      && (e == ColumnClash ==> !Distinct(PrimaryNames(primary, p) + ValueNames(secs, p)))
      && (e == MissingColumn ==> PrimaryHasTimeLikeColumn(primary, p))
  {
    var pr := PrepareTable(primary, p).value;
    var recs := ApplyCutoff(pr.records, cutoffText, parseCutoff);
    var timeName := pr.table.columns[pr.timeCol];
    var base := PrimaryColumns(pr, recs);
    var joined := JoinAll(base, timeName, TimesOf(recs), secs, tol, p);
    MergeSpecAfterPrimary(primary, secs, tol, cutoffText, parseCutoff, p);
    PrimaryPieces(primary, p, cutoffText, parseCutoff);
    if joined.Err? {
      JoinedErrorCauses(base, timeName, TimesOf(recs), secs, tol, p, PrimaryNames(primary, p));
    }
  }

  /** `merge_align` raises only for a reason: a table without columns, a negative
      tolerance met by a secondary with value columns, a repeated name, or a primary
      non-time column with a time keyword in its name. */
  lemma MergeErrors(primary: Table, secs: seq<Table>, tol: int, cutoffText: string,
                    parseCutoff: string -> CutoffParse, p: Parsers)
    requires WellFormed(primary) && AllWellFormed(secs)
    requires MergeSpec(primary, secs, tol, cutoffText, parseCutoff, p).Err?
    ensures var e := MergeSpec(primary, secs, tol, cutoffText, parseCutoff, p).error;
      && (e == NoColumns ==>
            |DropSequenceCols(primary).columns| == 0 || exists s :: 0 <= s < |secs| && |DropSequenceCols(secs[s]).columns| == 0)
      && (e == NegativeTolerance ==> tol < 0 && ValueNames(secs, p) != [])
      && (e == ColumnClash ==>
            |DropSequenceCols(primary).columns| > 0 && !Distinct(PrimaryNames(primary, p) + ValueNames(secs, p)))
      && (e == MissingColumn ==> |DropSequenceCols(primary).columns| > 0 && PrimaryHasTimeLikeColumn(primary, p))
  {
    if |DropSequenceCols(primary).columns| > 0 {
      MergeErrorsAfterPrimary(primary, secs, tol, cutoffText, parseCutoff, p);
    } else {
      assert PrepareTable(primary, p).Err?;
    }
  }

  /** The contrapositive of `MergeErrors`: with none of those reasons `merge_align` returns
      a table. */
  lemma MergeSucceeds(primary: Table, secs: seq<Table>, tol: int, cutoffText: string,
                      parseCutoff: string -> CutoffParse, p: Parsers)
    requires WellFormed(primary) && AllWellFormed(secs)
    requires |DropSequenceCols(primary).columns| > 0
    requires forall s :: 0 <= s < |secs| ==> |DropSequenceCols(secs[s]).columns| > 0
    requires tol >= 0 || ValueNames(secs, p) == []
    requires Distinct(PrimaryNames(primary, p) + ValueNames(secs, p))
    requires !PrimaryHasTimeLikeColumn(primary, p)
    ensures MergeSpec(primary, secs, tol, cutoffText, parseCutoff, p).Ok?
  {
    var pr := PrepareTable(primary, p).value;
    var recs := ApplyCutoff(pr.records, cutoffText, parseCutoff);
    var timeName := pr.table.columns[pr.timeCol];
    var base := PrimaryColumns(pr, recs);
    PrimaryPieces(primary, p, cutoffText, parseCutoff);
    assert PlannedNames(timeName, base, secs, p) == PrimaryNames(primary, p) + ValueNames(secs, p);
    JoinAllSucceeds(base, timeName, TimesOf(recs), secs, tol, p);
  }
}

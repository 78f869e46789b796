/** Tables as `pd.read_csv` hands them to the alignment code: named columns over rows of
    optional text cells, with the two parsers the program borrows from pandas as
    parameters. Also `drop_sequence_cols` (app.py:62-64) and the row filters and sorts the
    merge applies to a table once its time column is known. */
module Tables {
  import opened Wrappers
  import opened Seqs
  import opened Text

  /** One CSV field: its text, or None for an empty field (NaN). */
  type Cell = Option<string>

  datatype Table = Table(columns: seq<string>, rows: seq<seq<Cell>>)

  /** What every DataFrame read from a CSV satisfies: each row has one cell per column and
      the header names are distinct (read_csv renames repeated headers). */
  predicate WellFormed(t: Table) {
    Distinct(t.columns) && forall r :: 0 <= r < |t.rows| ==> |t.rows[r]| == |t.columns|
  }

  /** `pd.to_datetime(..., errors="coerce")` and `pd.to_numeric(..., errors="coerce")` on one
      value: a timestamp in whole seconds, or a number, when the text parses. */
  datatype Parsers = Parsers(time: string -> Option<int>, number: string -> Option<real>)

  function ParseTime(p: Parsers, c: Cell): Option<int> {
    match c
    case None => None
    case Some(s) => p.time(s)
  }

  function ParseNumber(p: Parsers, c: Cell): Option<real> {
    match c
    case None => None
    case Some(s) => p.number(s)
  }

  /** Lower-cased substrings that mark a column as holding times (app.py:47, 129). */
  const TimeKeywords: seq<string> := ["time", "date", "timestamp", "datetime"]

  /** Lower-cased substrings that mark a sequence or index column (app.py:63). */
  const SequenceKeywords: seq<string> := ["sequence", "seq #", "seq#", "seq ", "index"]

  predicate IsTimeLike(name: string) {
    ContainsAny(Lower(name), TimeKeywords)
  }

  predicate IsSequenceLike(name: string) {
    ContainsAny(Lower(name), SequenceKeywords)
  }

  /** The columns at positions `idx`, with the matching cells of every row. */
  function SelectColumns(t: Table, idx: seq<nat>): (r: Table)
    requires WellFormed(t) && Increasing(idx)
    requires forall j :: 0 <= j < |idx| ==> idx[j] < |t.columns|
    ensures WellFormed(r) && |r.rows| == |t.rows| && |r.columns| == |idx|
  {
    SelectDistinct(t.columns, idx);
    Table(Select(t.columns, idx), seq(|t.rows|, j requires 0 <= j < |t.rows| => Select(t.rows[j], idx)))
  }

  function KeepMask(columns: seq<string>): seq<bool> {
    seq(|columns|, i requires 0 <= i < |columns| => !IsSequenceLike(columns[i]))
  }

  /** `drop_sequence_cols(df)`: the table without its sequence and index columns. */
  function DropSequenceCols(t: Table): (r: Table)
    requires WellFormed(t)
    ensures WellFormed(r) && |r.rows| == |t.rows|
  {
    SelectColumns(t, Positions(KeepMask(t.columns)))
  }

  /** `r` is `t` restricted to the columns at the ascending positions `keep`. */
  predicate Projection(t: Table, keep: seq<nat>, r: Table) {
    && Increasing(keep)
    && (forall j :: 0 <= j < |keep| ==> keep[j] < |t.columns|)
    && |r.columns| == |keep| && |r.rows| == |t.rows|
    && (forall j :: 0 <= j < |keep| ==> r.columns[j] == t.columns[keep[j]])
    && (forall row :: 0 <= row < |t.rows| ==> |r.rows[row]| == |keep| && |t.rows[row]| == |t.columns|)
    && (forall row, j :: 0 <= row < |t.rows| && 0 <= j < |keep| && |r.rows[row]| == |keep| && |t.rows[row]| == |t.columns| ==>
          r.rows[row][j] == t.rows[row][keep[j]])
  }

  /** The kept columns are exactly the columns whose lower-cased name holds no sequence
      keyword, in their original order, and every row keeps exactly their cells. */
  lemma DropSequenceColsSpec(t: Table)
    requires WellFormed(t)
    ensures exists keep: seq<nat> ::
      && Projection(t, keep, DropSequenceCols(t))
      && (forall i: nat :: i in keep <==> i < |t.columns| && !IsSequenceLike(t.columns[i]))
  {
    var keep := Positions(KeepMask(t.columns));
    assert Projection(t, keep, DropSequenceCols(t));
    assert forall i: nat :: i in keep <==> i < |t.columns| && KeepMask(t.columns)[i];
  }

  /** A name survives exactly when it is not sequence-like. */
  lemma DropSequenceColsNames(t: Table)
    requires WellFormed(t)
    ensures forall c :: c in DropSequenceCols(t).columns <==> c in t.columns && !IsSequenceLike(c)
  {
    var keep := Positions(KeepMask(t.columns));
    var r := DropSequenceCols(t);
    forall c ensures c in r.columns <==> c in t.columns && !IsSequenceLike(c) {
      if c in t.columns && !IsSequenceLike(c) {
        var i :| 0 <= i < |t.columns| && t.columns[i] == c;
        assert KeepMask(t.columns)[i];
        var j :| 0 <= j < |keep| && keep[j] == i;
        assert r.columns[j] == c;
      }
      if c in r.columns {
        var j :| 0 <= j < |r.columns| && r.columns[j] == c;
        assert keep[j] in keep;
        assert KeepMask(t.columns)[keep[j]];
      }
    }
  }

  /** Dropping sequence columns a second time drops nothing. */
  lemma DropSequenceColsIdempotent(t: Table)
    requires WellFormed(t)
    ensures DropSequenceCols(DropSequenceCols(t)) == DropSequenceCols(t)
  {
    var r := DropSequenceCols(t);
    DropSequenceColsNames(t);
    var mask := KeepMask(r.columns);
    assert forall i :: 0 <= i < |mask| ==> mask[i] by {
      forall i | 0 <= i < |mask| ensures mask[i] {
        assert r.columns[i] in r.columns;
      }
    }
    PositionsOfFullMask(mask);
    var keep := Positions(mask);
    var rr := SelectColumns(r, keep);
    assert rr.columns == r.columns;
    forall j | 0 <= j < |r.rows| ensures rr.rows[j] == r.rows[j] {
      SelectFullMask(r.rows[j], mask);
    }
  }

  /** A row whose time cell parsed, with the parsed time. */
  datatype Record = Record(time: int, cells: seq<Cell>)

  /** `df[k] = parsed; df = df[df[k].notna()]`: the rows whose cell `k` parses as a
      timestamp, in table order, each paired with its time. */
  function Stamped(rows: seq<seq<Cell>>, k: nat, p: Parsers): (r: seq<Record>)
    requires forall j :: 0 <= j < |rows| ==> k < |rows[j]|
    ensures forall x :: x in r ==> x.cells in rows && k < |x.cells| && ParseTime(p, x.cells[k]) == Some(x.time)
    ensures forall j :: 0 <= j < |rows| && ParseTime(p, rows[j][k]).Some? ==>
              Record(ParseTime(p, rows[j][k]).value, rows[j]) in r
  {
    if |rows| == 0 then []
    else
      var last := rows[|rows| - 1];
      var front := Stamped(rows[..|rows| - 1], k, p);
      assert forall j :: 0 <= j < |rows| - 1 ==> rows[..|rows| - 1][j] == rows[j];
      front + (match ParseTime(p, last[k]) case Some(tm) => [Record(tm, last)] case None => [])
  }

  /** `df[df[k] >= cutoff]`: the records at or after `cutoff`, in their order. */
  function AtOrAfter(rs: seq<Record>, cutoff: int): (r: seq<Record>)
    ensures forall x :: x in r <==> x in rs && x.time >= cutoff
    ensures forall x :: multiset(r)[x] == if x.time >= cutoff then multiset(rs)[x] else 0
  {
    if |rs| == 0 then []
    else
      assert rs == rs[..|rs| - 1] + [rs[|rs| - 1]];
      AtOrAfter(rs[..|rs| - 1], cutoff) + (if rs[|rs| - 1].time >= cutoff then [rs[|rs| - 1]] else [])
  }

  predicate SortedByTime(rs: seq<Record>) {
    forall i, j :: 0 <= i < j < |rs| ==> rs[i].time <= rs[j].time
  }

  /** Strictly ascending times: the shape of a reference clock. */
  predicate AscendingTimes(rs: seq<Record>) {
    forall i, j :: 0 <= i < j < |rs| ==> rs[i].time < rs[j].time
  }

  predicate DistinctTimes(rs: seq<Record>) {
    forall i, j :: 0 <= i < j < |rs| ==> rs[i].time != rs[j].time
  }

  function Insert(x: Record, rs: seq<Record>): (r: seq<Record>)
    requires SortedByTime(rs)
    ensures SortedByTime(r) && multiset(r) == multiset(rs) + multiset{x}
  {
    SortedHead(rs);
    if |rs| == 0 then [x]
    else if x.time <= rs[0].time then
      ConsSorted(x, rs, false);
      [x] + rs
    else
      assert rs == [rs[0]] + rs[1..];
      var tail := Insert(x, rs[1..]);
      MultisetBound(tail, rs[1..], x, rs[0].time);
      ConsSorted(rs[0], tail, false);
      [rs[0]] + tail
  }

  /** The rest of a sorted list is sorted, and no record of it is before the head. */
  lemma SortedHead(rs: seq<Record>)
    requires SortedByTime(rs)
    ensures |rs| > 0 ==> SortedByTime(rs[1..]) && forall y :: y in rs ==> rs[0].time <= y.time
  {
    if |rs| > 0 {
      forall y | y in rs ensures rs[0].time <= y.time {
        var k :| 0 <= k < |rs| && rs[k] == y;
        assert rs[0].time <= rs[k].time;
      }
    }
  }

  /** A bound on every record of a list and on `x` holds for every record of the list with
      `x` added. */
  lemma MultisetBound(tail: seq<Record>, rest: seq<Record>, x: Record, lo: int)
    requires multiset(tail) == multiset(rest) + multiset{x}
    requires lo <= x.time && forall y :: y in rest ==> lo <= y.time
    ensures forall y :: y in tail ==> lo <= y.time
  {
    forall y | y in tail ensures lo <= y.time {
      assert y in multiset(tail);
      if y != x {
        assert y in multiset(rest);
      }
    }
  }

  /** `sort_values(k)`: the records ordered by time, a permutation of the input. */
  function SortByTime(rs: seq<Record>): (r: seq<Record>)
    ensures SortedByTime(r) && multiset(r) == multiset(rs)
  {
    if |rs| == 0 then []
    else
      assert rs == [rs[0]] + rs[1..];
      Insert(rs[0], SortByTime(rs[1..]))
  }

  /** A record no later than every record of a sorted list can go in front. */
  lemma ConsSorted(a: Record, rs: seq<Record>, strict: bool)
    requires if strict then AscendingTimes(rs) else SortedByTime(rs)
    requires forall y :: y in rs ==> (if strict then a.time < y.time else a.time <= y.time)
    ensures if strict then AscendingTimes([a] + rs) else SortedByTime([a] + rs)
  {
    var r := [a] + rs;
    forall i, j | 0 <= i < j < |r|
      ensures if strict then r[i].time < r[j].time else r[i].time <= r[j].time
    {
      assert r[j] == rs[j - 1];
      if i == 0 {
        assert rs[j - 1] in rs;
      } else {
        assert r[i] == rs[i - 1];
      }
    }
  }

  /** Every record of a strictly ascending list is at or after its head. */
  lemma HeadIsFirst(rs: seq<Record>)
    requires |rs| > 0 && AscendingTimes(rs)
    ensures AscendingTimes(rs[1..])
    ensures forall y :: y in rs ==> rs[0].time <= y.time
  {
    forall y | y in rs ensures rs[0].time <= y.time {
      var k :| 0 <= k < |rs| && rs[k] == y;
      if k > 0 {
        assert rs[0].time < rs[k].time;
      }
    }
    var rest := rs[1..];
    forall i, j | 0 <= i < j < |rest| ensures rest[i].time < rest[j].time {
      assert rest[i] == rs[i + 1] && rest[j] == rs[j + 1];
    }
  }

  lemma {:induction false} InsertAscending(x: Record, rs: seq<Record>)
    requires AscendingTimes(rs)
    requires forall y :: y in rs ==> y.time != x.time
    ensures AscendingTimes(Insert(x, rs))
  {
    if |rs| == 0 {
      assert Insert(x, rs) == [x];
    } else {
      HeadIsFirst(rs);
      if x.time <= rs[0].time {
        assert rs[0] in rs;
        assert Insert(x, rs) == [x] + rs;
        ConsSorted(x, rs, true);
      } else {
        var rest := rs[1..];
        assert forall y :: y in rest ==> y in rs;
        InsertAscending(x, rest);
        var tail := Insert(x, rest);
        forall y | y in tail ensures rs[0].time < y.time {
          assert y in multiset(tail);
          if y != x {
            assert y in multiset(rest);
            var k :| 0 <= k < |rest| && rest[k] == y;
            assert rs[k + 1] == y;
          }
        }
        assert Insert(x, rs) == [rs[0]] + tail;
        ConsSorted(rs[0], tail, true);
      }
    }
  }

  /** With no repeated time, sorting gives strictly ascending times. */
  lemma {:induction false} SortAscending(rs: seq<Record>)
    requires DistinctTimes(rs)
    ensures AscendingTimes(SortByTime(rs))
  {
    if |rs| > 0 {
      var rest := rs[1..];
      assert DistinctTimes(rest) by {
        forall i, j | 0 <= i < j < |rest| ensures rest[i].time != rest[j].time {
          assert rest[i] == rs[i + 1] && rest[j] == rs[j + 1];
        }
      }
      SortAscending(rest);
      var tail := SortByTime(rest);
      forall y | y in tail ensures y.time != rs[0].time {
        assert y in multiset(tail);
        assert y in multiset(rest);
        var k :| 0 <= k < |rest| && rest[k] == y;
        assert rs[k + 1] == y;
      }
      assert SortByTime(rs) == Insert(rs[0], tail);
      InsertAscending(rs[0], tail);
    }
  }

  /** The records kept by the cutoff filter are records of the input. */
  lemma AtOrAfterFrom(rs: seq<Record>, cutoff: int)
    ensures forall y :: y in AtOrAfter(rs, cutoff) ==> y in rs
  {
  }

  /** A sorted list without its last record is sorted and no later than that record. */
  lemma SortedFront(rs: seq<Record>, strict: bool)
    requires |rs| > 0
    requires if strict then AscendingTimes(rs) else SortedByTime(rs)
    ensures var front := rs[..|rs| - 1];
      && (if strict then AscendingTimes(front) else SortedByTime(front))
      && forall y :: y in front ==> (if strict then y.time < rs[|rs| - 1].time else y.time <= rs[|rs| - 1].time)
  {
    var front := rs[..|rs| - 1];
    forall y | y in front
      ensures if strict then y.time < rs[|rs| - 1].time else y.time <= rs[|rs| - 1].time
    {
      var k :| 0 <= k < |front| && front[k] == y;
      assert rs[k] == y;
    }
  }

  /** A record no earlier than every record of a sorted list can go at its end. */
  lemma SnocSorted(f: seq<Record>, last: Record, strict: bool)
    requires if strict then AscendingTimes(f) else SortedByTime(f)
    requires forall y :: y in f ==> (if strict then y.time < last.time else y.time <= last.time)
    ensures if strict then AscendingTimes(f + [last]) else SortedByTime(f + [last])
  {
    var r := f + [last];
    forall i, j | 0 <= i < j < |r|
      ensures if strict then r[i].time < r[j].time else r[i].time <= r[j].time
    {
      assert r[i] == f[i];
      if j == |f| {
        assert f[i] in f;
      } else {
        assert r[j] == f[j];
      }
    }
  }

  /** Filtering a sorted sequence keeps it sorted, and strictly so if it was strictly
      sorted. */
  lemma {:induction false} AtOrAfterKeeps(rs: seq<Record>, cutoff: int, strict: bool)
    requires if strict then AscendingTimes(rs) else SortedByTime(rs)
    ensures if strict then AscendingTimes(AtOrAfter(rs, cutoff)) else SortedByTime(AtOrAfter(rs, cutoff))
  {
    if |rs| > 0 {
      var front := rs[..|rs| - 1];
      var last := rs[|rs| - 1];
      SortedFront(rs, strict);
      AtOrAfterKeeps(front, cutoff, strict);
      var f := AtOrAfter(front, cutoff);
      AtOrAfterFrom(front, cutoff);
      if last.time >= cutoff {
        assert AtOrAfter(rs, cutoff) == f + [last];
        SnocSorted(f, last, strict);
      } else {
        assert AtOrAfter(rs, cutoff) == f + [];
      }
    }
  }

  /** Filtering a sorted sequence keeps it sorted, strictly so if it was strictly sorted. */
  lemma AtOrAfterKeepsOrder(rs: seq<Record>, cutoff: int)
    ensures SortedByTime(rs) ==> SortedByTime(AtOrAfter(rs, cutoff))
    ensures AscendingTimes(rs) ==> AscendingTimes(AtOrAfter(rs, cutoff))
  {
    if SortedByTime(rs) {
      AtOrAfterKeeps(rs, cutoff, false);
    }
    if AscendingTimes(rs) {
      AtOrAfterKeeps(rs, cutoff, true);
    }
  }
}

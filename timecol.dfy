/** `detect_time_col` (app.py:46-60): scan the keyword-named columns, then the others, and
    take the first whose cells parse as timestamps at a rate of at least 0.8; fall back to
    the first column. */
module TimeColumn {
  import opened Wrappers
  import opened Seqs
  import opened Tables

  function KeywordMask(columns: seq<string>): seq<bool> {
    seq(|columns|, i requires 0 <= i < |columns| => IsTimeLike(columns[i]))
  }

  function OtherMask(columns: seq<string>): seq<bool> {
    seq(|columns|, i requires 0 <= i < |columns| => !IsTimeLike(columns[i]))
  }

  /** `candidates + [c for c in df.columns if c not in candidates]`, as column positions. */
  function ScanOrder(columns: seq<string>): (r: seq<nat>)
    ensures forall q :: 0 <= q < |r| ==> r[q] < |columns|
  {
    Positions(KeywordMask(columns)) + Positions(OtherMask(columns))
  }

  /** The scan visits every column exactly once, all keyword-named columns before any
      other, and each of the two groups in column order. */
  lemma ScanOrderSpec(columns: seq<string>)
    ensures var order := ScanOrder(columns);
      && |order| == |columns| && Distinct(order)
      && (forall i :: 0 <= i < |columns| ==> i in order)
      && (forall q1, q2 :: 0 <= q1 < q2 < |order| && IsTimeLike(columns[order[q2]]) ==> IsTimeLike(columns[order[q1]]))
      && (forall q1, q2 :: 0 <= q1 < q2 < |order| && IsTimeLike(columns[order[q1]]) == IsTimeLike(columns[order[q2]]) ==>
            order[q1] < order[q2])
  {
    var km := KeywordMask(columns);
    var order := ScanOrder(columns);
    ScanOrderCovers(columns);
    var n := ScanOrderGroups(columns);
    forall q1, q2 | 0 <= q1 < q2 < |order| && km[order[q2]] ensures km[order[q1]] {
    }
    forall q1, q2 | 0 <= q1 < q2 < |order| && km[order[q1]] == km[order[q2]] ensures order[q1] < order[q2] {
    }
    forall q1, q2 | 0 <= q1 < q2 < |order| ensures order[q1] != order[q2] {
    }
  }

  /** The scan lists every column, and as many positions as there are columns. */
  lemma ScanOrderCovers(columns: seq<string>)
    ensures |ScanOrder(columns)| == |columns|
    ensures forall i :: 0 <= i < |columns| ==> i in ScanOrder(columns)
  {
    var km := KeywordMask(columns);
    var om := OtherMask(columns);
    PositionsSplit(km, om);
    forall i | 0 <= i < |columns| ensures i in ScanOrder(columns) {
      if km[i] {
        assert i in Positions(km);
      } else {
        assert i in Positions(om);
      }
    }
  }

  /** The scan is the ascending keyword-named positions, then the ascending others. */
  lemma ScanOrderGroups(columns: seq<string>) returns (n: nat)
    ensures n <= |ScanOrder(columns)|
    ensures forall q :: 0 <= q < n ==> KeywordMask(columns)[ScanOrder(columns)[q]]
    ensures forall q :: n <= q < |ScanOrder(columns)| ==> !KeywordMask(columns)[ScanOrder(columns)[q]]
    ensures forall q1, q2 :: 0 <= q1 < q2 < n ==> ScanOrder(columns)[q1] < ScanOrder(columns)[q2]
    ensures forall q1, q2 :: n <= q1 < q2 < |ScanOrder(columns)| ==> ScanOrder(columns)[q1] < ScanOrder(columns)[q2]
  {
    var km := KeywordMask(columns);
    var a := Positions(km);
    var b := Positions(OtherMask(columns));
    var order := a + b;
    n := |a|;
    forall q | 0 <= q < n ensures km[order[q]] {
      assert a[q] in a;
    }
    forall q | n <= q < |order| ensures !km[order[q]] {
      assert b[q - n] in b;
    }
    forall q1, q2 | n <= q1 < q2 < |order| ensures order[q1] < order[q2] {
      assert order[q1] == b[q1 - n] && order[q2] == b[q2 - n];
    }
  }

  /** How many rows have a cell in column `k` that parses as a timestamp. */
  function ParsedCount(rows: seq<seq<Cell>>, k: nat, p: Parsers): (n: nat)
    requires forall j :: 0 <= j < |rows| ==> k < |rows[j]|
    ensures n <= |rows|
  {
    if |rows| == 0 then 0
    else ParsedCount(rows[..|rows| - 1], k, p) + (if ParseTime(p, rows[|rows| - 1][k]).Some? then 1 else 0)
  }

  /** `ratio >= 0.8` for the mean of the parsed-or-not flags; an empty column's mean is NaN,
      which clears nothing. */
  predicate Clears(t: Table, p: Parsers, k: nat)
    requires WellFormed(t) && k < |t.columns|
  {
    |t.rows| > 0 && 5 * ParsedCount(t.rows, k, p) >= 4 * |t.rows|
  }

  /** The first column of `order` that clears the threshold. */
  function FirstClearing(t: Table, p: Parsers, order: seq<nat>): (r: Option<nat>)
    requires WellFormed(t)
    requires forall q :: 0 <= q < |order| ==> order[q] < |t.columns|
    ensures r.Some? ==> r.value in order && Clears(t, p, r.value)
    ensures r.None? ==> forall q :: 0 <= q < |order| ==> !Clears(t, p, order[q])
  {
    if |order| == 0 then None
    else if Clears(t, p, order[0]) then Some(order[0])
    else FirstClearing(t, p, order[1..])
  }

  /** The column `detect_time_col` returns for a table with at least one column. */
  function ChosenTimeColumn(t: Table, p: Parsers): (k: nat)
    requires WellFormed(t) && |t.columns| > 0
    ensures k < |t.columns|
  {
    match FirstClearing(t, p, ScanOrder(t.columns))
    case Some(k) => k
    case None => 0
  }

  /** When some column clears the threshold the chosen one is the first in scan order to
      do so; otherwise it is the first column. */
  lemma {:induction false} ChosenTimeColumnSpec(t: Table, p: Parsers)
    requires WellFormed(t) && |t.columns| > 0
    ensures var order := ScanOrder(t.columns); var k := ChosenTimeColumn(t, p);
      && ((exists q :: 0 <= q < |order| && Clears(t, p, order[q])) ==>
            exists q :: 0 <= q < |order| && order[q] == k && Clears(t, p, k) &&
              forall q' :: 0 <= q' < q ==> !Clears(t, p, order[q']))
      && ((forall i :: 0 <= i < |t.columns| ==> !Clears(t, p, i)) ==> k == 0)
  {
    var order := ScanOrder(t.columns);
    FirstClearingIsFirst(t, p, order);
  }

  lemma {:induction false} FirstClearingIsFirst(t: Table, p: Parsers, order: seq<nat>)
    requires WellFormed(t)
    requires forall q :: 0 <= q < |order| ==> order[q] < |t.columns|
    ensures var r := FirstClearing(t, p, order);
      r.Some? ==> exists q :: 0 <= q < |order| && order[q] == r.value && forall q' :: 0 <= q' < q ==> !Clears(t, p, order[q'])
  {
    if |order| > 0 && !Clears(t, p, order[0]) {
      FirstClearingIsFirst(t, p, order[1..]);
      var r := FirstClearing(t, p, order[1..]);
      if r.Some? {
        var q :| 0 <= q < |order[1..]| && order[1..][q] == r.value && forall q' :: 0 <= q' < q ==> !Clears(t, p, order[1..][q']);
        assert order[q + 1] == r.value;
        assert forall q' :: 0 <= q' < q + 1 ==> !Clears(t, p, order[q']) by {
          forall q' | 0 <= q' < q + 1 ensures !Clears(t, p, order[q']) {
            if q' > 0 { assert order[q'] == order[1..][q' - 1]; }
          }
        }
      }
    } else if |order| > 0 {
      assert order[0] == FirstClearing(t, p, order).value;
    }
  }

  /** One step of the scan from position `i` of the order. */
  lemma FirstClearingFrom(t: Table, p: Parsers, order: seq<nat>, i: nat)
    requires WellFormed(t) && i < |order|
    requires forall q :: 0 <= q < |order| ==> order[q] < |t.columns|
    ensures FirstClearing(t, p, order[i..]) ==
      if Clears(t, p, order[i]) then Some(order[i]) else FirstClearing(t, p, order[i + 1..])
  {
    assert order[i..][1..] == order[i + 1..];
  }

  /** The loop of app.py:54-57 with its early return: the first column of `order` whose
      ratio reaches 0.8. */
  method ScanForClearing(t: Table, p: Parsers, order: seq<nat>) returns (r: Option<nat>)
    requires WellFormed(t)
    requires forall q :: 0 <= q < |order| ==> order[q] < |t.columns|
    ensures r == FirstClearing(t, p, order)
  {
    var i := 0;
    assert order[0..] == order;
    while i < |order|
      invariant 0 <= i <= |order|
      invariant FirstClearing(t, p, order) == FirstClearing(t, p, order[i..])
    {
      FirstClearingFrom(t, p, order, i);
      if |t.rows| > 0 && 5 * ParsedCount(t.rows, order[i], p) >= 4 * |t.rows| {
        return Some(order[i]);
      }
      i := i + 1;
    }
    return None;
  }

  /** `detect_time_col(df)`: the position of the chosen column, or None when the table has
      no columns, where `df.columns[0]` raises. */
  method DetectTimeCol(t: Table, p: Parsers) returns (k: Option<nat>)
    requires WellFormed(t)
    ensures k == if |t.columns| == 0 then None else Some(ChosenTimeColumn(t, p))
  {
    var found := ScanForClearing(t, p, ScanOrder(t.columns));
    if found.Some? {
      return found;
    }
    if |t.columns| == 0 {
      return None;
    }
    return Some(0);
  }
}

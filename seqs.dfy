/** Sequence helpers shared by the table code: masks, positions and selection. */
module Seqs {

  /** No element occurs twice. */
  predicate Distinct<T(==)>(s: seq<T>) {
    forall i, j :: 0 <= i < j < |s| ==> s[i] != s[j]
  }

  /** Strictly ascending positions. */
  predicate Increasing(s: seq<nat>) {
    forall i, j :: 0 <= i < j < |s| ==> s[i] < s[j]
  }

  /** The positions at which `mask` holds, in ascending order: the index list behind every
      list comprehension `[c for c in cols if cond(c)]` of the program. */
  function Positions(mask: seq<bool>): (r: seq<nat>)
    ensures Increasing(r)
    ensures forall j :: 0 <= j < |r| ==> r[j] < |mask|
    ensures forall i: nat :: i in r <==> i < |mask| && mask[i]
  {
    if |mask| == 0 then []
    else Positions(mask[..|mask| - 1]) + (if mask[|mask| - 1] then [|mask| - 1] else [])
  }

  /** The elements of `s` at the positions `idx`, in the order of `idx`. */
  function Select<T>(s: seq<T>, idx: seq<nat>): (r: seq<T>)
    requires forall j :: 0 <= j < |idx| ==> idx[j] < |s|
    ensures |r| == |idx|
    ensures forall j :: 0 <= j < |idx| ==> r[j] == s[idx[j]]
  {
    seq(|idx|, j requires 0 <= j < |idx| => s[idx[j]])
  }

  /** A mask that holds everywhere selects every position, in order. */
  lemma {:induction false} PositionsOfFullMask(mask: seq<bool>)
    requires forall i :: 0 <= i < |mask| ==> mask[i]
    ensures |Positions(mask)| == |mask|
    ensures forall j :: 0 <= j < |mask| ==> Positions(mask)[j] == j
  {
    if |mask| > 0 {
      PositionsOfFullMask(mask[..|mask| - 1]);
    }
  }

  /** Selecting every position in order gives the sequence back. */
  lemma SelectFullMask<T>(s: seq<T>, mask: seq<bool>)
    requires |mask| == |s|
    requires forall i :: 0 <= i < |mask| ==> mask[i]
    ensures Select(s, Positions(mask)) == s
  {
    PositionsOfFullMask(mask);
  }

  /** Selecting ascending positions keeps distinct elements distinct. */
  lemma SelectDistinct<T>(s: seq<T>, idx: seq<nat>)
    requires Distinct(s) && Increasing(idx)
    requires forall j :: 0 <= j < |idx| ==> idx[j] < |s|
    ensures Distinct(Select(s, idx))
  {
  }

  /** A mask and its negation split the positions: together they count every position once. */
  lemma {:induction false} PositionsSplit(m1: seq<bool>, m2: seq<bool>)
    requires |m1| == |m2|
    requires forall i :: 0 <= i < |m1| ==> m2[i] == !m1[i]
    ensures |Positions(m1)| + |Positions(m2)| == |m1|
  {
    if |m1| > 0 {
      PositionsSplit(m1[..|m1| - 1], m2[..|m2| - 1]);
    }
  }

  /** Two duplicate-free sequences with no common element concatenate to one. */
  lemma DistinctConcat<T>(a: seq<T>, b: seq<T>)
    requires Distinct(a) && Distinct(b)
    requires forall j :: 0 <= j < |b| ==> b[j] !in a
    ensures Distinct(a + b)
  {
    forall i, j | 0 <= i < j < |a + b| ensures (a + b)[i] != (a + b)[j] {
      if i < |a| && j >= |a| {
        assert (a + b)[j] == b[j - |a|];
      }
    }
  }

  /** The two halves of a duplicate-free concatenation are duplicate-free and disjoint. */
  lemma DistinctSplit<T>(a: seq<T>, b: seq<T>)
    requires Distinct(a + b)
    ensures Distinct(a) && Distinct(b)
    ensures forall j :: 0 <= j < |b| ==> b[j] !in a
  {
    forall i, j | 0 <= i < j < |a| ensures a[i] != a[j] {
      assert (a + b)[i] == a[i] && (a + b)[j] == a[j];
    }
    forall i, j | 0 <= i < j < |b| ensures b[i] != b[j] {
      assert (a + b)[|a| + i] == b[i] && (a + b)[|a| + j] == b[j];
    }
    forall j | 0 <= j < |b| ensures b[j] !in a {
      forall i | 0 <= i < |a| ensures a[i] != b[j] {
        assert (a + b)[i] == a[i] && (a + b)[|a| + j] == b[j];
      }
    }
  }

  /** A mask that holds nowhere selects nothing. */
  lemma {:induction false} PositionsOfEmptyMask(mask: seq<bool>)
    requires forall i :: 0 <= i < |mask| ==> !mask[i]
    ensures Positions(mask) == []
  {
    if |mask| > 0 {
      PositionsOfEmptyMask(mask[..|mask| - 1]);
    }
  }
}

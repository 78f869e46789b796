/** The "nearest" as-of lookup that `pd.merge_asof(direction="nearest", tolerance=tol)`
    performs for each reference time (app.py:115-122): the closest sample at or before it
    and the closest at or after it, each kept only within the tolerance, the earlier one
    winning when both are equally far. */
module Asof {
  import opened Wrappers

  predicate Sorted(ts: seq<int>) {
    forall i, j :: 0 <= i < j < |ts| ==> ts[i] <= ts[j]
  }

  function Dist(a: int, b: int): nat {
    if a <= b then b - a else a - b
  }

  /** The last sample at or before `t`: the backward search. */
  function LastAtOrBefore(ts: seq<int>, t: int): (r: Option<nat>)
    ensures r.None? <==> forall i :: 0 <= i < |ts| ==> ts[i] > t
    ensures r.Some? ==> r.value < |ts| && ts[r.value] <= t && forall i :: r.value < i < |ts| ==> ts[i] > t
  {
    if |ts| == 0 then None
    else if ts[|ts| - 1] <= t then Some(|ts| - 1)
    else LastAtOrBefore(ts[..|ts| - 1], t)
  }

  /** The first sample at or after `t`: the forward search. */
  function FirstAtOrAfter(ts: seq<int>, t: int): (r: Option<nat>)
    ensures r.None? <==> forall i :: 0 <= i < |ts| ==> ts[i] < t
    ensures r.Some? ==> r.value < |ts| && ts[r.value] >= t && forall i :: 0 <= i < r.value ==> ts[i] < t
  {
    if |ts| == 0 then None
    else if ts[0] >= t then Some(0)
    else
      var r := FirstAtOrAfter(ts[1..], t);
      if r.Some? then Some(r.value + 1) else None
  }

  function Backward(ts: seq<int>, t: int, tol: int): (r: Option<nat>)
    ensures r.Some? ==> r.value < |ts|
  {
    match LastAtOrBefore(ts, t)
    case None => None
    case Some(i) => if t - ts[i] <= tol then Some(i) else None
  }

  function Forward(ts: seq<int>, t: int, tol: int): (r: Option<nat>)
    ensures r.Some? ==> r.value < |ts|
  {
    match FirstAtOrAfter(ts, t)
    case None => None
    case Some(i) => if ts[i] - t <= tol then Some(i) else None
  }

  /** The sample matched to reference time `t`, or None when none lies within `tol`. */
  function Nearest(ts: seq<int>, t: int, tol: int): (r: Option<nat>)
    ensures r.Some? ==> r.value < |ts|
  {
    match (Backward(ts, t, tol), Forward(ts, t, tol))
    case (Some(i), Some(j)) => if t - ts[i] <= ts[j] - t then Some(i) else Some(j)
    case (Some(i), None) => Some(i)
    case (None, Some(j)) => Some(j)
    case (None, None) => None
  }

  /** In sorted samples every sample is at least as far from `t` as the backward or the
      forward candidate. */
  lemma CandidatesAreClosest(ts: seq<int>, t: int, i: nat)
    requires Sorted(ts) && i < |ts|
    ensures var b := LastAtOrBefore(ts, t); var f := FirstAtOrAfter(ts, t);
      || (b.Some? && Dist(ts[i], t) >= t - ts[b.value])
      || (f.Some? && Dist(ts[i], t) >= ts[f.value] - t)
  {
    var x := ts[i];
    if x <= t {
      var b := LastAtOrBefore(ts, t);
      assert b.None? ==> x > t;
      var k := b.value;
      assert k < i ==> x > t;
      assert x <= ts[k];
    } else {
      var f := FirstAtOrAfter(ts, t);
      assert f.None? ==> x < t;
      var k := f.value;
      assert i < k ==> x < t;
      assert ts[k] <= x;
    }
  }

  /** The matched sample lies within the tolerance and no sample is closer to `t`; when
      nothing is matched, every sample is further than the tolerance. */
  lemma NearestIsClosest(ts: seq<int>, t: int, tol: int)
    requires Sorted(ts)
    ensures var r := Nearest(ts, t, tol);
      && (r.Some? ==> Dist(ts[r.value], t) <= tol && forall i :: 0 <= i < |ts| ==> Dist(ts[r.value], t) <= Dist(ts[i], t))
      && (r.None? ==> forall i :: 0 <= i < |ts| ==> Dist(ts[i], t) > tol)
  {
    var r := Nearest(ts, t, tol);
    var b := LastAtOrBefore(ts, t);
    var f := FirstAtOrAfter(ts, t);
    forall i | 0 <= i < |ts|
      ensures r.Some? ==> Dist(ts[r.value], t) <= Dist(ts[i], t)
      ensures r.None? ==> Dist(ts[i], t) > tol
    {
      CandidatesAreClosest(ts, t, i);
    }
  }

  /** With tolerance 0 only a sample at exactly `t` matches. */
  lemma NearestZeroTolerance(ts: seq<int>, t: int)
    requires Sorted(ts)
    ensures var r := Nearest(ts, t, 0);
      && (r.Some? ==> ts[r.value] == t)
      && (r.None? <==> forall i :: 0 <= i < |ts| ==> ts[i] != t)
  {
  }

  /** Raising the tolerance never loses a match and never changes which sample matched. */
  lemma NearestToleranceMonotone(ts: seq<int>, t: int, tol1: int, tol2: int)
    requires tol1 <= tol2 && Nearest(ts, t, tol1).Some?
    ensures Nearest(ts, t, tol2) == Nearest(ts, t, tol1)
  {
  }
}

/**
  Counting distinct things.
 */
module FiniteSets {
  /** The integers from `lo` up to `hi`. */
  function Interval(lo: int, hi: int): (r: set<int>)
    requires lo <= hi
    ensures forall n :: n in r <==> lo <= n < hi
    ensures |r| == hi - lo
    decreases hi - lo
  {
    if lo == hi then {} else {lo} + Interval(lo + 1, hi)
  }

  /** Distinct things in a set are no more than the set has. */
  lemma {:induction false} DistinctWithin<T>(items: seq<T>, room: set<T>)
    requires forall i :: 0 <= i < |items| ==> items[i] in room
    requires forall i, j :: 0 <= i < j < |items| ==> items[i] != items[j]
    ensures |items| <= |room|
    decreases |items|
  {
    if items != [] {
      var n := |items| - 1;
      DistinctWithin(items[..n], room - {items[n]});
    }
  }

  /** If they are all of it, they are as many. */
  lemma {:induction false} DistinctAll<T>(items: seq<T>, all: set<T>)
    requires forall x :: x in all <==> x in items
    requires forall i, j :: 0 <= i < j < |items| ==> items[i] != items[j]
    ensures |items| == |all|
    decreases |items|
  {
    if items == [] {
      assert all == {};
    } else {
      var n := |items| - 1;
      var fewer := all - {items[n]};
      assert items == items[..n] + [items[n]];
      DistinctAll(items[..n], fewer);
      assert all == fewer + {items[n]};
    }
  }

  lemma SubsetSize(a: set<int>, b: set<int>)
    requires a <= b
    ensures |a| <= |b|
  {
    assert a + (b - a) == b;
  }
}

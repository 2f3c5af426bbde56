/** `binary_search`: a lower-bound search over ascending timestamps that
    answers -1 instead of the end of the range. */
module Bisect {
  import opened Timestamps

  /** Ascending order, repeats allowed. */
  predicate SortedTimes(a: seq<DateTime>) {
    forall i, j :: 0 <= i < j < |a| ==> !Before(a[j], a[i])
  }

  /** Reference: how many of the timestamps come strictly before `x`. */
  function CountBefore(a: seq<DateTime>, x: DateTime): (n: nat)
    ensures n <= |a|
  {
    if a == [] then 0 else (if Before(a[0], x) then 1 else 0) + CountBefore(a[1..], x)
  }

  /** In a sequence that is "before x" up to `k` and not after, `k` is the
      number of elements before `x`. */
  lemma {:induction false} CountBeforeAtSplit(a: seq<DateTime>, x: DateTime, k: nat)
    requires k <= |a|
    requires forall i :: 0 <= i < k ==> Before(a[i], x)
    requires forall i :: k <= i < |a| ==> !Before(a[i], x)
    ensures CountBefore(a, x) == k
  {
    if a != [] {
      CountBeforeAtSplit(a[1..], x, if k == 0 then 0 else k - 1);
    }
  }

  /** `bisect_left(a, x, lo, hi)`: the bisection loop of Python's `bisect`
      module, written as tail recursion on the range [lo, hi). */
  function BisectLeft(a: seq<DateTime>, x: DateTime, lo: nat, hi: nat): (pos: nat)
    requires lo <= hi <= |a|
    ensures lo <= pos <= hi
    ensures SortedTimes(a) ==> forall i :: lo <= i < pos ==> Before(a[i], x)
    ensures SortedTimes(a) ==> forall i :: pos <= i < hi ==> !Before(a[i], x)
    decreases hi - lo
  {
    if lo < hi then
      var mid := (lo + hi) / 2;
      if Before(a[mid], x) then
        BisectLeft(a, x, mid + 1, hi)
      else
        BisectLeft(a, x, lo, mid)
    else
      lo
  }

  /** On ascending input, bisection lands `lo` plus the number of elements of
      [lo, hi) that come before `x`. */
  lemma {:induction false} BisectLeftCountsBefore(a: seq<DateTime>, x: DateTime, lo: nat, hi: nat)
    requires lo <= hi <= |a|
    ensures SortedTimes(a) ==> BisectLeft(a, x, lo, hi) == lo + CountBefore(a[lo..hi], x)
  {
    if SortedTimes(a) {
      CountBeforeAtSplit(a[lo..hi], x, BisectLeft(a, x, lo, hi) - lo);
    }
  }

  /** `binary_search(a, x, lo, hi)`: on ascending input, the lower bound of
      `x` in [lo, hi) -- `lo` plus the number of elements before `x` -- when
      that lies inside the range, and -1 when it is `hi`. */
  function BinarySearch(a: seq<DateTime>, x: DateTime, lo: nat, hi: nat): (r: int)
    requires lo <= hi <= |a|
    ensures r == -1 || lo <= r < hi
    ensures SortedTimes(a) ==>
      r == (if lo + CountBefore(a[lo..hi], x) < hi then lo + CountBefore(a[lo..hi], x) else -1)
  {
    var pos := BisectLeft(a, x, lo, hi);
    BisectLeftCountsBefore(a, x, lo, hi);
    if pos != hi then pos else -1
  }
}

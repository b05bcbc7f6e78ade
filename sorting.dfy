/**
 * The comparator `compare` and the `qsort` call of `medianCut`, which
 * reorders one cube's sub-range of the reorder buffer by the decoded value
 * of the selected axis. The static `longdim` the comparator reads is an
 * explicit `axis` parameter here.
 */
module Sorting {
  import opened Codec

  /**
   * compare(): the difference of the two decoded bytes, promoted to int,
   * so its sign orders the buckets by their `axis` value.
   */
  function Compare(axis: Axis, x: Bucket, y: Bucket): (d: int)
    ensures d < 0 <==> Channel(axis, x) < Channel(axis, y)
    ensures d == 0 <==> Channel(axis, x) == Channel(axis, y)
    ensures d > 0 <==> Channel(axis, x) > Channel(axis, y)
    ensures -248 <= d <= 248
  {
    Channel(axis, x) - Channel(axis, y)
  }

  /** `s` ascends by decoded `axis` value. */
  ghost predicate SortedBy(axis: Axis, s: seq<Bucket>)
  {
    forall p, q :: InOrder(axis, s, p, q)
  }

  /** Positions `p` before `q` of `s`, when both exist, are in `axis` order. */
  ghost predicate InOrder(axis: Axis, s: seq<Bucket>, p: int, q: int)
  {
    0 <= p < q < |s| ==> Channel(axis, s[p]) <= Channel(axis, s[q])
  }

  /**
   * Sorts `a[lo..hi]` (inclusive) ascending by `Compare(axis, _, _)`. The
   * contract says only what `qsort` promises: the sub-range becomes a
   * sorted rearrangement of itself and nothing outside it moves. Which of
   * several equal keys comes first is left open, as `qsort` is not stable.
   */
  method SortRange(a: array<Bucket>, lo: int, hi: int, axis: Axis)
    requires 0 <= lo <= hi < a.Length
    modifies a
    ensures forall k :: 0 <= k < a.Length && !(lo <= k <= hi) ==> a[k] == old(a[k])
    ensures multiset(a[lo..hi + 1]) == multiset(old(a[lo..hi + 1]))
    ensures SortedBy(axis, a[lo..hi + 1])
  {
    var i := lo + 1;
    while i <= hi
      invariant lo + 1 <= i <= hi + 1
      invariant forall k :: 0 <= k < a.Length && !(lo <= k <= hi) ==> a[k] == old(a[k])
      invariant multiset(a[lo..hi + 1]) == multiset(old(a[lo..hi + 1]))
      invariant forall p, q :: lo <= p < q < i ==> Channel(axis, a[p]) <= Channel(axis, a[q])
    {
      Insert(a, lo, i, hi, axis);
      i := i + 1;
    }
    ghost var s := a[lo..hi + 1];
    forall p, q
      ensures InOrder(axis, s, p, q)
    {
      if 0 <= p < q < |s| {
        assert s[p] == a[lo + p] && s[q] == a[lo + q];
      }
    }
  }

  /**
   * One step of the sort: moves `a[i]` down into the sorted run
   * `a[lo..i-1]` by adjacent swaps, so that `a[lo..i]` is sorted.
   */
  method Insert(a: array<Bucket>, lo: int, i: int, hi: int, axis: Axis)
    requires 0 <= lo < i <= hi < a.Length
    requires forall p, q :: lo <= p < q < i ==> Channel(axis, a[p]) <= Channel(axis, a[q])
    modifies a
    ensures forall k :: 0 <= k < a.Length && !(lo <= k <= i) ==> a[k] == old(a[k])
    ensures multiset(a[lo..hi + 1]) == multiset(old(a[lo..hi + 1]))
    ensures forall p, q :: lo <= p < q <= i ==> Channel(axis, a[p]) <= Channel(axis, a[q])
  {
    var j := i;
    while j > lo && Compare(axis, a[j - 1], a[j]) > 0
      invariant lo <= j <= i
      invariant KeptOutside(old(a[..]), a[..], lo, i)
      invariant multiset(a[lo..hi + 1]) == multiset(old(a[lo..hi + 1]))
      invariant SortedAround(a[..], lo, j, i, axis) && BelowRest(a[..], j, i, axis)
    {
      ghost var s := a[..];
      Swap(a, lo, hi, j - 1, j);
      SwapDown(s, a[..], lo, j, i, axis);
      j := j - 1;
    }
    SettledSorted(a[..], lo, j, i, axis);
  }

  /** `t` agrees with `s` everywhere outside `[lo, i]`. */
  ghost predicate KeptOutside(s: seq<Bucket>, t: seq<Bucket>, lo: int, i: int)
  {
    |t| == |s| && forall k :: 0 <= k < |s| && !(lo <= k <= i) ==> t[k] == s[k]
  }

  /** `s[lo..i]` is sorted by the axis value once the entry at `j` is set aside. */
  ghost predicate SortedAround(s: seq<Bucket>, lo: int, j: int, i: int, axis: Axis)
  {
    forall p, q :: 0 <= lo <= p < q <= i && p != j && q != j && q < |s| ==> Channel(axis, s[p]) <= Channel(axis, s[q])
  }

  /** The entry at `j` is strictly below every entry after it up to `i`. */
  ghost predicate BelowRest(s: seq<Bucket>, j: int, i: int, axis: Axis)
  {
    forall q :: j < q <= i && 0 <= j && q < |s| ==> Channel(axis, s[j]) < Channel(axis, s[q])
  }

  /** Swapping the moving entry at `j` with a larger left neighbour moves it one place left. */
  lemma SwapDown(s: seq<Bucket>, t: seq<Bucket>, lo: int, j: int, i: int, axis: Axis)
    requires 0 <= lo < j <= i < |s| == |t|
    requires SortedAround(s, lo, j, i, axis) && BelowRest(s, j, i, axis)
    requires Channel(axis, s[j - 1]) > Channel(axis, s[j])
    requires t[j - 1] == s[j] && t[j] == s[j - 1]
    requires forall k :: 0 <= k < |s| && k != j - 1 && k != j ==> t[k] == s[k]
    ensures SortedAround(t, lo, j - 1, i, axis) && BelowRest(t, j - 1, i, axis)
  {
    forall p, q | lo <= p < q <= i && p != j - 1 && q != j - 1
      ensures Channel(axis, t[p]) <= Channel(axis, t[q])
    {
      if q == j && p < j - 1 {
        assert Channel(axis, s[p]) <= Channel(axis, s[j - 1]);
      }
    }
    forall q | j - 1 < q <= i
      ensures Channel(axis, t[j - 1]) < Channel(axis, t[q])
    {
    }
  }

  /**
   * Once the moving entry `s[j]` is no smaller than its left neighbour,
   * the prefix `s[lo..i]` is sorted.
   */
  lemma SettledSorted(s: seq<Bucket>, lo: int, j: int, i: int, axis: Axis)
    requires 0 <= lo <= j <= i < |s|
    requires SortedAround(s, lo, j, i, axis) && BelowRest(s, j, i, axis)
    requires j == lo || Channel(axis, s[j - 1]) <= Channel(axis, s[j])
    ensures forall p, q :: lo <= p < q <= i ==> Channel(axis, s[p]) <= Channel(axis, s[q])
  {
    forall p, q | lo <= p < q <= i
      ensures Channel(axis, s[p]) <= Channel(axis, s[q])
    {
      if p == j - 1 && q != j {
        assert Channel(axis, s[j]) < Channel(axis, s[q]);
      } else if p < j - 1 && q == j {
        assert Channel(axis, s[p]) <= Channel(axis, s[j - 1]);
      }
    }
  }

  /** Exchanges two elements of `a` inside its range `[lo, hi]`. */
  method Swap(a: array<Bucket>, lo: int, hi: int, i: int, j: int)
    requires 0 <= lo <= i < j <= hi < a.Length
    modifies a
    ensures a[i] == old(a[j]) && a[j] == old(a[i])
    ensures forall k :: 0 <= k < a.Length && k != i && k != j ==> a[k] == old(a[k])
    ensures multiset(a[lo..hi + 1]) == multiset(old(a[lo..hi + 1]))
  {
    ghost var r := a[lo..hi + 1];
    a[i], a[j] := a[j], a[i];
    ghost var t := r[i - lo := r[j - lo]][j - lo := r[i - lo]];
    assert forall k :: 0 <= k < |t| ==> a[lo + k] == t[k];
    assert a[lo..hi + 1] == t;
  }
}

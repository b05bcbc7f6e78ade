/**
 * The invariant `medianCut` keeps over its working state: the cube list,
 * the reorder buffer `histPtr` and the histogram. Its first `n` entries of
 * the buffer are a rearrangement of the populated buckets; the live cubes'
 * ranges tile `[0, n)`; each cube's count and box are exact for the
 * buckets it owns; counts add up to the histogram total.
 *
 * Tiling is stated with a ghost `owner` map from buffer positions to cube
 * positions: position `p` lies in cube `owner[p]` and in no other.
 */
module Partition {
  import opened Codec
  import opened Cubes

  /** The buckets cube `c` owns: its inclusive range of the buffer (none if out of bounds). */
  function Members(c: Cube, ptr: seq<Bucket>): (s: seq<Bucket>)
    ensures 0 <= c.lower <= c.upper + 1 <= |ptr| ==> |s| == c.upper - c.lower + 1
  {
    if 0 <= c.lower <= c.upper + 1 <= |ptr| then ptr[c.lower..c.upper + 1] else []
  }

  /** `c` owns a non-empty range of `ptr`, and its count and box are exact for it. */
  ghost predicate CubeExact(c: Cube, ptr: seq<Bucket>, h: Histogram)
  {
    && 0 <= c.lower <= c.upper < |ptr|
    && c.count == Weight(Members(c, ptr), h)
    && HasExtents(c, Members(c, ptr))
    && 0 <= c.level
  }

  /** The ranges of `cs` tile `[0, n)`, position `p` being owned by cube `owner[p]` alone. */
  ghost predicate Tiles(cs: seq<Cube>, owner: seq<int>, n: int)
  {
    && |owner| == n
    && (forall k :: InRange(cs, n, k))
    && (forall p :: OwnedAt(cs, owner, n, p))
    && (forall k, p :: SoleOwner(cs, owner, n, k, p))
  }

  /** Cube `k`, when there is one, owns a non-empty part of `[0, n)`. */
  ghost predicate InRange(cs: seq<Cube>, n: int, k: int)
  {
    0 <= k < |cs| ==> 0 <= cs[k].lower <= cs[k].upper < n
  }

  /** Position `p`, when it is below `n`, lies in the range of cube `owner[p]`. */
  ghost predicate OwnedAt(cs: seq<Cube>, owner: seq<int>, n: int, p: int)
  {
    0 <= p < n ==>
      p < |owner| && 0 <= owner[p] < |cs| && cs[owner[p]].lower <= p <= cs[owner[p]].upper
  }

  /** When position `p` lies in the range of cube `k`, `k` is its owner. */
  ghost predicate SoleOwner(cs: seq<Cube>, owner: seq<int>, n: int, k: int, p: int)
  {
    0 <= k < |cs| && 0 <= p < n && p < |owner| && cs[k].lower <= p <= cs[k].upper ==> owner[p] == k
  }

  /** The sum of the counts of the first `i` cubes. */
  function SumCounts(cs: seq<Cube>, i: nat): int
    requires i <= |cs|
  {
    if i == 0 then 0 else SumCounts(cs, i - 1) + cs[i - 1].count
  }

  /** The sum of the range sizes of the first `i` cubes. */
  function SumSizes(cs: seq<Cube>, i: nat): int
    requires i <= |cs|
  {
    if i == 0 then 0 else SumSizes(cs, i - 1) + (cs[i - 1].upper - cs[i - 1].lower + 1)
  }

  /** The whole invariant of the median-cut loop, over `n` populated buckets. */
  ghost predicate Inv(cs: seq<Cube>, ptr: seq<Bucket>, owner: seq<int>, h: Histogram, n: int)
  {
    && 1 <= n <= |ptr|
    && Rearranges(ptr[..n], Populated(h, HSIZE))
    && Tiles(cs, owner, n)
    && (forall k :: ExactAt(cs, ptr, h, k))
    && SumCounts(cs, |cs|) == Total(h)
    && SumSizes(cs, |cs|) == n
  }

  /**
   * Cube `k`, when it is one of `cs`, is exact and shallower than the
   * number of cubes. (A predicate of its own, so that the invariant speaks
   * of a cube only where a proof names it.)
   */
  ghost predicate ExactAt(cs: seq<Cube>, ptr: seq<Bucket>, h: Histogram, k: int)
  {
    0 <= k < |cs| ==> CubeExact(cs[k], ptr, h) && cs[k].level < |cs|
  }

  /** A child cube of `c` owning `ptr[lo..hi]`, one level deeper, with exact count and box. */
  ghost function Child(c: Cube, lo: int, hi: int, ptr: seq<Bucket>, h: Histogram): Cube
    requires 0 <= lo <= hi + 1 <= |ptr|
  {
    var s := ptr[lo..hi + 1];
    WithBox(c.(lower := lo, upper := hi, count := Weight(s, h), level := c.level + 1), s)
  }

  /** What a child records: its range, the weight of that range, and one more level. */
  lemma ChildFields(c: Cube, lo: int, hi: int, ptr: seq<Bucket>, h: Histogram, d: Cube)
    requires 0 <= lo <= hi + 1 <= |ptr| && d == Child(c, lo, hi, ptr, h)
    ensures d.lower == lo && d.upper == hi && d.level == c.level + 1
    ensures d.count == Weight(ptr[lo..hi + 1], h) && HasExtents(d, ptr[lo..hi + 1])
  {
  }

  /** A child built as the source builds it (range, count, level, then `shrink`) is `Child`. */
  lemma ShrunkIsChild(c: Cube, lo: int, hi: int, ptr: seq<Bucket>, h: Histogram, count: int, d: Cube)
    requires 0 <= lo <= hi + 1 <= |ptr| && count == Weight(ptr[lo..hi + 1], h)
    requires d == WithBox(c.(lower := lo, upper := hi, count := count, level := c.level + 1), ptr[lo..hi + 1])
    ensures d == Child(c, lo, hi, ptr, h)
  {
  }

  /** Writing the two halves of a split into the cube array. */
  lemma ListAfterSplit(before: seq<Cube>, after: seq<Cube>, splitpos: int, ncubes: int, a: Cube, b: Cube)
    requires 0 <= splitpos < ncubes < |before| == |after|
    requires after[splitpos] == a && after[ncubes] == b
    requires forall k :: 0 <= k < |after| && k != splitpos && k != ncubes ==> after[k] == before[k]
    ensures after[..ncubes + 1] == before[..ncubes][splitpos := a] + [b]
  {
  }

  /** The owner map after cube `m` takes over positions `[median, hi]`. */
  ghost function SplitOwner(owner: seq<int>, median: int, hi: int, m: int): (o: seq<int>)
    ensures |o| == |owner|
    ensures forall p :: 0 <= p < |o| ==> o[p] == if median <= p <= hi then m else owner[p]
  {
    seq(|owner|, p requires 0 <= p < |owner| => if median <= p <= hi then m else owner[p])
  }

  // ----------------------------------------------------------------- sums

  /** Replacing cube `s` changes the sums by the difference it makes, once `s` is counted. */
  lemma {:induction false} SumsUpdate(cs: seq<Cube>, s: int, x: Cube, i: nat)
    requires 0 <= s < |cs| && i <= |cs|
    ensures SumCounts(cs[s := x], i) == SumCounts(cs, i) + (if s < i then x.count - cs[s].count else 0)
    ensures SumSizes(cs[s := x], i) ==
      SumSizes(cs, i) + (if s < i then (x.upper - x.lower) - (cs[s].upper - cs[s].lower) else 0)
  {
    if i > 0 {
      SumsUpdate(cs, s, x, i - 1);
    }
  }

  /** Sums over a prefix depend on that prefix alone. */
  lemma {:induction false} SumsOfPrefix(cs: seq<Cube>, ds: seq<Cube>, i: nat)
    requires i <= |cs| && i <= |ds| && cs[..i] == ds[..i]
    ensures SumCounts(cs, i) == SumCounts(ds, i) && SumSizes(cs, i) == SumSizes(ds, i)
  {
    if i > 0 {
      assert cs[i - 1] == cs[..i][i - 1] == ds[i - 1];
      assert cs[..i - 1] == cs[..i][..i - 1];
      assert ds[..i - 1] == ds[..i][..i - 1];
      SumsOfPrefix(cs, ds, i - 1);
    }
  }

  lemma SumsAppend(cs: seq<Cube>, x: Cube)
    ensures SumCounts(cs + [x], |cs| + 1) == SumCounts(cs, |cs|) + x.count
    ensures SumSizes(cs + [x], |cs| + 1) == SumSizes(cs, |cs|) + (x.upper - x.lower + 1)
  {
    SumsOfPrefix(cs + [x], cs, |cs|);
  }

  /** Cubes of at least one bucket each number at most the buckets they tile. */
  lemma {:induction false} SizesAtLeastCount(cs: seq<Cube>, i: nat)
    requires i <= |cs|
    requires forall k :: 0 <= k < |cs| ==> cs[k].lower <= cs[k].upper
    ensures SumSizes(cs, i) >= i
    ensures SumSizes(cs, i) == i ==> forall k :: 0 <= k < i ==> cs[k].lower == cs[k].upper
  {
    if i > 0 {
      SizesAtLeastCount(cs, i - 1);
    }
  }

  /** All singleton cubes: their sizes sum to their number. */
  lemma {:induction false} SizesOfSingletons(cs: seq<Cube>, i: nat)
    requires i <= |cs|
    requires forall k :: 0 <= k < |cs| ==> cs[k].lower == cs[k].upper
    ensures SumSizes(cs, i) == i
  {
    if i > 0 {
      SizesOfSingletons(cs, i - 1);
    }
  }

  // --------------------------------------------------------------- buffer

  lemma WeightSplit(ptr: seq<Bucket>, lo: int, median: int, hi: int, h: Histogram)
    requires 0 <= lo <= median <= hi + 1 <= |ptr|
    ensures Weight(ptr[lo..hi + 1], h) == Weight(ptr[lo..median], h) + Weight(ptr[median..hi + 1], h)
  {
    assert ptr[lo..hi + 1] == ptr[lo..median] + ptr[median..hi + 1];
    WeightAppend(ptr[lo..median], ptr[median..hi + 1], h);
  }

  /**
   * `ptr1` agrees with `ptr0` outside `[lo, hi]` and rearranges `[lo, hi]`
   * among itself.
   */
  ghost predicate RearrangedWithin(ptr0: seq<Bucket>, ptr1: seq<Bucket>, lo: int, hi: int)
  {
    && |ptr1| == |ptr0| && 0 <= lo <= hi < |ptr0|
    && (forall i :: KeptAt(ptr0, ptr1, lo, hi, i))
    && Rearranges(ptr1[lo..hi + 1], ptr0[lo..hi + 1])
  }

  /** Position `i`, when it lies outside `[lo, hi]`, holds the same bucket in both buffers. */
  ghost predicate KeptAt(ptr0: seq<Bucket>, ptr1: seq<Bucket>, lo: int, hi: int, i: int)
  {
    0 <= i < |ptr0| && i < |ptr1| && !(lo <= i <= hi) ==> ptr1[i] == ptr0[i]
  }

  /** Rearranging `[lo, hi]` inside `[0, n)` keeps `[0, n)` a rearrangement of the populated buckets. */
  lemma BufferAfterSplit(ptr0: seq<Bucket>, ptr1: seq<Bucket>, h: Histogram, lo: int, hi: int, n: int)
    requires RearrangedWithin(ptr0, ptr1, lo, hi) && hi < n <= |ptr0|
    requires Rearranges(ptr0[..n], Populated(h, HSIZE))
    ensures Rearranges(ptr1[..n], Populated(h, HSIZE))
  {
    RearrangesMultiset(ptr0[..n], Populated(h, HSIZE));
    RearrangesMultiset(ptr1[..n], Populated(h, HSIZE));
    RearrangesMultiset(ptr1[lo..hi + 1], ptr0[lo..hi + 1]);
    forall i | 0 <= i < n && !(lo <= i <= hi)
      ensures ptr1[i] == ptr0[i]
    {
      assert KeptAt(ptr0, ptr1, lo, hi, i);
    }
    assert ptr1[..lo] == ptr0[..lo];
    assert ptr1[hi + 1..n] == ptr0[hi + 1..n];
    SliceThree(ptr1, lo, hi, n);
    SliceThree(ptr0, lo, hi, n);
  }

  /** The first `n` entries are the run before `lo`, the range `[lo, hi]` and the run after it. */
  lemma SliceThree(s: seq<Bucket>, lo: int, hi: int, n: int)
    requires 0 <= lo <= hi + 1 <= n <= |s|
    ensures s[..n] == s[..lo] + s[lo..hi + 1] + s[hi + 1..n]
  {
  }

  /**
   * Under the invariant the buffer's first `n` entries are distinct and
   * populated, and every populated bucket is among them.
   */
  lemma BufferFacts(cs: seq<Cube>, ptr: seq<Bucket>, owner: seq<int>, h: Histogram, n: int)
    requires Inv(cs, ptr, owner, h, n)
    ensures AllPopulated(ptr[..n], h)
    ensures Distinct(ptr[..n])
    ensures forall b: Bucket :: h[b] != 0 <==> b in ptr[..n]
  {
    var P := Populated(h, HSIZE);
    RearrangesMultiset(ptr[..n], P);
    PopulatedSpec(h, HSIZE);
    forall b: Bucket
      ensures h[b] != 0 <==> b in ptr[..n]
    {
      assert b in ptr[..n] <==> b in multiset(ptr[..n]);
      assert b in P <==> b in multiset(P);
    }
    forall p | 0 <= p < n
      ensures h[ptr[..n][p]] != 0
    {
      assert ptr[..n][p] in ptr[..n];
    }
    assert Distinct(P);
    DistinctPermutation(ptr[..n], P);
  }

  /** Every cube owns populated buckets only, so its count is at least its size. */
  lemma CubeWeight(cs: seq<Cube>, ptr: seq<Bucket>, owner: seq<int>, h: Histogram, n: int, k: int)
    requires Inv(cs, ptr, owner, h, n) && 0 <= k < |cs|
    ensures AllPopulated(Members(cs[k], ptr), h) && Distinct(Members(cs[k], ptr))
    ensures cs[k].count == Weight(Members(cs[k], ptr), h) >= cs[k].upper - cs[k].lower + 1 >= 1
  {
    BufferFacts(cs, ptr, owner, h, n);
    assert ExactAt(cs, ptr, h, k) && InRange(cs, n, k);
    RunWeight(ptr, h, n, cs[k]);
  }

  /** A cube over a run of distinct populated buffer entries weighs at least its size. */
  lemma RunWeight(ptr: seq<Bucket>, h: Histogram, n: int, c: Cube)
    requires 0 <= c.lower <= c.upper < n <= |ptr|
    requires AllPopulated(ptr[..n], h) && Distinct(ptr[..n])
    ensures AllPopulated(Members(c, ptr), h) && Distinct(Members(c, ptr))
    ensures Weight(Members(c, ptr), h) >= c.upper - c.lower + 1
  {
    var m := Members(c, ptr);
    forall j | 0 <= j < |m|
      ensures h[m[j]] != 0
    {
      assert m[j] == ptr[..n][c.lower + j];
    }
    forall i, j | 0 <= i < j < |m|
      ensures m[i] != m[j]
    {
      assert m[i] == ptr[..n][c.lower + i] && m[j] == ptr[..n][c.lower + j];
    }
    WeightAtLeastLength(m, h);
  }

  // ---------------------------------------------------------------- split

  /** Cubes other than `s` own the same buckets once `s`'s range is rearranged. */
  lemma OthersUnmoved(cs: seq<Cube>, owner: seq<int>, n: int, ptr0: seq<Bucket>, ptr1: seq<Bucket>, s: int, k: int)
    requires Tiles(cs, owner, n) && n <= |ptr0|
    requires 0 <= s < |cs| && 0 <= k < |cs| && k != s
    requires RearrangedWithin(ptr0, ptr1, cs[s].lower, cs[s].upper)
    ensures Members(cs[k], ptr1) == Members(cs[k], ptr0)
  {
    var c := cs[k];
    assert InRange(cs, n, k);
    forall i | c.lower <= i <= c.upper
      ensures ptr1[i] == ptr0[i]
    {
      assert SoleOwner(cs, owner, n, k, i) && SoleOwner(cs, owner, n, s, i);
      assert KeptAt(ptr0, ptr1, cs[s].lower, cs[s].upper, i);
    }
  }

  /** Splitting cube `s` at `median` into a left part kept at `s` and a right part appended keeps the tiling. */
  lemma TilesSplit(cs: seq<Cube>, owner: seq<int>, n: int, s: int, median: int, a: Cube, b: Cube)
    requires Tiles(cs, owner, n)
    requires 0 <= s < |cs| && cs[s].lower < median <= cs[s].upper
    requires a.lower == cs[s].lower && a.upper == median - 1
    requires b.lower == median && b.upper == cs[s].upper
    ensures Tiles(cs[s := a] + [b], SplitOwner(owner, median, cs[s].upper, |cs|), n)
  {
    var cs', owner' := cs[s := a] + [b], SplitOwner(owner, median, cs[s].upper, |cs|);
    var m := |cs|;
    assert InRange(cs, n, s);
    forall k
      ensures InRange(cs', n, k)
    {
      if 0 <= k < m && k != s {
        assert InRange(cs, n, k) && cs'[k] == cs[k];
      }
    }
    forall p | 0 <= p < n
      ensures OwnedAt(cs', owner', n, p)
    {
      assert OwnedAt(cs, owner, n, p);
      if median <= p <= cs[s].upper {
        assert owner'[p] == m && cs'[m] == b;
      } else if owner[p] == s {
        assert owner'[p] == s && cs'[s] == a;
      } else {
        assert cs'[owner[p]] == cs[owner[p]];
      }
    }
    forall k, p | 0 <= k < |cs'| && 0 <= p < n && cs'[k].lower <= p <= cs'[k].upper
      ensures SoleOwner(cs', owner', n, k, p)
    {
      if k == m {
      } else if k == s {
        assert SoleOwner(cs, owner, n, s, p);
      } else {
        assert cs'[k] == cs[k] && SoleOwner(cs, owner, n, k, p) && SoleOwner(cs, owner, n, s, p);
      }
    }
  }

  /**
   * `a` and `b` are what splitting `c` at `median` over the rearranged
   * buffer `ptr` yields: exact parts `[lower, median-1]` and
   * `[median, upper]`, one level deeper, sharing out `c`'s count.
   */
  ghost predicate SplitsInto(c: Cube, ptr: seq<Bucket>, h: Histogram, median: int, a: Cube, b: Cube)
  {
    && (forall k :: ExactPart([a, b], ptr, h, k))
    && a.level == c.level + 1 && b.level == c.level + 1
    && a.lower == c.lower && a.upper == median - 1
    && b.lower == median && b.upper == c.upper
    && a.count + b.count == c.count
  }

  /** Part `k` of `parts`, when there is one, is exact. */
  ghost predicate ExactPart(parts: seq<Cube>, ptr: seq<Bucket>, h: Histogram, k: int)
  {
    0 <= k < |parts| ==> CubeExact(parts[k], ptr, h)
  }

  /** The two children of an exact cube whose range was rearranged are what a split yields. */
  lemma ChildrenSplit(c: Cube, median: int, ptr0: seq<Bucket>, ptr1: seq<Bucket>, h: Histogram, a: Cube, b: Cube)
    requires CubeExact(c, ptr0, h) && c.lower < median <= c.upper
    requires RearrangedWithin(ptr0, ptr1, c.lower, c.upper)
    requires a == Child(c, c.lower, median - 1, ptr1, h)
    requires b == Child(c, median, c.upper, ptr1, h)
    ensures SplitsInto(c, ptr1, h, median, a, b)
  {
    PartsShareCount(c, median, ptr0, ptr1, h);
    ChildExact(c, c.lower, median - 1, ptr1, h, a);
    ChildExact(c, median, c.upper, ptr1, h, b);
    ExactPartsSplit(c, median, ptr1, h, a, b);
  }

  /** Two exact cubes cut at `median` from the range of `c`, sharing out its count, split it. */
  lemma ExactPartsSplit(c: Cube, median: int, ptr: seq<Bucket>, h: Histogram, a: Cube, b: Cube)
    requires CubeExact(a, ptr, h) && CubeExact(b, ptr, h)
    requires a.level == c.level + 1 && b.level == c.level + 1
    requires a.lower == c.lower && a.upper == median - 1 && b.lower == median && b.upper == c.upper
    requires a.count + b.count == c.count
    ensures SplitsInto(c, ptr, h, median, a, b)
  {
    PairExact(a, b, ptr, h);
  }

  /** Two exact cubes listed as a pair are exact at each index. */
  lemma PairExact(a: Cube, b: Cube, ptr: seq<Bucket>, h: Histogram)
    requires CubeExact(a, ptr, h) && CubeExact(b, ptr, h)
    ensures forall k :: ExactPart([a, b], ptr, h, k)
  {
    forall k
      ensures ExactPart([a, b], ptr, h, k)
    {
    }
  }

  /**
   * One iteration of the median-cut loop keeps the invariant: cube `s`'s
   * range is rearranged (from `ptr0` to `ptr1`), then the cube is replaced
   * by its left part `[lower, median-1]` and its right part
   * `[median, upper]` is appended.
   */
  lemma SplitKeepsInv(cs: seq<Cube>, ptr0: seq<Bucket>, ptr1: seq<Bucket>, owner: seq<int>,
                      h: Histogram, n: int, s: int, median: int, a: Cube, b: Cube)
    requires Inv(cs, ptr0, owner, h, n)
    requires 0 <= s < |cs| && cs[s].lower < median <= cs[s].upper
    requires RearrangedWithin(ptr0, ptr1, cs[s].lower, cs[s].upper)
    requires SplitsInto(cs[s], ptr1, h, median, a, b)
    ensures Inv(cs[s := a] + [b], ptr1, SplitOwner(owner, median, cs[s].upper, |cs|), h, n)
  {
    var c := cs[s];
    var cs', owner' := cs[s := a] + [b], SplitOwner(owner, median, c.upper, |cs|);
    assert InRange(cs, n, s);
    BufferAfterSplit(ptr0, ptr1, h, c.lower, c.upper, n);
    TilesSplit(cs, owner, n, s, median, a, b);
    ExactAfterSplit(cs, ptr0, ptr1, owner, h, n, s, median, a, b, cs');
    SumsAfterSplit(cs, s, a, b);
    InvIntro(cs', ptr1, owner', h, n);
  }

  /** The invariant, assembled from its parts. */
  lemma InvIntro(cs: seq<Cube>, ptr: seq<Bucket>, owner: seq<int>, h: Histogram, n: int)
    requires 1 <= n <= |ptr|
    requires Rearranges(ptr[..n], Populated(h, HSIZE))
    requires Tiles(cs, owner, n)
    requires forall k :: ExactAt(cs, ptr, h, k)
    requires SumCounts(cs, |cs|) == Total(h)
    requires SumSizes(cs, |cs|) == n
    ensures Inv(cs, ptr, owner, h, n)
  {
  }

  /** Cubes other than `s` stay exact, and the two parts replacing `s` are exact. */
  lemma ExactAfterSplit(cs: seq<Cube>, ptr0: seq<Bucket>, ptr1: seq<Bucket>, owner: seq<int>,
                        h: Histogram, n: int, s: int, median: int, a: Cube, b: Cube, cs': seq<Cube>)
    requires Tiles(cs, owner, n) && n <= |ptr0|
    requires forall k :: ExactAt(cs, ptr0, h, k)
    requires 0 <= s < |cs| && RearrangedWithin(ptr0, ptr1, cs[s].lower, cs[s].upper)
    requires SplitsInto(cs[s], ptr1, h, median, a, b)
    requires cs' == cs[s := a] + [b]
    ensures forall k :: ExactAt(cs', ptr1, h, k)
  {
    assert ExactAt(cs, ptr0, h, s);
    forall k
      ensures ExactAt(cs', ptr1, h, k)
    {
      if k == s {
        assert ExactPart([a, b], ptr1, h, 0);
      } else if k == |cs| {
        assert ExactPart([a, b], ptr1, h, 1);
      } else if 0 <= k < |cs'| {
        assert ExactAt(cs, ptr0, h, k);
        OthersUnmoved(cs, owner, n, ptr0, ptr1, s, k);
        assert cs'[k] == cs[k];
      }
    }
  }

  /** A child is exact for the range it is built over, one level deeper. */
  lemma ChildExact(c: Cube, lo: int, hi: int, ptr: seq<Bucket>, h: Histogram, d: Cube)
    requires 0 <= lo <= hi < |ptr| && 0 <= c.level && d == Child(c, lo, hi, ptr, h)
    ensures CubeExact(d, ptr, h) && d.level == c.level + 1
    ensures d.lower == lo && d.upper == hi && d.count == Weight(ptr[lo..hi + 1], h)
  {
    ChildFields(c, lo, hi, ptr, h, d);
    assert Members(d, ptr) == ptr[lo..hi + 1];
  }

  /** The two parts of a rearranged cube share out its count. */
  lemma PartsShareCount(c: Cube, median: int, ptr0: seq<Bucket>, ptr1: seq<Bucket>, h: Histogram)
    requires c.lower < median <= c.upper && RearrangedWithin(ptr0, ptr1, c.lower, c.upper)
    requires c.count == Weight(Members(c, ptr0), h)
    ensures Weight(ptr1[c.lower..median], h) + Weight(ptr1[median..c.upper + 1], h) == c.count
  {
    RearrangesMultiset(ptr1[c.lower..c.upper + 1], ptr0[c.lower..c.upper + 1]);
    WeightPermutation(ptr1[c.lower..c.upper + 1], ptr0[c.lower..c.upper + 1], h);
    WeightSplit(ptr1, c.lower, median, c.upper, h);
  }

  /** Replacing cube `s` by two parts that share its range and count keeps both sums. */
  lemma SumsAfterSplit(cs: seq<Cube>, s: int, a: Cube, b: Cube)
    requires 0 <= s < |cs|
    requires a.lower == cs[s].lower && a.upper + 1 == b.lower && b.upper == cs[s].upper
    requires a.count + b.count == cs[s].count
    ensures SumCounts(cs[s := a] + [b], |cs| + 1) == SumCounts(cs, |cs|)
    ensures SumSizes(cs[s := a] + [b], |cs| + 1) == SumSizes(cs, |cs|)
  {
    SumsUpdate(cs, s, a, |cs|);
    SumsAppend(cs[s := a], b);
  }

  // ---------------------------------------------------------------- start

  /** The single root cube over all populated buckets satisfies the invariant. */
  lemma InitialInv(ptr: seq<Bucket>, h: Histogram, n: int, root: Cube)
    requires 1 <= n <= |ptr| && ptr[..n] == Populated(h, HSIZE)
    requires root.lower == 0 && root.upper == n - 1 && root.count == Total(h) && root.level == 0
    requires HasExtents(root, ptr[..n])
    ensures Inv([root], ptr, seq(n, p => 0), h, n)
  {
    PopulatedWeight(h, HSIZE);
    RearrangesMultiset(ptr[..n], Populated(h, HSIZE));
    assert Members(root, ptr) == ptr[..n];
    assert [root][..0] == [];
  }

  // ---------------------------------------------------------------- final

  /**
   * The outcome of quantization: each cube owns a non-empty run of
   * distinct populated buckets with exact count and box; `labels` sends
   * each populated bucket to the one cube owning it, and unpopulated
   * buckets to 0.
   */
  ghost predicate Quantized(cs: seq<Cube>, ptr: seq<Bucket>, h: Histogram, labels: seq<int>)
  {
    && |labels| == HSIZE
    && (forall k :: FinalAt(cs, ptr, h, k))
    && (forall b: Bucket :: h[b] != 0 ==> 0 <= labels[b] < |cs| && b in Members(cs[labels[b]], ptr))
    && (forall b: Bucket, k :: 0 <= k < |cs| && b in Members(cs[k], ptr) ==> labels[b] == k)
    && (forall b: Bucket :: h[b] == 0 ==> labels[b] == 0)
  }

  /**
   * Cube `k`, when it is one of `cs`, is exact, has a positive count, and
   * owns distinct populated buckets.
   */
  ghost predicate FinalAt(cs: seq<Cube>, ptr: seq<Bucket>, h: Histogram, k: int)
  {
    0 <= k < |cs| ==>
      && CubeExact(cs[k], ptr, h) && 0 < cs[k].count
      && AllPopulated(Members(cs[k], ptr), h) && Distinct(Members(cs[k], ptr))
  }

  /** Every live cube is exact, non-empty, and owns distinct populated buckets. */
  lemma AllCubesExact(cs: seq<Cube>, ptr: seq<Bucket>, owner: seq<int>, h: Histogram, n: int)
    requires Inv(cs, ptr, owner, h, n)
    ensures forall k :: FinalAt(cs, ptr, h, k)
  {
    forall k
      ensures FinalAt(cs, ptr, h, k)
    {
      if 0 <= k < |cs| {
        assert ExactAt(cs, ptr, h, k);
        CubeWeight(cs, ptr, owner, h, n, k);
      }
    }
  }

  /** Labelling each buffer position with its owner, and nothing else, quantizes. */
  lemma InvQuantized(cs: seq<Cube>, ptr: seq<Bucket>, owner: seq<int>, h: Histogram, n: int,
                     labels: seq<int>)
    requires Inv(cs, ptr, owner, h, n) && |labels| == HSIZE
    requires forall p :: 0 <= p < n ==> labels[ptr[p]] == owner[p]
    requires forall b: Bucket :: h[b] == 0 ==> labels[b] == 0
    ensures Quantized(cs, ptr, h, labels)
  {
    AllCubesExact(cs, ptr, owner, h, n);
    LabelIsOwner(cs, ptr, owner, h, n, labels);
  }

  /** An empty histogram is quantized by no cubes. */
  lemma EmptyQuantized(ptr: seq<Bucket>, h: Histogram)
    requires forall b: Bucket :: h[b] == 0
    ensures Quantized([], ptr, h, h)
  {
  }

  // ------------------------------------------------------------------ end

  /** There are never more cubes than populated buckets. */
  lemma CubesAtMostBuckets(cs: seq<Cube>, ptr: seq<Bucket>, owner: seq<int>, h: Histogram, n: int)
    requires Inv(cs, ptr, owner, h, n)
    ensures |cs| <= n
  {
    forall k | 0 <= k < |cs|
      ensures cs[k].lower <= cs[k].upper
    {
      assert InRange(cs, n, k);
    }
    SizesAtLeastCount(cs, |cs|);
  }

  /**
   * When no cube can be split (each owns one bucket or is 255 levels
   * deep) before 256 cubes exist, every cube owns exactly one bucket, so
   * there is one cube per populated bucket.
   */
  lemma NoSplitMeansSingletons(cs: seq<Cube>, ptr: seq<Bucket>, owner: seq<int>, h: Histogram, n: int)
    requires Inv(cs, ptr, owner, h, n) && |cs| <= 255
    requires forall k :: 0 <= k < |cs| ==> !(cs[k].lower != cs[k].upper && cs[k].level < 255)
    ensures forall k :: 0 <= k < |cs| ==> cs[k].lower == cs[k].upper
    ensures |cs| == n
  {
    forall k | 0 <= k < |cs|
      ensures cs[k].lower == cs[k].upper
    {
      assert ExactAt(cs, ptr, h, k);
    }
    SizesOfSingletons(cs, |cs|);
  }

  /**
   * Once every populated bucket `ptr[p]` is labelled with `owner[p]`, the
   * label of a populated bucket is the one cube whose members include it.
   */
  lemma LabelIsOwner(cs: seq<Cube>, ptr: seq<Bucket>, owner: seq<int>, h: Histogram, n: int,
                     labels: seq<int>)
    requires Inv(cs, ptr, owner, h, n) && |labels| == HSIZE
    requires forall p :: 0 <= p < n ==> labels[ptr[p]] == owner[p]
    ensures forall b: Bucket :: h[b] != 0 ==> 0 <= labels[b] < |cs| && b in Members(cs[labels[b]], ptr)
    ensures forall b: Bucket, k :: 0 <= k < |cs| && b in Members(cs[k], ptr) ==> labels[b] == k
  {
    BufferFacts(cs, ptr, owner, h, n);
    forall b: Bucket | h[b] != 0
      ensures 0 <= labels[b] < |cs| && b in Members(cs[labels[b]], ptr)
    {
      LabelOfPopulated(cs, ptr, owner, n, labels, b);
    }
    forall b: Bucket, k | 0 <= k < |cs| && b in Members(cs[k], ptr)
      ensures labels[b] == k
    {
      LabelOfMember(cs, ptr, owner, n, labels, b, k);
    }
  }

  lemma LabelOfPopulated(cs: seq<Cube>, ptr: seq<Bucket>, owner: seq<int>, n: int,
                         labels: seq<int>, b: Bucket)
    requires Tiles(cs, owner, n) && n <= |ptr| && |labels| == HSIZE
    requires forall p :: 0 <= p < n ==> labels[ptr[p]] == owner[p]
    requires b in ptr[..n]
    ensures 0 <= labels[b] < |cs| && b in Members(cs[labels[b]], ptr)
  {
    var p :| 0 <= p < n && ptr[..n][p] == b;
    assert OwnedAt(cs, owner, n, p);
    var k := owner[p];
    assert InRange(cs, n, k) && labels[b] == k;
    assert Members(cs[k], ptr)[p - cs[k].lower] == b;
  }

  lemma LabelOfMember(cs: seq<Cube>, ptr: seq<Bucket>, owner: seq<int>, n: int,
                      labels: seq<int>, b: Bucket, k: int)
    requires Tiles(cs, owner, n) && n <= |ptr| && |labels| == HSIZE
    requires forall p :: 0 <= p < n ==> labels[ptr[p]] == owner[p]
    requires 0 <= k < |cs| && b in Members(cs[k], ptr)
    ensures labels[b] == k
  {
    var i :| 0 <= i < |Members(cs[k], ptr)| && Members(cs[k], ptr)[i] == b;
    assert InRange(cs, n, k);
    var p := cs[k].lower + i;
    assert SoleOwner(cs, owner, n, k, p);
    assert ptr[p] == b && owner[p] == k;
  }
}

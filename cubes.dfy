/**
 * The `cube_t` record of ColorQuantizer.hpp and the specification
 * functions the quantizer is proved against: the histogram weight of a
 * run of buckets, the per-channel extents that `shrink` computes, the
 * count-weighted channel sums that `invMap` averages, and the ascending
 * list of populated buckets that `medianCut` starts from.
 */
module Cubes {
  import opened Codec

  /** A histogram of `HSIZE` word-sized counts. */
  type Histogram = h: seq<Word> | |h| == HSIZE witness seq(HSIZE, i => 0)

  /**
   * `cube_t`: the inclusive range `[lower, upper]` of the reorder buffer it
   * owns, the total count of those buckets, its split depth, and the
   * per-channel bounding box of their decoded colours.
   */
  datatype Cube = Cube(lower: int, upper: int, count: int, level: int,
                       rmin: Byte, rmax: Byte,
                       gmin: Byte, gmax: Byte,
                       bmin: Byte, bmax: Byte)

  /** One row of `colMap`: a palette colour. */
  datatype Color = Color(r: Byte, g: Byte, b: Byte)

  /** The total histogram count of the buckets in `s`. */
  function Weight(s: seq<Bucket>, h: Histogram): (w: int)
    ensures 0 <= w
  {
    if s == [] then 0 else Weight(s[..|s| - 1], h) + h[s[|s| - 1]]
  }

  /** Extending a run `s[lo..i-1]` by the bucket at `i` adds that bucket's count. */
  lemma WeightStep(s: seq<Bucket>, h: Histogram, lo: int, i: int)
    requires 0 <= lo <= i < |s|
    ensures Weight(s[lo..i + 1], h) == Weight(s[lo..i], h) + h[s[i]]
  {
    assert s[lo..i + 1][..i - lo] == s[lo..i];
  }

  /** The count-weighted sum of the decoded `axis` values of the buckets in `s`. */
  function ChannelSum(axis: Axis, s: seq<Bucket>, h: Histogram): int
  {
    if s == [] then 0
    else ChannelSum(axis, s[..|s| - 1], h) + Channel(axis, s[|s| - 1]) * h[s[|s| - 1]]
  }

  /** Running minimum of the decoded `axis` values, starting from 255. */
  function Lowest(axis: Axis, s: seq<Bucket>): Byte
  {
    if s == [] then 255
    else
      var m := Lowest(axis, s[..|s| - 1]);
      var c := Channel(axis, s[|s| - 1]);
      if c < m then c else m
  }

  /** Running maximum of the decoded `axis` values, starting from 0. */
  function Highest(axis: Axis, s: seq<Bucket>): Byte
  {
    if s == [] then 0
    else
      var m := Highest(axis, s[..|s| - 1]);
      var c := Channel(axis, s[|s| - 1]);
      if c > m then c else m
  }

  /** The cube's box is exactly the extents of the buckets `s` it owns. */
  ghost predicate HasExtents(c: Cube, s: seq<Bucket>)
  {
    && c.rmin == Lowest(RedAxis, s) && c.rmax == Highest(RedAxis, s)
    && c.gmin == Lowest(GreenAxis, s) && c.gmax == Highest(GreenAxis, s)
    && c.bmin == Lowest(BlueAxis, s) && c.bmax == Highest(BlueAxis, s)
  }

  /** `c` with its box replaced by the extents of the buckets `s`. */
  function WithBox(c: Cube, s: seq<Bucket>): (d: Cube)
    ensures HasExtents(d, s)
    ensures d.lower == c.lower && d.upper == c.upper && d.count == c.count && d.level == c.level
  {
    c.(rmin := Lowest(RedAxis, s), rmax := Highest(RedAxis, s),
       gmin := Lowest(GreenAxis, s), gmax := Highest(GreenAxis, s),
       bmin := Lowest(BlueAxis, s), bmax := Highest(BlueAxis, s))
  }

  /** The lower bound of the cube's box on `axis`. */
  function MinOf(c: Cube, axis: Axis): Byte
  {
    match axis
    case RedAxis => c.rmin
    case GreenAxis => c.gmin
    case BlueAxis => c.bmin
  }

  /** The upper bound of the cube's box on `axis`. */
  function MaxOf(c: Cube, axis: Axis): Byte
  {
    match axis
    case RedAxis => c.rmax
    case GreenAxis => c.gmax
    case BlueAxis => c.bmax
  }

  /** The ascending list of buckets below `i` whose count is not zero. */
  function Populated(h: Histogram, i: nat): seq<Bucket>
    requires i <= HSIZE
  {
    if i == 0 then []
    else Populated(h, i - 1) + (if h[i - 1] != 0 then [i - 1] else [])
  }

  /** The sum of the first `i` histogram entries. */
  function SumTo(h: Histogram, i: nat): int
    requires i <= HSIZE
  {
    if i == 0 then 0 else SumTo(h, i - 1) + h[i - 1]
  }

  /** The total count of the histogram. */
  function Total(h: Histogram): int
  {
    SumTo(h, HSIZE)
  }

  ghost predicate Distinct(s: seq<Bucket>)
  {
    forall p, q :: 0 <= p < q < |s| ==> s[p] != s[q]
  }

  /** Every bucket of `s` is populated. */
  ghost predicate AllPopulated(s: seq<Bucket>, h: Histogram)
  {
    forall p :: 0 <= p < |s| ==> h[s[p]] != 0
  }

  // ---------------------------------------------------------------- weights

  lemma {:induction false} WeightAppend(s: seq<Bucket>, t: seq<Bucket>, h: Histogram)
    ensures Weight(s + t, h) == Weight(s, h) + Weight(t, h)
  {
    if t != [] {
      var t' := t[..|t| - 1];
      assert (s + t)[..|s + t| - 1] == s + t';
      WeightAppend(s, t', h);
    } else {
      assert s + t == s;
    }
  }

  /** `s` and `t` hold bucket `x` equally often. */
  ghost predicate SameCount(s: seq<Bucket>, t: seq<Bucket>, x: Bucket)
  {
    multiset(s)[x] == multiset(t)[x]
  }

  /**
   * `t` is a rearrangement of `s`, stated bucket by bucket so that a proof
   * looks at the multiplicity of a bucket only where it names one.
   */
  ghost predicate Rearranges(s: seq<Bucket>, t: seq<Bucket>)
  {
    forall x: Bucket :: SameCount(s, t, x)
  }

  /** Rearrangement is equality of multisets. */
  lemma RearrangesMultiset(s: seq<Bucket>, t: seq<Bucket>)
    ensures Rearranges(s, t) <==> multiset(s) == multiset(t)
  {
    if Rearranges(s, t) {
      forall x: Bucket
        ensures multiset(s)[x] == multiset(t)[x]
      {
        assert SameCount(s, t, x);
      }
    }
  }

  /** The weight of a run of buckets does not depend on their order. */
  lemma {:induction false} WeightPermutation(s: seq<Bucket>, t: seq<Bucket>, h: Histogram)
    requires multiset(s) == multiset(t)
    ensures Weight(s, h) == Weight(t, h)
  {
    if s != [] {
      var x := s[|s| - 1];
      var s' := s[..|s| - 1];
      assert s == s' + [x];
      assert x in multiset(t);
      var j :| 0 <= j < |t| && t[j] == x;
      var t' := t[..j] + t[j + 1..];
      assert t == t[..j] + [x] + t[j + 1..];
      assert multiset(t') == multiset(t) - multiset{x};
      WeightPermutation(s', t', h);
      WeightAppend(t[..j] + [x], t[j + 1..], h);
      WeightAppend(t[..j], [x], h);
      WeightAppend(t[..j], t[j + 1..], h);
      assert Weight([x], h) == h[x] by {
        assert [x][..0] == [];
      }
    } else {
      assert t == [];
    }
  }

  /** A run of populated buckets weighs at least one per bucket. */
  lemma {:induction false} WeightAtLeastLength(s: seq<Bucket>, h: Histogram)
    requires AllPopulated(s, h)
    ensures Weight(s, h) >= |s|
  {
    if s != [] {
      WeightAtLeastLength(s[..|s| - 1], h);
    }
  }

  // ------------------------------------------------------------- populated

  /**
   * `Populated(h, i)` lists exactly the populated buckets below `i`, in
   * strictly ascending order.
   */
  lemma {:induction false} PopulatedSpec(h: Histogram, i: nat)
    requires i <= HSIZE
    ensures forall x: Bucket :: x in Populated(h, i) <==> x < i && h[x] != 0
    ensures forall p, q :: 0 <= p < q < |Populated(h, i)| ==> Populated(h, i)[p] < Populated(h, i)[q]
  {
    if i > 0 {
      PopulatedSpec(h, i - 1);
      var P := Populated(h, i - 1);
      if h[i - 1] != 0 {
        forall p | 0 <= p < |P|
          ensures P[p] < i - 1
        {
          assert P[p] in P;
        }
      } else {
        assert Populated(h, i) == P;
      }
    }
  }

  /** No populated bucket listed means an all-zero histogram. */
  lemma NonePopulated(h: Histogram)
    requires Populated(h, HSIZE) == []
    ensures forall b: Bucket :: h[b] == 0
  {
    PopulatedSpec(h, HSIZE);
    forall b: Bucket
      ensures h[b] == 0
    {
      assert b !in Populated(h, HSIZE);
    }
  }

  /** The populated buckets carry the whole histogram count. */
  lemma {:induction false} PopulatedWeight(h: Histogram, i: nat)
    requires i <= HSIZE
    ensures Weight(Populated(h, i), h) == SumTo(h, i)
  {
    if i > 0 {
      PopulatedWeight(h, i - 1);
      if h[i - 1] != 0 {
        assert (Populated(h, i - 1) + [i - 1])[..|Populated(h, i)| - 1] == Populated(h, i - 1);
      } else {
        assert Populated(h, i - 1) + [] == Populated(h, i - 1);
      }
    }
  }

  /** A histogram of word counts totals less than 2^31: `cube.count` never overflows a long. */
  lemma {:induction false} SumToBound(h: Histogram, i: nat)
    requires i <= HSIZE
    ensures 0 <= SumTo(h, i) <= i * 65535
  {
    if i > 0 {
      SumToBound(h, i - 1);
    }
  }

  // -------------------------------------------------------------- distinct

  lemma {:induction false} DistinctOnce(t: seq<Bucket>, x: Bucket)
    requires Distinct(t)
    ensures multiset(t)[x] <= 1
  {
    if t != [] {
      var t' := t[..|t| - 1];
      assert t == t' + [t[|t| - 1]];
      DistinctOnce(t', x);
      if x == t[|t| - 1] {
        assert x !in t';
      }
    }
  }

  /** A rearrangement of a list without repeats has no repeats. */
  lemma DistinctPermutation(s: seq<Bucket>, t: seq<Bucket>)
    requires Distinct(t) && multiset(s) == multiset(t)
    ensures Distinct(s)
  {
    forall p, q | 0 <= p < q < |s|
      ensures s[p] != s[q]
    {
      if s[p] == s[q] {
        var x := s[p];
        assert s == s[..q] + s[q..];
        assert x in s[..q] && x in s[q..];
        assert multiset(s)[x] == multiset(s[..q])[x] + multiset(s[q..])[x];
        DistinctOnce(t, x);
        assert false;
      }
    }
  }

  // --------------------------------------------------------------- extents

  /** `Lowest` is the minimum of the decoded values (255 for no bucket). */
  lemma {:induction false} LowestIsMin(axis: Axis, s: seq<Bucket>)
    ensures forall p :: 0 <= p < |s| ==> Lowest(axis, s) <= Channel(axis, s[p])
    ensures s == [] ==> Lowest(axis, s) == 255
    ensures s != [] ==> exists p :: 0 <= p < |s| && Lowest(axis, s) == Channel(axis, s[p])
  {
    if s != [] {
      var s' := s[..|s| - 1];
      var m, c := Lowest(axis, s'), Channel(axis, s[|s| - 1]);
      LowestIsMin(axis, s');
      assert Lowest(axis, s) == if c < m then c else m;
      forall p | 0 <= p < |s|
        ensures Lowest(axis, s) <= Channel(axis, s[p])
      {
        if p < |s'| {
          assert s[p] == s'[p];
        }
      }
      if s' != [] && m <= c {
        var p :| 0 <= p < |s'| && m == Channel(axis, s'[p]);
        assert s[p] == s'[p];
      }
    }
  }

  /** `Highest` is the maximum of the decoded values (0 for no bucket). */
  lemma {:induction false} HighestIsMax(axis: Axis, s: seq<Bucket>)
    ensures forall p :: 0 <= p < |s| ==> Channel(axis, s[p]) <= Highest(axis, s)
    ensures s == [] ==> Highest(axis, s) == 0
    ensures s != [] ==> exists p :: 0 <= p < |s| && Highest(axis, s) == Channel(axis, s[p])
  {
    if s != [] {
      var s' := s[..|s| - 1];
      var m, c := Highest(axis, s'), Channel(axis, s[|s| - 1]);
      HighestIsMax(axis, s');
      assert Highest(axis, s) == if c > m then c else m;
      forall p | 0 <= p < |s|
        ensures Channel(axis, s[p]) <= Highest(axis, s)
      {
        if p < |s'| {
          assert s[p] == s'[p];
        }
      }
      if s' != [] && m >= c {
        var p :| 0 <= p < |s'| && m == Channel(axis, s'[p]);
        assert s[p] == s'[p];
      }
    }
  }

  // --------------------------------------------------------------- average

  lemma MulMonotone(a: int, b: int, w: int)
    requires a <= b && w >= 0
    ensures a * w <= b * w
  {
    assert b * w - a * w == (b - a) * w;
  }

  lemma Distribute(a: int, b: int, c: int)
    ensures a * (b + c) == a * b + a * c
  {
  }

  /** Weighted sums of values in `[lo, hi]` lie between `lo` and `hi` times the weight. */
  lemma {:induction false} ChannelSumBounds(axis: Axis, s: seq<Bucket>, h: Histogram, lo: int, hi: int)
    requires forall p :: 0 <= p < |s| ==> lo <= Channel(axis, s[p]) <= hi
    ensures lo * Weight(s, h) <= ChannelSum(axis, s, h) <= hi * Weight(s, h)
  {
    if s != [] {
      var s' := s[..|s| - 1];
      var x := s[|s| - 1];
      var w', w, c := Weight(s', h), h[x], Channel(axis, x);
      forall p | 0 <= p < |s'|
        ensures lo <= Channel(axis, s'[p]) <= hi
      {
        assert s'[p] == s[p];
      }
      ChannelSumBounds(axis, s', h, lo, hi);
      MulMonotone(lo, c, w);
      MulMonotone(c, hi, w);
      assert Weight(s, h) == w' + w;
      assert ChannelSum(axis, s, h) == ChannelSum(axis, s', h) + c * w;
      Distribute(lo, w', w);
      Distribute(hi, w', w);
    }
  }

  /** Floor division of a sum bounded by `lo*w` and `hi*w` lies in `[lo, hi]`. */
  lemma DivBetween(a: int, w: int, lo: int, hi: int)
    requires w > 0 && lo * w <= a <= hi * w
    ensures lo <= a / w <= hi
  {
    var q := a / w;
    assert a == q * w + a % w;
    if q < lo {
      MulMonotone(q + 1, lo, w);
    }
    if q > hi {
      MulMonotone(hi + 1, q, w);
    }
  }

  /**
   * The floor of the weighted mean of the decoded `axis` values: the
   * integer idealisation of `(byte)(sum / (float)count)`. It lies within the
   * extents of the buckets averaged.
   */
  function Average(axis: Axis, s: seq<Bucket>, h: Histogram): (v: Byte)
    requires Weight(s, h) > 0
    ensures Lowest(axis, s) <= v <= Highest(axis, s)
  {
    AverageBounds(axis, s, h);
    ChannelSum(axis, s, h) / Weight(s, h)
  }

  lemma AverageBounds(axis: Axis, s: seq<Bucket>, h: Histogram)
    requires Weight(s, h) > 0
    ensures 0 <= Lowest(axis, s) <= ChannelSum(axis, s, h) / Weight(s, h) <= Highest(axis, s) <= 255
  {
    LowestIsMin(axis, s);
    HighestIsMax(axis, s);
    ChannelSumBounds(axis, s, h, Lowest(axis, s), Highest(axis, s));
    DivBetween(ChannelSum(axis, s, h), Weight(s, h), Lowest(axis, s), Highest(axis, s));
  }

  /** The palette colour of a cube owning buckets `s`. */
  function Palette(s: seq<Bucket>, h: Histogram): Color
    requires Weight(s, h) > 0
  {
    Color(Average(RedAxis, s, h), Average(GreenAxis, s, h), Average(BlueAxis, s, h))
  }

  /** A single-bucket cube's palette colour is that bucket's decoded colour, exactly. */
  lemma PaletteOfSingleton(x: Bucket, h: Histogram)
    requires h[x] > 0
    ensures Weight([x], h) > 0
    ensures Palette([x], h) == Color(Red(x), Green(x), Blue(x))
  {
    assert [x][..0] == [];
    assert Weight([x], h) == h[x];
    forall axis: Axis
      ensures Average(axis, [x], h) == Channel(axis, x)
    {
      assert ChannelSum(axis, [x], h) == Channel(axis, x) * h[x];
      DivModUnique(Channel(axis, x) * h[x], h[x], Channel(axis, x), 0);
    }
  }
}

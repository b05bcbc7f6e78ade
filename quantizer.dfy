/**
 * `class ColorQuantizer` of ColorQuantizer.hpp/.cpp: the median-cut
 * algorithm over the fixed cube list `cubeList[MAXCOLORS]` and the reorder
 * buffer `histPtr[HSIZE]` (a file-level static in the source, a field of
 * the quantizer here), together with the static sort axis `longdim`.
 *
 * `medianCut` gathers the populated buckets into `histPtr`, then keeps
 * splitting the shallowest splittable cube at the weighted median of its
 * longest axis, and finally `invMap` averages each cube into a palette
 * entry and relabels the histogram with palette indices.
 */
module Quantizer {
  import opened Codec
  import opened Cubes
  import opened Sorting
  import opened Partition

  function Max(a: int, b: int): int { if a < b then b else a }
  function Min(a: int, b: int): int { if a < b then a else b }

  /** A cube can be split: it owns more than one bucket and is shallower than 255. */
  predicate Splittable(c: Cube)
  {
    c.lower != c.upper && c.level < 255
  }

  /** The byte `lr`, `lg` or `lb`: `max - min` on `axis`, cast to a byte. */
  function Spread(c: Cube, axis: Axis): Byte
  {
    (MaxOf(c, axis) - MinOf(c, axis)) % 256
  }

  /** The value the source stores in `longdim` for `axis`. */
  function DimCode(axis: Axis): int
  {
    match axis
    case RedAxis => 0
    case GreenAxis => 1
    case BlueAxis => 2
  }

  /**
   * `axis` has the largest spread, and among axes of equal spread it is the
   * last in red, green, blue order.
   */
  ghost predicate IsLongDim(c: Cube, axis: Axis)
  {
    && (forall a: Axis :: Spread(c, a) <= Spread(c, axis))
    && (forall a: Axis :: Spread(c, a) == Spread(c, axis) ==> DimCode(a) <= DimCode(axis))
  }

  /** The long axis is determined by the cube alone. */
  lemma LongDimUnique(c: Cube, a1: Axis, a2: Axis)
    requires IsLongDim(c, a1) && IsLongDim(c, a2)
    ensures a1 == a2
  {
    assert DimCode(a1) <= DimCode(a2) && DimCode(a2) <= DimCode(a1);
  }

  /** For a cube whose box is exact over some buckets, the byte spreads never wrap. */
  lemma SpreadNeverWraps(c: Cube, s: seq<Bucket>, axis: Axis)
    requires HasExtents(c, s) && s != []
    ensures 0 <= MaxOf(c, axis) - MinOf(c, axis) <= 248
    ensures Spread(c, axis) == MaxOf(c, axis) - MinOf(c, axis)
  {
    LowestIsMin(axis, s);
    HighestIsMax(axis, s);
    var p :| 0 <= p < |s| && Lowest(axis, s) == Channel(axis, s[p]);
    var q :| 0 <= q < |s| && Highest(axis, s) == Channel(axis, s[q]);
    assert MinOf(c, axis) == Lowest(axis, s) && MaxOf(c, axis) == Highest(axis, s);
    ExtentFitsByte(s[p], s[q], axis);
    var d := MaxOf(c, axis) - MinOf(c, axis);
    assert d == Channel(axis, s[q]) - Channel(axis, s[p]);
    assert Spread(c, axis) == d % 256;
  }

  /**
   * The choice of `longdim`: three tests in sequence, each overwriting the
   * previous choice, so a later axis wins a tie. `longdim` is the static's
   * value before the tests; one of the tests always succeeds, so it never
   * survives.
   */
  method LongDim(cube: Cube, longdim: Axis) returns (axis: Axis)
    ensures IsLongDim(cube, axis)
  {
    var lr := (cube.rmax - cube.rmin) % 256;
    var lg := (cube.gmax - cube.gmin) % 256;
    var lb := (cube.bmax - cube.bmin) % 256;
    axis := longdim;
    if lr >= lg && lr >= lb { axis := RedAxis; }
    if lg >= lr && lg >= lb { axis := GreenAxis; }
    if lb >= lr && lb >= lg { axis := BlueAxis; }
    assert lr == Spread(cube, RedAxis) && lg == Spread(cube, GreenAxis) && lb == Spread(cube, BlueAxis);
  }

  /**
   * `median` is where the weighted-median scan over the range of `c` stops:
   * no earlier position in `[lower, median)` gathers half the cube's count
   * (rounded down), and `median` itself does unless it is `upper`.
   */
  ghost predicate IsWeightedMedian(ptr: seq<Bucket>, h: Histogram, c: Cube, median: int)
  {
    && 0 <= c.lower <= median <= c.upper < |ptr|
    && (forall m :: c.lower <= m < median ==> ShortOfHalf(ptr, h, c, m))
    && (median == c.upper || Weight(ptr[c.lower..median], h) >= c.count / 2)
  }

  /** The buckets of `c` before position `m` weigh less than half its count. */
  ghost predicate ShortOfHalf(ptr: seq<Bucket>, h: Histogram, c: Cube, m: int)
  {
    0 <= c.lower <= m <= |ptr| ==> Weight(ptr[c.lower..m], h) < c.count / 2
  }

  /**
   * Cube `s` of `cs` is the one the main loop picks: splittable, of least
   * level among the splittable cubes, and the first of that level.
   */
  ghost predicate IsSplitChoice(cs: seq<Cube>, s: int)
  {
    && 0 <= s < |cs| && Splittable(cs[s])
    && (forall k :: 0 <= k < |cs| && Splittable(cs[k]) ==> cs[s].level <= cs[k].level)
    && (forall k :: 0 <= k < s && Splittable(cs[k]) ==> cs[s].level < cs[k].level)
  }

  /** At most one cube is the loop's choice: the choice is determined by the cube list. */
  lemma SplitChoiceUnique(cs: seq<Cube>, s1: int, s2: int)
    requires IsSplitChoice(cs, s1) && IsSplitChoice(cs, s2)
    ensures s1 == s2
  {
  }

  /**
   * `cs'` is `cs` after one split of cube `s` as the main loop does it:
   * `axis` is the cube's long axis, its range of the buffer is rearranged
   * (from `ptr0` to `ptr1`) into ascending order on that axis and cut at
   * the weighted `median`; the part `[lower, median-1]` replaces the cube
   * at `s` and the part `[median, upper]` is appended. Every other cube is
   * kept where it was.
   */
  ghost predicate IsSplit(cs: seq<Cube>, ptr0: seq<Bucket>, ptr1: seq<Bucket>, h: Histogram,
                          s: int, axis: Axis, median: int, cs': seq<Cube>)
  {
    && 0 <= s < |cs| && |cs'| == |cs| + 1
    && IsCut(ptr0, ptr1, h, cs[s], axis, median, cs'[s], cs'[|cs|])
    && forall k :: 0 <= k < |cs| && k != s ==> cs'[k] == cs[k]
  }

  /**
   * The work of one split on the buffer, from `ptr0` to `ptr1`: `axis` is
   * the long axis of `c`, its range is rearranged into ascending order on
   * that axis and cut at the weighted `median` into the children `a`
   * (`[lower, median-1]`) and `b` (`[median, upper]`).
   */
  ghost predicate IsCut(ptr0: seq<Bucket>, ptr1: seq<Bucket>, h: Histogram, c: Cube, axis: Axis,
                        median: int, a: Cube, b: Cube)
  {
    && IsLongDim(c, axis)
    && RearrangedWithin(ptr0, ptr1, c.lower, c.upper)
    && SortedBy(axis, ptr1[c.lower..c.upper + 1])
    && IsWeightedMedian(ptr1, h, c, median)
    && a == Child(c, c.lower, median - 1, ptr1, h)
    && b == Child(c, median, c.upper, ptr1, h)
  }

  /**
   * Cutting cube `s` of a partition and storing its two children as the
   * loop does is the split `IsSplit` describes, and keeps the invariant.
   */
  lemma CutSplits(cs: seq<Cube>, ptr0: seq<Bucket>, ptr1: seq<Bucket>, owner: seq<int>, h: Histogram, n: int,
                  s: int, axis: Axis, median: int, a: Cube, b: Cube, cs': seq<Cube>)
    requires Inv(cs, ptr0, owner, h, n) && 0 <= s < |cs| && cs[s].lower != cs[s].upper
    requires IsCut(ptr0, ptr1, h, cs[s], axis, median, a, b)
    requires cs' == cs[s := a] + [b]
    ensures IsSplit(cs, ptr0, ptr1, h, s, axis, median, cs')
    ensures Inv(cs', ptr1, SplitOwner(owner, median, cs[s].upper, |cs|), h, n)
  {
    CutKeepsInv(cs, ptr0, ptr1, owner, h, n, s, median, a, b);
    SplitOutcome(cs, ptr0, ptr1, h, s, axis, median, a, b, cs');
  }

  /**
   * Rearranging the range of cube `s` as `SortAndCut` does and storing its
   * two children as the loop does gives the list `IsSplit` describes.
   */
  lemma SplitOutcome(cs: seq<Cube>, ptr0: seq<Bucket>, ptr1: seq<Bucket>, h: Histogram, s: int, axis: Axis,
                     median: int, a: Cube, b: Cube, cs': seq<Cube>)
    requires 0 <= s < |cs| && IsCut(ptr0, ptr1, h, cs[s], axis, median, a, b)
    requires cs' == cs[s := a] + [b]
    ensures IsSplit(cs, ptr0, ptr1, h, s, axis, median, cs')
  {
    assert cs'[s] == a && cs'[|cs|] == b;
  }


  /**
   * Cutting cube `s` of a partition at its weighted median, once its range
   * is rearranged, into the two children replaces it by both and keeps the
   * invariant.
   */
  lemma CutKeepsInv(cs: seq<Cube>, ptr0: seq<Bucket>, ptr1: seq<Bucket>, owner: seq<int>, h: Histogram, n: int,
                    s: int, median: int, a: Cube, b: Cube)
    requires Inv(cs, ptr0, owner, h, n) && 0 <= s < |cs| && cs[s].lower != cs[s].upper
    requires RearrangedWithin(ptr0, ptr1, cs[s].lower, cs[s].upper)
    requires IsWeightedMedian(ptr1, h, cs[s], median)
    requires a == Child(cs[s], cs[s].lower, median - 1, ptr1, h)
    requires b == Child(cs[s], median, cs[s].upper, ptr1, h)
    ensures Inv(cs[s := a] + [b], ptr1, SplitOwner(owner, median, cs[s].upper, |cs|), h, n)
  {
    CubeWeight(cs, ptr0, owner, h, n, s);
    MedianInside(ptr1, h, cs[s], median);
    assert ExactAt(cs, ptr0, h, s);
    ChildrenSplit(cs[s], median, ptr0, ptr1, h, a, b);
    SplitKeepsInv(cs, ptr0, ptr1, owner, h, n, s, median, a, b);
  }

  /** A cube weighing at least two is cut strictly inside its range: both parts are non-empty. */
  lemma MedianInside(ptr: seq<Bucket>, h: Histogram, c: Cube, median: int)
    requires IsWeightedMedian(ptr, h, c, median) && c.lower < c.upper && 2 <= c.count
    ensures c.lower < median <= c.upper
  {
    assert ptr[c.lower..c.lower] == [];
  }

  /** Entry `k` of `pal` is the mean colour of the buckets cube `k` of `cs` owns. */
  ghost predicate IsPalette(pal: seq<Color>, cs: seq<Cube>, ptr: seq<Bucket>, h: Histogram)
  {
    |pal| == |cs| && forall k :: PaletteAt(pal, cs, ptr, h, k)
  }

  /** Entry `k`, when cube `k` exists, owns weight and is its mean colour. */
  ghost predicate PaletteAt(pal: seq<Color>, cs: seq<Cube>, ptr: seq<Bucket>, h: Histogram, k: int)
  {
    0 <= k < |cs| ==>
      k < |pal| && Weight(Members(cs[k], ptr), h) > 0 && pal[k] == Palette(Members(cs[k], ptr), h)
  }

  /** Cube `k`, when it exists, covers a range of the buffer whose weight is its positive count. */
  ghost predicate CountAt(cs: seq<Cube>, ptr: seq<Bucket>, h: Histogram, k: int)
  {
    0 <= k < |cs| ==>
      0 <= cs[k].lower <= cs[k].upper < |ptr| && cs[k].count == Weight(Members(cs[k], ptr), h) > 0
  }

  /** Final cubes have a range of the buffer whose weight is their positive count. */
  lemma FinalCounts(cs: seq<Cube>, ptr: seq<Bucket>, h: Histogram)
    requires forall k :: FinalAt(cs, ptr, h, k)
    ensures forall k :: CountAt(cs, ptr, h, k)
  {
    forall k
      ensures CountAt(cs, ptr, h, k)
    {
      assert FinalAt(cs, ptr, h, k);
    }
  }

  /** A palette for the first `k` cubes, extended by the mean colour of cube `k`. */
  lemma PaletteAppend(pal: seq<Color>, cs: seq<Cube>, ptr: seq<Bucket>, h: Histogram, k: int, c: Color)
    requires 0 <= k < |cs| && |pal| == k
    requires forall j :: 0 <= j < k ==> PaletteAt(pal, cs, ptr, h, j)
    requires Weight(Members(cs[k], ptr), h) > 0 && c == Palette(Members(cs[k], ptr), h)
    ensures forall j :: 0 <= j < k + 1 ==> PaletteAt(pal + [c], cs, ptr, h, j)
  {
    forall j | 0 <= j < k + 1
      ensures PaletteAt(pal + [c], cs, ptr, h, j)
    {
      if j < k {
        assert PaletteAt(pal, cs, ptr, h, j);
      }
    }
  }


  /**
   * `cube.upper = color - 1` as the source writes it: `upper` is a 16-bit
   * word, so an empty histogram (`color == 0`) wraps it to 65535.
   */
  function RootUpperAsWritten(color: int): (u: Word)
    requires 0 <= color <= HSIZE
    ensures 1 <= color ==> u == color - 1 && u < HSIZE
    ensures color == 0 ==> u == 65535
  {
    (color - 1) % 65536
  }

  /** The guard of the `shrink` loop, `i <= upper`, on a word counter. */
  predicate ShrinkGuard(i: Word, upper: Word)
  {
    i <= upper
  }

  /** `i++` on a word counter. */
  function NextWord(i: Word): Word
  {
    (i + 1) % 65536
  }

  /**
   * With an empty histogram the root's `upper` lies past the buffer: the
   * `shrink` loop's guard holds for every word, the counter wraps from
   * 65535 back to 0, so the loop never ends, and it reaches `i == HSIZE`,
   * one past the end of `histPtr`.
   */
  lemma EmptyHistogramOverruns()
    ensures RootUpperAsWritten(0) >= HSIZE
    ensures forall i: Word :: ShrinkGuard(i, RootUpperAsWritten(0))
    ensures NextWord(65535) == 0 && ShrinkGuard(HSIZE, RootUpperAsWritten(0))
  {
  }

  class ColorQuantizer {
    /** cube_t cubeList[MAXCOLORS]. */
    const cubeList: array<Cube>
    /** The reorder buffer histPtr[HSIZE]: populated buckets, grouped by cube. */
    const histPtr: array<Bucket>
    /** The static `longdim` read by compare(). */
    var longdim: Axis

    ghost predicate Valid()
    {
      cubeList.Length == MAXCOLORS && histPtr.Length == HSIZE
    }

    constructor ()
      ensures Valid() && fresh(cubeList) && fresh(histPtr)
    {
      cubeList := new Cube[MAXCOLORS](_ => Cube(0, 0, 0, 0, 255, 0, 255, 0, 255, 0));
      histPtr := new Bucket[HSIZE](_ => 0);
      longdim := RedAxis;
    }

    /**
     * shrink(): recomputes the box of `cube` over the buckets it owns,
     * `histPtr[lower..upper]`, leaving every other field as it was. An
     * empty range leaves the starting box (255, 0) on each axis.
     */
    method Shrink(cube: Cube) returns (c: Cube)
      requires Valid() && 0 <= cube.lower <= cube.upper + 1 <= HSIZE
      ensures c == WithBox(cube, histPtr[cube.lower..cube.upper + 1])
    {
      c := cube.(rmin := 255, rmax := 0, gmin := 255, gmax := 0, bmin := 255, bmax := 0);
      var i := cube.lower;
      while i <= cube.upper
        invariant cube.lower <= i <= cube.upper + 1
        invariant c == WithBox(cube, histPtr[cube.lower..i])
      {
        var color := histPtr[i];
        assert histPtr[cube.lower..i + 1][..i - cube.lower] == histPtr[cube.lower..i];
        var r := Red(color);
        if r > c.rmax { c := c.(rmax := r); }
        if r < c.rmin { c := c.(rmin := r); }
        var g := Green(color);
        if g > c.gmax { c := c.(gmax := g); }
        if g < c.gmin { c := c.(gmin := g); }
        var b := Blue(color);
        if b > c.bmax { c := c.(bmax := b); }
        if b < c.bmin { c := c.(bmin := b); }
        i := i + 1;
      }
    }

    /**
     * The scan for a cube to split: the first of the `ncubes` live cubes
     * with the smallest level among the splittable ones, or -1 when none is
     * splittable.
     */
    method SelectSplit(ncubes: int) returns (splitpos: int)
      requires Valid() && 0 <= ncubes <= MAXCOLORS
      ensures -1 <= splitpos < ncubes
      ensures splitpos == -1 <==> forall k :: 0 <= k < ncubes ==> !Splittable(cubeList[k])
      ensures splitpos >= 0 ==> IsSplitChoice(cubeList[..ncubes], splitpos)
    {
      var level := 255;
      splitpos := -1;
      var k := 0;
      while k < ncubes
        invariant 0 <= k <= ncubes
        invariant -1 <= splitpos < k
        invariant splitpos == -1 ==> level == 255 && forall j :: 0 <= j < k ==> !Splittable(cubeList[j])
        invariant splitpos >= 0 ==>
          && level == cubeList[splitpos].level
          && Splittable(cubeList[splitpos])
          && (forall j :: 0 <= j < k && Splittable(cubeList[j]) ==> level <= cubeList[j].level)
          && (forall j :: 0 <= j < splitpos && Splittable(cubeList[j]) ==> level < cubeList[j].level)
      {
        if cubeList[k].lower != cubeList[k].upper && cubeList[k].level < level {
          level := cubeList[k].level;
          splitpos := k;
        }
        k := k + 1;
      }
    }

    /**
     * The weighted-median scan over the (sorted) range of `cube`: `median`
     * is the first position from `lower` at which the weight of
     * `histPtr[lower..median-1]` reaches half the cube's count, or `upper`
     * if none before it does; `count` is that weight.
     */
    method FindMedian(hist: array<Word>, cube: Cube) returns (median: int, count: int)
      requires Valid() && hist.Length == HSIZE
      requires 0 <= cube.lower < cube.upper < HSIZE && 0 <= cube.count
      ensures IsWeightedMedian(histPtr[..], hist[..], cube, median)
      ensures count == Weight(histPtr[cube.lower..median], hist[..])
    {
      ghost var ptr, h := histPtr[..], hist[..];
      count := 0;
      var i := cube.lower;
      // the source's `break` when the half is reached is the second conjunct
      while i <= cube.upper - 1 && count < cube.count / 2
        invariant cube.lower <= i <= cube.upper
        invariant count == Weight(ptr[cube.lower..i], h)
        invariant forall m :: cube.lower <= m < i ==> ShortOfHalf(ptr, h, cube, m)
      {
        var color := histPtr[i];
        assert ShortOfHalf(ptr, h, cube, i);
        assert color == ptr[i] && hist[color] == h[color];
        WeightStep(ptr, h, cube.lower, i);
        count := count + hist[color];
        i := i + 1;
      }
      median := i;
      assert histPtr[cube.lower..median] == ptr[cube.lower..median];
    }

    /**
     * The first loop of medianCut: packs the populated buckets into
     * `histPtr[0..color-1]` in ascending order and sums the histogram.
     */
    method CollectPopulated(hist: array<Word>) returns (color: int, total: int)
      requires Valid() && hist.Length == HSIZE
      modifies histPtr
      ensures 0 <= color <= HSIZE
      ensures histPtr[..color] == Populated(hist[..], HSIZE)
      ensures total == Total(hist[..])
    {
      ghost var h: Histogram := hist[..];
      color, total := 0, 0;
      var i := 0;
      while i <= HSIZE - 1
        invariant 0 <= color <= i <= HSIZE
        invariant histPtr[..color] == Populated(h, i)
        invariant total == SumTo(h, i)
      {
        if hist[i] != 0 {
          histPtr[color] := i;
          assert histPtr[..color + 1] == histPtr[..color] + [i];
          color := color + 1;
          total := total + hist[i];
        }
        i := i + 1;
      }
    }

    /**
     * Sets `longdim` to the long axis of `cube` and sorts the cube's range
     * of `histPtr` by it (the `qsort` call with `compare`).
     */
    method SortLongDim(cube: Cube)
      requires Valid() && 0 <= cube.lower <= cube.upper < HSIZE
      modifies this, histPtr
      ensures IsLongDim(cube, longdim)
      ensures RearrangedWithin(old(histPtr[..]), histPtr[..], cube.lower, cube.upper)
      ensures SortedBy(longdim, histPtr[cube.lower..cube.upper + 1])
    {
      ghost var before := histPtr[..];
      longdim := LongDim(cube, longdim);
      SortRange(histPtr, cube.lower, cube.upper, longdim);
      assert histPtr[..][cube.lower..cube.upper + 1] == histPtr[cube.lower..cube.upper + 1];
      assert before[cube.lower..cube.upper + 1] == old(histPtr[cube.lower..cube.upper + 1]);
      RearrangesMultiset(histPtr[..][cube.lower..cube.upper + 1], before[cube.lower..cube.upper + 1]);
    }

    /**
     * One pass of the main loop: choose the cube to split; when there is
     * none, report `done` (every cube then owns one bucket, so there are
     * as many cubes as populated buckets); otherwise split it. Either way
     * the invariant holds of the cubes that are then live.
     */
    method SplitStep(hist: array<Word>, ncubes: int, ghost owner: seq<int>, ghost n: int)
        returns (done: bool, splitpos: int, median: int, ghost owner': seq<int>)
      requires Valid() && hist.Length == HSIZE && 1 <= ncubes < MAXCOLORS
      requires Inv(cubeList[..ncubes], histPtr[..], owner, hist[..], n)
      modifies this, cubeList, histPtr
      ensures done <==> forall k :: 0 <= k < ncubes ==> !Splittable(old(cubeList[k]))
      ensures done ==>
        && unchanged(this, cubeList, histPtr)
        && ncubes == n && forall k :: 0 <= k < ncubes ==> cubeList[k].lower == cubeList[k].upper
      ensures !done ==>
        && IsSplitChoice(old(cubeList[..ncubes]), splitpos)
        && IsSplit(old(cubeList[..ncubes]), old(histPtr[..]), histPtr[..], hist[..],
                   splitpos, longdim, median, cubeList[..ncubes + 1])
      ensures Inv(cubeList[..if done then ncubes else ncubes + 1], histPtr[..], owner', hist[..], n)
    {
      splitpos := SelectSplit(ncubes);
      if splitpos == -1 {
        NoSplitMeansSingletons(cubeList[..ncubes], histPtr[..], owner, hist[..], n);
        return true, splitpos, 0, owner;
      }
      median, owner' := SplitAt(hist, splitpos, ncubes, owner, n);
      done := false;
    }

    /**
     * The split of the cube at `splitpos`: sort its range by its long axis,
     * cut it at the weighted median, store the lower part at `splitpos`
     * and append the upper part at `ncubes`, keeping the invariant.
     */
    method SplitAt(hist: array<Word>, splitpos: int, ncubes: int, ghost owner: seq<int>, ghost n: int)
        returns (median: int, ghost owner': seq<int>)
      requires Valid() && hist.Length == HSIZE && 0 <= splitpos < ncubes < MAXCOLORS
      requires Inv(cubeList[..ncubes], histPtr[..], owner, hist[..], n)
      requires cubeList[splitpos].lower != cubeList[splitpos].upper
      modifies this, cubeList, histPtr
      ensures IsSplit(old(cubeList[..ncubes]), old(histPtr[..]), histPtr[..], hist[..],
                      splitpos, longdim, median, cubeList[..ncubes + 1])
      ensures Inv(cubeList[..ncubes + 1], histPtr[..], owner', hist[..], n)
    {
      ghost var cs, ptr0, h := cubeList[..ncubes], histPtr[..], hist[..];
      CubeWeight(cs, ptr0, owner, h, n, splitpos);
      var cube := cubeList[splitpos];
      var cubeA, cubeB;
      median, cubeA, cubeB := SortAndCut(hist, cube);
      ghost var ptr1 := histPtr[..];
      StoreParts(splitpos, ncubes, cubeA, cubeB);
      CutSplits(cs, ptr0, ptr1, owner, h, n, splitpos, longdim, median, cubeA, cubeB, cubeList[..ncubes + 1]);
      owner' := SplitOwner(owner, median, cube.upper, ncubes);
    }

    /** `cubeList[splitpos] = cubeA; cubeList[ncubes++] = cubeB;` */
    method StoreParts(splitpos: int, ncubes: int, cubeA: Cube, cubeB: Cube)
      requires Valid() && 0 <= splitpos < ncubes < MAXCOLORS
      modifies cubeList
      ensures cubeList[..ncubes + 1] == old(cubeList[..ncubes])[splitpos := cubeA] + [cubeB]
    {
      ghost var list := cubeList[..];
      cubeList[splitpos] := cubeA;
      cubeList[ncubes] := cubeB;
      ListAfterSplit(list, cubeList[..], splitpos, ncubes, cubeA, cubeB);
    }

    /**
     * The work of one split on the buffer: sort the range of `cube` by its
     * long axis, then cut it at the weighted median into the two parts.
     */
    method SortAndCut(hist: array<Word>, cube: Cube) returns (median: int, cubeA: Cube, cubeB: Cube)
      requires Valid() && hist.Length == HSIZE
      requires 0 <= cube.lower < cube.upper < HSIZE
      requires cube.count == Weight(Members(cube, histPtr[..]), hist[..])
      modifies this, histPtr
      ensures IsCut(old(histPtr[..]), histPtr[..], hist[..], cube, longdim, median, cubeA, cubeB)
    {
      ghost var before := histPtr[..];
      SortLongDim(cube);
      assert histPtr[cube.lower..cube.upper + 1] == histPtr[..][cube.lower..cube.upper + 1];
      assert Members(cube, before) == before[cube.lower..cube.upper + 1];
      RearrangesMultiset(histPtr[cube.lower..cube.upper + 1], before[cube.lower..cube.upper + 1]);
      WeightPermutation(histPtr[cube.lower..cube.upper + 1], before[cube.lower..cube.upper + 1], hist[..]);
      median, cubeA, cubeB := CutAtMedian(hist, cube);
    }

    /**
     * The median scan and the construction of the two parts over the
     * sorted range of `cube`: `cubeA` owns `[lower, median-1]` with the
     * weight scanned, `cubeB` owns `[median, upper]` with the rest of the
     * count, both one level deeper and shrunk to their buckets.
     */
    method CutAtMedian(hist: array<Word>, cube: Cube) returns (median: int, cubeA: Cube, cubeB: Cube)
      requires Valid() && hist.Length == HSIZE
      requires 0 <= cube.lower < cube.upper < HSIZE
      requires cube.count == Weight(histPtr[cube.lower..cube.upper + 1], hist[..])
      ensures IsWeightedMedian(histPtr[..], hist[..], cube, median)
      ensures cubeA == Child(cube, cube.lower, median - 1, histPtr[..], hist[..])
      ensures cubeB == Child(cube, median, cube.upper, histPtr[..], hist[..])
    {
      ghost var ptr, h := histPtr[..], hist[..];
      var count;
      median, count := FindMedian(hist, cube);
      assert ptr[cube.lower..median] == histPtr[cube.lower..median];
      assert ptr[median..cube.upper + 1] == histPtr[median..cube.upper + 1];
      assert ptr[cube.lower..cube.upper + 1] == histPtr[cube.lower..cube.upper + 1];
      WeightSplit(ptr, cube.lower, median, cube.upper, h);
      cubeA := Part(hist, cube, cube.lower, median - 1, count);
      cubeB := Part(hist, cube, median, cube.upper, cube.count - count);
    }

    /**
     * One part of a split as the source builds it: `cube` with range
     * `[lo, hi]`, the given count and one more level, then shrunk to the
     * buckets of that range.
     */
    method Part(hist: array<Word>, cube: Cube, lo: int, hi: int, count: int) returns (d: Cube)
      requires Valid() && hist.Length == HSIZE && 0 <= lo <= hi + 1 <= HSIZE
      requires count == Weight(histPtr[lo..hi + 1], hist[..])
      ensures d == Child(cube, lo, hi, histPtr[..], hist[..])
    {
      d := cube.(lower := lo, upper := hi, count := count, level := cube.level + 1);
      d := Shrink(d);
      ShrunkIsChild(cube, lo, hi, histPtr[..], hist[..], count, d);
    }

    /**
     * invMap(): first sets palette entry `k` of each live cube to the
     * count-weighted mean colour of the buckets it owns, then overwrites
     * `hist[b]` of every owned bucket `b` with the index of its cube.
     * Buckets no cube owns (the unpopulated ones) keep their zero.
     */
    method InvMap(hist: array<Word>, colMap: array<Color>, ncubes: int, ghost owner: seq<int>, ghost n: int)
      requires Valid() && hist.Length == HSIZE
      requires 1 <= ncubes <= colMap.Length && ncubes <= MAXCOLORS
      requires Inv(cubeList[..ncubes], histPtr[..], owner, hist[..], n)
      modifies hist, colMap
      ensures IsPalette(colMap[..ncubes], cubeList[..ncubes], histPtr[..], old(hist[..]))
      ensures colMap[ncubes..] == old(colMap[ncubes..])
      ensures Quantized(cubeList[..ncubes], histPtr[..], old(hist[..]), hist[..])
    {
      ghost var h: Histogram := hist[..];
      ghost var cs, ptr := cubeList[..ncubes], histPtr[..];
      BufferFacts(cs, ptr, owner, h, n);
      AllCubesExact(cs, ptr, owner, h, n);
      FinalCounts(cs, ptr, h);
      FillPalette(hist, colMap, ncubes);
      Relabel(hist, ncubes, owner, n);
      InvQuantized(cs, ptr, owner, h, n, hist[..]);
    }

    /** The first pass of invMap: the palette entry of each cube is its mean colour. */
    method FillPalette(hist: array<Word>, colMap: array<Color>, ncubes: int)
      requires Valid() && hist.Length == HSIZE
      requires 0 <= ncubes <= colMap.Length && ncubes <= MAXCOLORS
      requires forall k :: CountAt(cubeList[..ncubes], histPtr[..], hist[..], k)
      modifies colMap
      ensures IsPalette(colMap[..ncubes], cubeList[..ncubes], histPtr[..], hist[..])
      ensures colMap[ncubes..] == old(colMap[ncubes..])
    {
      ghost var cs, ptr, h := cubeList[..ncubes], histPtr[..], hist[..];
      ghost var pal: seq<Color> := [];
      var k := 0;
      while k < ncubes
        invariant 0 <= k <= ncubes
        invariant |pal| == k && forall j :: 0 <= j < k ==> PaletteAt(pal, cs, ptr, h, j)
        invariant forall j :: 0 <= j < k ==> colMap[j] == pal[j]
        invariant forall j :: k <= j < colMap.Length ==> colMap[j] == old(colMap[j])
        invariant histPtr[..] == ptr && hist[..] == h && cubeList[..ncubes] == cs
      {
        assert CountAt(cs, ptr, h, k);
        var c := MeanColor(hist, cubeList[k]);
        colMap[k] := c;
        PaletteAppend(pal, cs, ptr, h, k, c);
        pal := pal + [c];
        k := k + 1;
      }
      assert colMap[..ncubes] == pal;
    }

    /**
     * The body of invMap's first pass for one cube: the count-weighted
     * mean of the decoded colours of the buckets it owns, each channel
     * rounded down.
     */
    method MeanColor(hist: array<Word>, cube: Cube) returns (c: Color)
      requires Valid() && hist.Length == HSIZE
      requires 0 <= cube.lower <= cube.upper < HSIZE
      requires cube.count == Weight(Members(cube, histPtr[..]), hist[..]) && 0 < cube.count
      ensures Weight(Members(cube, histPtr[..]), hist[..]) > 0
      ensures c == Palette(Members(cube, histPtr[..]), hist[..])
    {
      ghost var h: Histogram := hist[..];
      var rsum, gsum, bsum := 0, 0, 0;
      var i := cube.lower;
      while i <= cube.upper
        invariant cube.lower <= i <= cube.upper + 1
        invariant rsum == ChannelSum(RedAxis, histPtr[cube.lower..i], h)
        invariant gsum == ChannelSum(GreenAxis, histPtr[cube.lower..i], h)
        invariant bsum == ChannelSum(BlueAxis, histPtr[cube.lower..i], h)
      {
        var color := histPtr[i];
        assert histPtr[cube.lower..i + 1][..i - cube.lower] == histPtr[cube.lower..i];
        rsum := rsum + Red(color) * hist[color];
        gsum := gsum + Green(color) * hist[color];
        bsum := bsum + Blue(color) * hist[color];
        i := i + 1;
      }
      ghost var s := Members(cube, histPtr[..]);
      assert s == histPtr[cube.lower..i];
      assert rsum / cube.count == Average(RedAxis, s, h);
      assert gsum / cube.count == Average(GreenAxis, s, h);
      assert bsum / cube.count == Average(BlueAxis, s, h);
      c := Color(rsum / cube.count, gsum / cube.count, bsum / cube.count);
    }

    /**
     * The second pass of invMap: writes into `hist` the owner of every
     * buffer position, cube by cube. Only populated buckets are written.
     */
    method Relabel(hist: array<Word>, ncubes: int, ghost owner: seq<int>, ghost n: int)
      requires Valid() && hist.Length == HSIZE && 0 <= ncubes <= MAXCOLORS && n <= HSIZE
      requires Tiles(cubeList[..ncubes], owner, n)
      requires Distinct(histPtr[..n]) && AllPopulated(histPtr[..n], hist[..])
      modifies hist
      ensures forall p :: 0 <= p < n ==> hist[histPtr[p]] == owner[p]
      ensures forall b: Bucket :: old(hist[b]) == 0 ==> hist[b] == 0
      ensures forall b: Bucket :: b !in histPtr[..n] ==> hist[b] == old(hist[b])
    {
      ghost var h: Histogram := hist[..];
      ghost var cs := cubeList[..ncubes];
      ghost var done: set<Bucket> := {};
      forall p | 0 <= p < n
        ensures 0 <= owner[p] < ncubes
      {
        assert OwnedAt(cs, owner, n, p);
      }
      var k := 0;
      while k < ncubes
        invariant 0 <= k <= ncubes
        invariant forall p :: 0 <= p < n && owner[p] < k ==> hist[histPtr[p]] == owner[p]
        invariant forall b: Bucket :: b !in done ==> hist[b] == h[b]
        invariant forall b :: b in done ==> h[b] != 0 && b in histPtr[..n]
      {
        var cube := cubeList[k];
        assert cube == cs[k] && InRange(cs, n, k);
        forall p | 0 <= p < n && owner[p] == k
          ensures cube.lower <= p <= cube.upper
        {
          assert OwnedAt(cs, owner, n, p);
        }
        var i := cube.lower;
        while i <= cube.upper
          invariant cube.lower <= i <= cube.upper + 1
          invariant forall p :: 0 <= p < n && (owner[p] < k || (owner[p] == k && p < i)) ==>
                      hist[histPtr[p]] == owner[p]
          invariant forall b: Bucket :: b !in done ==> hist[b] == h[b]
          invariant forall b :: b in done ==> h[b] != 0 && b in histPtr[..n]
        {
          var color := histPtr[i];
          assert SoleOwner(cs, owner, n, k, i);
          assert color == histPtr[..n][i];
          forall p | 0 <= p < n && p != i
            ensures histPtr[p] != color
          {
            assert histPtr[p] == histPtr[..n][p];
          }
          hist[color] := k;
          done := done + {color};
          i := i + 1;
        }
        k := k + 1;
      }
    }

    /**
     * The start of medianCut: packs the populated buckets into `histPtr` in
     * ascending order and, when there is one, stores at `cubeList[0]` the
     * root cube owning all of them, at level 0, with count the histogram
     * total and an exact box.
     */
    method BuildRoot(hist: array<Word>) returns (color: int, ghost owner: seq<int>)
      requires Valid() && hist.Length == HSIZE
      modifies cubeList, histPtr
      ensures 0 <= color <= HSIZE && histPtr[..color] == Populated(hist[..], HSIZE)
      ensures color == 0 ==> forall b: Bucket :: hist[b] == 0
      ensures 1 <= color ==>
        && cubeList[0].lower == 0 && cubeList[0].upper == color - 1 && cubeList[0].level == 0
        && Inv(cubeList[..1], histPtr[..], owner, hist[..], color)
    {
      ghost var h: Histogram := hist[..];
      var total;
      color, total := CollectPopulated(hist);
      owner := seq(color, p => 0);
      if color == 0 {
        NonePopulated(h);
        return;
      }
      var cube := Cube(0, RootUpperAsWritten(color), total, 0, 0, 0, 0, 0, 0, 0);
      cube := Shrink(cube);
      cubeList[0] := cube;
      InitialInv(histPtr[..], h, color, cube);
      assert cubeList[..1] == [cube];
    }

    /**
     * The main loop of medianCut, from the root cube: split the chosen cube
     * while there are fewer than `maxCubes` cubes and one can be split.
     * It ends with `maxCubes` cubes (at least one), or earlier with one
     * cube per populated bucket.
     */
    method SplitLoop(hist: array<Word>, maxCubes: int, ghost n: int, ghost owner0: seq<int>)
        returns (ncubes: int, ghost owner: seq<int>)
      requires Valid() && hist.Length == HSIZE && maxCubes <= MAXCOLORS
      requires Inv(cubeList[..1], histPtr[..], owner0, hist[..], n)
      modifies this, cubeList, histPtr
      ensures ncubes == Min(Max(maxCubes, 1), n)
      ensures ncubes < maxCubes ==> forall k :: 0 <= k < ncubes ==> cubeList[k].lower == cubeList[k].upper
      ensures Inv(cubeList[..ncubes], histPtr[..], owner, hist[..], n)
    {
      ghost var h: Histogram := hist[..];
      ncubes, owner := 1, owner0;
      // `done` is the source's `break` when no cube can be split
      var done := false;
      while ncubes < maxCubes && !done
        invariant 1 <= ncubes <= Max(maxCubes, 1)
        invariant Inv(cubeList[..ncubes], histPtr[..], owner, h, n)
        invariant hist[..] == h
        invariant done ==> ncubes == n && forall k :: 0 <= k < ncubes ==> cubeList[k].lower == cubeList[k].upper
        decreases maxCubes - ncubes, if done then 0 else 1
      {
        var splitpos, median;
        done, splitpos, median, owner := SplitStep(hist, ncubes, owner, n);
        assert hist[..] == h;
        ncubes := if done then ncubes else ncubes + 1;
      }
      CubesAtMostBuckets(cubeList[..ncubes], histPtr[..], owner, h, n);
    }

    /**
     * medianCut(): quantizes the histogram `hist` to at most `maxCubes`
     * colours (at least one). The result is the number of palette entries
     * written to `colMap`; on return every populated bucket's `hist` entry
     * is the index of the cube, and palette entry, it falls in.
     *
     * An empty histogram yields no cubes and leaves everything unchanged;
     * see RootUpperAsWritten for what the source does instead.
     */
    method MedianCut(hist: array<Word>, colMap: array<Color>, maxCubes: int) returns (ncubes: Word)
      requires Valid() && hist.Length == HSIZE
      requires maxCubes <= MAXCOLORS && Max(maxCubes, 1) <= colMap.Length
      modifies this, cubeList, histPtr, hist, colMap
      ensures var n := |Populated(old(hist[..]), HSIZE)|;
        ncubes == if n == 0 then 0 else Min(Max(maxCubes, 1), n)
      ensures ncubes <= MAXCOLORS
      ensures ncubes < maxCubes ==> forall k :: 0 <= k < ncubes ==> cubeList[k].lower == cubeList[k].upper
      ensures Quantized(cubeList[..ncubes], histPtr[..], old(hist[..]), hist[..])
      ensures SumCounts(cubeList[..ncubes], ncubes) == Total(old(hist[..]))
      ensures IsPalette(colMap[..ncubes], cubeList[..ncubes], histPtr[..], old(hist[..]))
      ensures colMap[ncubes..] == old(colMap[ncubes..])
    {
      ghost var h: Histogram := hist[..];
      var color;
      ghost var owner;
      color, owner := BuildRoot(hist);
      if color == 0 {
        EmptyQuantized(histPtr[..], h);
        PopulatedWeight(h, HSIZE);
        return 0;
      }
      ncubes := CutAndMap(hist, colMap, maxCubes, color, owner);
    }

    /**
     * The rest of medianCut() once the root cube over the `n` populated
     * buckets is in place: the split loop, then invMap.
     */
    method CutAndMap(hist: array<Word>, colMap: array<Color>, maxCubes: int, ghost n: int, ghost owner0: seq<int>)
        returns (ncubes: Word)
      requires Valid() && hist.Length == HSIZE
      requires maxCubes <= MAXCOLORS && Max(maxCubes, 1) <= colMap.Length
      requires Inv(cubeList[..1], histPtr[..], owner0, hist[..], n)
      modifies this, cubeList, histPtr, hist, colMap
      ensures ncubes == Min(Max(maxCubes, 1), n)
      ensures ncubes < maxCubes ==> forall k :: 0 <= k < ncubes ==> cubeList[k].lower == cubeList[k].upper
      ensures Quantized(cubeList[..ncubes], histPtr[..], old(hist[..]), hist[..])
      ensures SumCounts(cubeList[..ncubes], ncubes) == Total(old(hist[..]))
      ensures IsPalette(colMap[..ncubes], cubeList[..ncubes], histPtr[..], old(hist[..]))
      ensures colMap[ncubes..] == old(colMap[ncubes..])
    {
      ghost var h: Histogram := hist[..];
      var k;
      ghost var owner;
      k, owner := SplitLoop(hist, maxCubes, n, owner0);
      assert SumCounts(cubeList[..k], k) == Total(h);
      InvMap(hist, colMap, k, owner, n);
      ncubes := k;
    }
  }
}

# Median-cut colour quantizer

A Dafny model of the median-cut colour quantizer `ColorQuantizer` of the
PDAL PRC writer, with proofs about it. The quantizer reduces a histogram of
15-bit colour buckets to a palette of at most `maxCubes` colours. It
collects the populated buckets into a reorder buffer `histPtr` and starts
from one root cube over all of them. Then, while fewer than `maxCubes`
cubes exist, it splits the shallowest splittable cube. A split sorts the
cube's range along its longest axis and cuts it at the count-weighted
median. Finally `invMap` writes each cube's mean colour into `colMap` and
overwrites the histogram entry of every populated bucket with the index of
its cube.

The model has five modules, one per part of the program:

- `Codec` (`codec.dfy`): the `HSIZE`/`MAXCOLORS` constants and the
  `RGB`/`RED`/`GREEN`/`BLUE` macros. The macros are written as integer
  arithmetic. `RGB` is also proved equal to its shift-and-mask form on
  16-bit vectors (`Codec.EncodeMatchesBits`).
- `Cubes` (`cubes.dfy`): the `cube_t` record. It also holds the
  specification functions the program is proved against: the weight of a
  run of buckets, the per-axis extents, the weighted channel sums, and the
  ascending list of populated buckets.
- `Sorting` (`sorting.dfy`): `compare`, and the `qsort` of one cube's
  range of the buffer.
- `Partition` (`partition.dfy`): the invariant of the main loop, and the
  lemmas that a split keeps it. The invariant says:
  - the buffer's first `n` entries rearrange the populated buckets;
  - the live cubes tile `[0, n)`;
  - every cube's count and box are exact for the buckets it owns;
  - the counts add up to the histogram total.
- `Quantizer` (`quantizer.dfy`): `class ColorQuantizer`, whose fields are
  `cubeList`, the buffer `histPtr` and `longdim`. Its methods hold the
  loops of `medianCut`, `shrink` and `invMap`.

The main results are the contracts of `Quantizer.ColorQuantizer.MedianCut`
and `Quantizer.ColorQuantizer.InvMap`, and `Partition.SplitKeepsInv`.
`MedianCut` returns `min(max(maxCubes, 1), populated buckets)` cubes. Every
cube is exact and non-empty. The cube counts add up to the histogram
total. Each palette entry is the mean colour of its cube. Each populated
bucket is relabelled with the one cube owning it, and unpopulated buckets
keep their 0.

On these edge cases the model follows the code as written:

- `maxCubes <= 0` still yields the one root cube, because the loop test
  `ncubes < maxCubes` simply fails. It does not yield an empty palette.
- A cube is a split candidate only below level 255
  (src/ColorQuantizer.cpp:66-67).
- The median scan tests `count >= cube.count/2` before adding a bucket.
  With a count of 1 it would stop at `lower`, not at `upper`. This cannot
  happen, because a cube over two or more populated buckets weighs at
  least 2 (`Partition.CubeWeight`).

## Model

| member | source | states |
|---|---|---|
| Codec.Red | include/prc/ColorQuantizer.hpp:27 | RED(x) is a byte of at most 248 |
| Codec.Green | include/prc/ColorQuantizer.hpp:28 | GREEN(x), the byte cast applied after the wide mask, is at most 248 |
| Codec.Blue | include/prc/ColorQuantizer.hpp:29 | BLUE(x) is a byte of at most 248 |
| Codec.Channel | src/ColorQuantizer.cpp:203-214 | the per-axis decoder that compare() switches on is RED, GREEN or BLUE of the bucket, at most 248 |
| Codec.Truncated | include/prc/ColorQuantizer.hpp:26-27 | `(c>>3)<<3` is a multiple of 8 within 8 below `c` |
| Codec.Encode | include/prc/ColorQuantizer.hpp:26 | RGB(r,g,b) of byte channels is a valid bucket below HSIZE; decoding it gives each channel truncated to its top five bits |
| Codec.ShiftIntoByte | include/prc/ColorQuantizer.hpp:27-29 | the `(byte)(z << 3)` of the decoders keeps the low five bits of `z`, times 8 |
| Codec.Fields | include/prc/ColorQuantizer.hpp:27-29 | a bucket is three five-bit fields; RED, GREEN and BLUE return 8 times the red, green and blue field, so every decoded value is a multiple of 8 in [0, 248] |
| Codec.EncodeMatchesBits | include/prc/ColorQuantizer.hpp:26 | the arithmetic Encode equals the header's shift-and-mask expression, written on 16-bit vectors as `EncodeBits`, on byte-range channels |
| Codec.EncodeOfDecode | include/prc/ColorQuantizer.hpp:26-29 | RGB(RED(x), GREEN(x), BLUE(x)) == x for every bucket |
| Codec.EncodeSameBucket | include/prc/ColorQuantizer.hpp:26 | two colours share a bucket exactly when all three channels agree in their top five bits (both directions) |
| Codec.GreenIgnoresBlueBits | include/prc/ColorQuantizer.hpp:28 | GREEN's `&255` mask keeps blue bits (32 for x = 1024) but the byte cast drops them: GREEN(x) is 8 times the green field |
| Codec.ExtentFitsByte | src/ColorQuantizer.cpp:78-80 | differences of decoded values lie in [0, 248], so the byte subtraction never wraps |
| Cubes.WeightStep | src/ColorQuantizer.cpp:91-97 | adding the bucket at position `i` to the run before it adds exactly that bucket's count to the run's weight |
| Cubes.WeightAppend | src/ColorQuantizer.cpp:91-97 | the weight of a concatenation is the sum of the weights |
| Cubes.WeightPermutation | src/ColorQuantizer.cpp:85-88 | the weight of a run of buckets does not depend on their order, so sorting a cube's range keeps its count |
| Cubes.WeightAtLeastLength | src/ColorQuantizer.cpp:46-49 | a run of populated buckets weighs at least one per bucket |
| Cubes.PopulatedSpec | src/ColorQuantizer.cpp:44-51 | the collected list holds exactly the buckets with a non-zero count (both directions), in strictly ascending order |
| Cubes.NonePopulated | src/ColorQuantizer.cpp:44-51 | collecting no bucket means the histogram is all zero |
| Cubes.PopulatedWeight | src/ColorQuantizer.cpp:44-51 | the populated buckets carry the whole histogram total, the root's count |
| Cubes.SumToBound | include/prc/ColorQuantizer.hpp:44 | a histogram of word counts totals at most HSIZE * 65535, so `count` never overflows its `long` |
| Cubes.DistinctPermutation | src/ColorQuantizer.cpp:85-88 | a rearrangement of a list without repeats has no repeats |
| Cubes.LowestIsMin | src/ColorQuantizer.cpp:175-193 | the running minimum from 255 is the least decoded value, attained by a bucket, or 255 for no bucket |
| Cubes.HighestIsMax | src/ColorQuantizer.cpp:175-193 | the running maximum from 0 is the greatest decoded value, attained by a bucket, or 0 for no bucket |
| Cubes.Average | src/ColorQuantizer.cpp:150-152 | the mean channel value of a cube lies within the cube's extents on that axis, so the byte cast keeps it |
| Cubes.AverageBounds | src/ColorQuantizer.cpp:138-152 | the weighted sum divided by the weight lies between the least and greatest decoded values |
| Cubes.ChannelSumBounds | src/ColorQuantizer.cpp:138-147 | a weighted sum of values in [lo, hi] lies between lo and hi times the weight |
| Cubes.PaletteOfSingleton | src/ColorQuantizer.cpp:138-152 | a single-bucket cube's palette colour is exactly that bucket's (RED, GREEN, BLUE) |
| Sorting.Compare | src/ColorQuantizer.cpp:196-216 | the sign of compare() orders buckets by their decoded value on the axis, in all three directions |
| Sorting.SortRange | src/ColorQuantizer.cpp:85-88 | the qsort of `[lower, upper]` leaves it sorted by the axis value and a permutation of itself, with every entry outside it untouched |
| Sorting.Insert | src/ColorQuantizer.cpp:85-88 | one insertion step extends the sorted prefix of the range by one, permuting the range only |
| Sorting.SwapDown | src/ColorQuantizer.cpp:85-88 | exchanging the moving entry with a larger left neighbour moves it one place left and keeps the rest of the prefix sorted |
| Sorting.SettledSorted | src/ColorQuantizer.cpp:85-88 | once the moving entry is no smaller than its left neighbour, the whole prefix is sorted by the axis value |
| Sorting.Swap | src/ColorQuantizer.cpp:85-88 | exchanging two entries of the range permutes it and changes nothing else |
| Partition.ChildExact | src/ColorQuantizer.cpp:101-112 | a child is exact over the range it is built on, one level deeper |
| Partition.ListAfterSplit | src/ColorQuantizer.cpp:106-113 | writing cubeA at `splitpos` and cubeB at `ncubes` of the whole array leaves, as its first `ncubes + 1` entries, the old live list with `splitpos` replaced and cubeB appended |
| Partition.SumsUpdate | src/ColorQuantizer.cpp:106 | replacing one cube changes the count and size sums by its difference |
| Partition.SumsAppend | src/ColorQuantizer.cpp:113 | appending a cube adds its count and size to the sums |
| Partition.SumsOfPrefix | src/ColorQuantizer.cpp:113 | sums over the live prefix depend on that prefix alone |
| Partition.SumsAfterSplit | src/ColorQuantizer.cpp:101-113 | replacing a cube by two parts sharing its range and count keeps both the count total and the size total |
| Partition.SizesAtLeastCount | src/ColorQuantizer.cpp:60-76 | non-empty cubes number at most the positions they cover; equality means all are singletons |
| Partition.SizesOfSingletons | src/ColorQuantizer.cpp:60-76 | singleton cubes cover exactly as many positions as there are cubes |
| Partition.WeightSplit | src/ColorQuantizer.cpp:91-111 | the weight of `[lower, upper]` is the weight before the median plus the weight from it |
| Partition.BufferAfterSplit | src/ColorQuantizer.cpp:85-88 | sorting one cube's range keeps the first `n` buffer entries a rearrangement of the populated buckets |
| Partition.BufferFacts | src/ColorQuantizer.cpp:44-51 | under the invariant the first `n` buffer entries are distinct and populated, and hold every populated bucket (both directions) |
| Partition.CubeWeight | src/ColorQuantizer.cpp:66 | every live cube owns distinct populated buckets and weighs at least its size, so a splittable cube weighs at least 2 |
| Partition.RunWeight | src/ColorQuantizer.cpp:91-97 | a cube over distinct populated buffer entries weighs at least its size |
| Partition.OthersUnmoved | src/ColorQuantizer.cpp:85-88 | sorting one cube's range does not change the buckets any other live cube owns |
| Partition.TilesSplit | src/ColorQuantizer.cpp:100-113 | cutting a cube at `median` into `[lower, median-1]` kept in place and `[median, upper]` appended keeps the ranges a disjoint tiling of `[0, n)` |
| Partition.ChildrenSplit | src/ColorQuantizer.cpp:100-113 | the two children of an exact cube over its sorted range are exact, one level deeper, meet at the median and share out its count |
| Partition.PartsShareCount | src/ColorQuantizer.cpp:101-111 | after the sort, the weight before the median plus the weight from it is the parent's count: `cubeA.count + cubeB.count == cube.count` |
| Partition.ExactAfterSplit | src/ColorQuantizer.cpp:100-113 | after a split every live cube is exact: the two new parts and every untouched cube |
| Partition.SplitKeepsInv | src/ColorQuantizer.cpp:60-119 | one iteration of the main loop keeps the whole invariant: buffer a permutation of the populated buckets, tiling, exact cubes, counts summing to the total |
| Partition.InitialInv | src/ColorQuantizer.cpp:42-57 | the root cube `[0, color-1]` at level 0 with the total count and the extents of all buckets satisfies the invariant |
| Partition.AllCubesExact | src/ColorQuantizer.cpp:121 | at invMap every live cube is exact, has a positive count and owns distinct populated buckets |
| Partition.InvQuantized | src/ColorQuantizer.cpp:155-166 | labelling each buffer position with its owner, and nothing else, leaves each populated bucket labelled with its one cube and unpopulated ones 0 |
| Partition.EmptyQuantized | src/ColorQuantizer.cpp:53-56 | an all-zero histogram is quantized by no cube and stays all zero |
| Partition.CubesAtMostBuckets | src/ColorQuantizer.cpp:60-113 | there are never more cubes than populated buckets |
| Partition.NoSplitMeansSingletons | src/ColorQuantizer.cpp:62-76 | when no cube is splittable, every cube owns one bucket and there is one cube per populated bucket |
| Partition.LabelIsOwner | src/ColorQuantizer.cpp:155-166 | after relabelling, a populated bucket's label is a live cube containing it, and any cube containing it is its label |
| Partition.LabelOfPopulated | src/ColorQuantizer.cpp:155-162 | a populated bucket's label is a live cube whose members include it |
| Partition.LabelOfMember | src/ColorQuantizer.cpp:155-162 | a bucket in cube `k` is labelled `k` |
| Quantizer.LongDimUnique | src/ColorQuantizer.cpp:78-83 | the chosen long axis is determined by the cube alone |
| Quantizer.SpreadNeverWraps | src/ColorQuantizer.cpp:78-80 | for a cube with an exact box, `lr`, `lg` and `lb` are the true spreads, never wrapped |
| Quantizer.LongDim | src/ColorQuantizer.cpp:78-83 | the three overwriting tests choose an axis of largest spread, the last of red, green, blue among ties; the previous `longdim` never survives |
| Quantizer.CutKeepsInv | src/ColorQuantizer.cpp:85-113 | cutting the chosen cube at its weighted median over its sorted range, into the two shrunk children, keeps the invariant |
| Quantizer.CutSplits | src/ColorQuantizer.cpp:85-113 | cutting the chosen cube and storing its two children is the split the loop makes (long axis, sorted range, weighted median, children in place and appended) and keeps the invariant |
| Quantizer.MedianInside | src/ColorQuantizer.cpp:90-98 | for a cube of at least two buckets and count at least 2, `lower < median <= upper`: both children are non-empty |
| Quantizer.PaletteAppend | src/ColorQuantizer.cpp:134-153 | writing the mean colour of cube `k` extends a palette of the first `k` cubes to the first `k+1` |
| Quantizer.RootUpperAsWritten | src/ColorQuantizer.cpp:54 | `color - 1` stored in a word is `color - 1` below HSIZE for a non-empty histogram and 65535 for an empty one |
| Quantizer.EmptyHistogramOverruns | src/ColorQuantizer.cpp:54-56 | with an empty histogram shrink's guard `i <= upper` holds for every word, `i` wraps from 65535 to 0, and the guard admits `i == HSIZE`, one past the buffer |
| Quantizer.ColorQuantizer.constructor | src/ColorQuantizer.cpp:27-29 | a fresh quantizer owns a cube list of MAXCOLORS entries and a buffer of HSIZE entries |
| Quantizer.ColorQuantizer.Shrink | src/ColorQuantizer.cpp:170-194 | the new box is the per-axis minimum and maximum of the decoded values over `histPtr[lower..upper]`, all other fields unchanged; `Cubes.LowestIsMin` and `Cubes.HighestIsMax` prove these are the least and greatest values, each attained by a bucket |
| Quantizer.SplitChoiceUnique | src/ColorQuantizer.cpp:62-76 | the cube the selection scan picks is determined by the list alone: at most one index is splittable, of least level, with every earlier splittable cube strictly deeper |
| Quantizer.ColorQuantizer.SelectSplit | src/ColorQuantizer.cpp:62-76 | -1 exactly when no live cube is splittable; otherwise a splittable cube of least level, earlier splittable cubes being strictly deeper |
| Quantizer.ColorQuantizer.FindMedian | src/ColorQuantizer.cpp:90-98 | `median` is the weighted median of the cube's range and `count` is the weight before it |
| Quantizer.ColorQuantizer.CollectPopulated | src/ColorQuantizer.cpp:42-51 | `histPtr[0..color)` is the ascending list of populated buckets and the total is the histogram sum |
| Quantizer.ColorQuantizer.SortLongDim | src/ColorQuantizer.cpp:78-88 | `longdim` becomes the cube's long axis and the cube's range is sorted by it, a permutation of itself, the rest of the buffer untouched |
| Quantizer.ColorQuantizer.SortAndCut | src/ColorQuantizer.cpp:78-112 | after sorting on the long axis, the median is the weighted median and cubeA, cubeB are the children `[lower, median-1]` and `[median, upper]` |
| Quantizer.ColorQuantizer.CutAtMedian | src/ColorQuantizer.cpp:90-112 | the median scan and the two shrunk parts give the weighted median and the two children of the cube |
| Quantizer.ColorQuantizer.Part | src/ColorQuantizer.cpp:101-112 | a part built from the parent's copy with a new range, count and level, then shrunk, is the child over that range |
| Quantizer.ColorQuantizer.SplitAt | src/ColorQuantizer.cpp:77-113 | `longdim` becomes the cube's long axis, its range of the buffer is rearranged into ascending order on that axis and cut at the weighted `median`; the new list is the old one with `[lower, median-1]` at `splitpos` and `[median, upper]` appended, and the invariant goes from `ncubes` to `ncubes + 1` cubes |
| Quantizer.ColorQuantizer.StoreParts | src/ColorQuantizer.cpp:106-113 | after the two writes the live list is the old one with `splitpos` replaced by cubeA and cubeB appended |
| Quantizer.ColorQuantizer.SplitStep | src/ColorQuantizer.cpp:60-119 | a pass stops exactly when no live cube is splittable, and then changes nothing and leaves one singleton cube per populated bucket; otherwise it splits the cube the selection scan picks, as `SplitAt` describes, keeping the invariant |
| Quantizer.ColorQuantizer.SplitLoop | src/ColorQuantizer.cpp:59-119 | the loop ends with `min(max(maxCubes, 1), n)` cubes satisfying the invariant, all singletons if it ended before `maxCubes` |
| Quantizer.ColorQuantizer.BuildRoot | src/ColorQuantizer.cpp:41-57 | the buffer holds the populated buckets in order and, if there is one, the root cube `[0, color-1]` at level 0 satisfies the invariant |
| Quantizer.ColorQuantizer.MeanColor | src/ColorQuantizer.cpp:136-152 | the colour computed for a cube is the count-weighted mean of its buckets' decoded colours |
| Quantizer.ColorQuantizer.FillPalette | src/ColorQuantizer.cpp:134-153 | palette entry `k` is the mean colour of cube `k`, and no entry past the live cubes is written |
| Quantizer.ColorQuantizer.Relabel | src/ColorQuantizer.cpp:155-166 | the bucket at each buffer position is relabelled with that position's owner, unpopulated buckets keep 0, and every bucket not in the buffer keeps its old value |
| Quantizer.ColorQuantizer.InvMap | src/ColorQuantizer.cpp:126-168 | each palette entry is its cube's mean colour, and each populated bucket is labelled with its one cube, unpopulated ones 0 |
| Quantizer.ColorQuantizer.CutAndMap | src/ColorQuantizer.cpp:59-123 | from a root cube satisfying the invariant, the split loop and invMap leave `min(max(maxCubes, 1), n)` exact cubes whose counts sum to the total, the palette of their means and the relabelled histogram |
| Quantizer.ColorQuantizer.MedianCut | src/ColorQuantizer.cpp:31-124 | returns `min(max(maxCubes, 1), populated)` cubes (0 for an empty histogram). The cubes are exact, non-empty and all singletons if fewer than `maxCubes`. Counts sum to the total, the palette holds the means and the histogram is relabelled |

## Left out

- Progress output: the dots written to `std::cerr` (src/ColorQuantizer.cpp:115-118, 164-165) are I/O with no effect on the result.
- Quantizer.ColorQuantizer.MeanColor: the palette average uses `float` arithmetic (src/ColorQuantizer.cpp:130-152). It is modelled as the floor of the exact rational mean, without IEEE rounding. For a single-bucket cube the two agree exactly (`Cubes.PaletteOfSingleton`).
- Sorting.SortRange: `qsort` is modelled by an insertion sort. The contract says only what `qsort` promises: sorted by key, a permutation of the range, nothing else moved. The order among equal keys is left open, so no exact split point is fixed when the median falls among equal keys.
- The static `histPtr` and `longdim` are fields of the quantizer object. Sharing them between quantizer instances is not modelled.
- `colMap` rows `byte[3]` are a `Color` datatype of three bytes.
- The histogram construction of the caller (src/PrcWriter.cpp) is not part of this model. The model takes a histogram of `HSIZE` word counts and byte-range channels.
- `cubeList` holds only `MAXCOLORS` cubes and the source does not check `maxCubes`. It writes past the list only when `maxCubes > MAXCOLORS` and there are more than `MAXCOLORS` populated buckets, so that more than `MAXCOLORS` cubes can be made. The model requires `maxCubes <= MAXCOLORS` and does not model that overrun.
- The widths of `cube_t` fields (`word lower/upper`, `long count`, `int level`) are unbounded integers. The model proves they stay in range: ranges below HSIZE (`Partition.Inv`), the count bound (`Cubes.SumToBound`), and the level below the number of cubes.
- Quantizer.ColorQuantizer.MedianCut: states the properties every result has (count, exactness, conservation, palette, labels). It does not state which partition the order of splits produces.
- Quantizer.ColorQuantizer.constructor: the source leaves `cubeList` uninitialised, but the model fills it with a placeholder cube. No later result depends on that placeholder.

## Findings

| source | as written | input that shows it | evidently intended | confidence | as-written member | corrected member |
|---|---|---|---|---|---|---|
| src/ColorQuantizer.cpp:54-56 | `cube.upper = color-1` is stored in a `word`. With no populated bucket it becomes 65535, and `shrink`'s loop `for (i = lower; i <= upper; i++)` on a word counter never ends and reads `histPtr[HSIZE]` and beyond | a histogram whose every count is 0 | return 0 cubes and leave the histogram and palette untouched | not executed | Quantizer.EmptyHistogramOverruns | Quantizer.ColorQuantizer.MedianCut |

# Content-based image retrieval: a Dafny model of its core

The system ranks the images of a collection by how similar they are to a
target image. Feature extractors turn each image into a vector of floats:
- a 3x3 centre crop;
- RGB histograms, whole-image or split into top and bottom halves;
- a texture histogram over the Sobel gradient magnitude;
- depth-masked colour and texture histograms;
- a blob histogram of yellow connected components.

A matcher reads those vectors back and finds the target's row by file name.
It scores every other row with one of the distances (SSD, histogram
intersection, cosine, the split histogram distances, or weighted mixes
with a neural embedding). It sorts the (score, index) pairs and emits the
first N file names.

This project models that core in Dafny 4.11 and proves properties of it:

| file | module | what it models |
|---|---|---|
| `sums.dfy` | `Sums` | sums, counting, histogram tallies and normalisation shared by the rest |
| `sorting.dfy` | `Sorting` | `std::sort` on (score, index) pairs: an in-place insertion sort proved equal to a functional sort |
| `arith.dfy` | `Arith` | small real-arithmetic facts about squares used by the distance proofs |
| `distance.dfy` | `Distance` | `src/distance_calculate.cpp` |
| `ranking.dfy` | `Ranking` | the score-sort-emit tail shared by every matching routine |
| `matcher.dfy` | `Matcher` | `src/image_matcher.cpp`: target lookup, the seven routines and `main`'s validation and dispatch |
| `baseline.dfy` | `Baseline` | `src/image_matcher_baseline.cpp` |
| `pixels.dfy` | `Pixels` | images as grids of BGR bytes, row-major scans, masks and the colour/texture bin functions |
| `depth.dfy` | `DepthMask` | the median threshold of `computeDepthMaskFromDA2` |
| `features.dfy` | `Features` | the pixel loops of the feature extractors in `src/feature_calculate.cpp` |
| `blobs.dfy` | `Blobs` | the binning and normalisation of `getBananaFeature` |
| `filters.dfy` | `Filters` | `src/filters.cpp`: the separable Sobel filters and the gradient magnitude |

## Modelling choices

- **Form.** Each accumulating loop of the source is a `method` with a
  `while` loop. It is proved equal to a specification function, and the
  function's properties are lemmas. Slicing and concatenation code is
  written as plain functions.
- **Vectors and images.** Feature vectors are `seq<real>`. Images are
  `seq<seq<Pixel>>`, with `IsGrid` saying every row has `cols` pixels.
- **Results.** A `std::vector` that a routine appends to or clears is
  passed in and returned as a new sequence. The C++ status codes are
  returned as integers.
- **Sobel buffers.** The 16-bit buffers that the Sobel filters write are
  `array3<int>` updated cell by cell. Every store to a `short` goes through
  `ToShort` (wrap-around modulo 2^16). For `sobelX3x3` and for
  `Filters.SobelY3x3Corrected`, `SobelXBound` and `SobelYIsKernel` show the
  values never leave [-1020, 1020], so the wrap never fires. `sobelY3x3` as
  written is different: at output rows 1 and rows-2 it subtracts a scratch
  cell it never wrote, which can hold any short, so that difference can
  wrap (see "## Findings").
- **Feature tables.** `read_image_data_csv` is not part of this model.
  The model assumes it appends one name and one row per CSV line to the
  vectors it is given. `main` passes the same `filenames` vector to the
  second read for "depth" and "banana". Those routines therefore see the
  feature-file names followed by the embedding names (`Matcher.NamesFor`),
  while `data` and `rnnData` hold only their own rows.
- **Square roots.** `std::sqrt` appears as a parameter `root` constrained
  by `Distance.IsSqrt`. `Distance.CosineDistance` is defined for any
  `root`: it also returns 1 when the product of the two roots is 0. For a
  true square root that happens only when a norm is 0, as
  `Distance.CosineDistanceUnfold` shows. The gradient magnitude instead uses an exact
  integer model: `Filters.RoundedRoot` is sqrt(n) rounded to the nearest
  integer. For integer n the true root is never halfway between two
  integers, and below the 255 cap a `float` keeps enough precision to
  round the same way.
- **Sorting.** `std::sort` on pairs sorts lexicographically, by score and
  then by index. That order is total and antisymmetric, so any correct
  sort gives the same sequence. `Sorting.SortedUnique` proves this, so the
  insertion sort stands for `std::sort`.
- **Centre crop.** `get7x7square` is named for a 7x7 square, but its
  `Rect` has width and height `half_size` (3). It therefore emits 27
  values, and the model follows the code.
- **Midpoint split.** `calculate_textureColor_distance` splits at
  `size/2`, while the texture-colour feature is laid out as 512 colour bins
  plus 16 texture bins. `Distance.SplitPointIrrelevant` shows that for
  vectors of equal length the split point does not change the distance.

## Model

| member | source | states |
|---|---|---|
| Distance.CalculateSsd | src/distance_calculate.cpp:21-28 | the loop computes the root of the sum of squared differences over `v1`'s indices (`Ssd`) |
| Distance.SsdIsDistance | src/distance_calculate.cpp:21-28 | SSD is non-negative, zero exactly when `v1` equals the matching prefix of `v2`, and symmetric for equal lengths |
| Distance.SsdOrder | src/distance_calculate.cpp:21-28 | ranking by SSD is ranking by the sum of squares: the square root never changes an order |
| Distance.SquaredDistanceZero | src/distance_calculate.cpp:21-27 | the sum of squared differences is 0 iff the vectors agree on `v1`'s indices |
| Distance.CalculateHistogramIntersection | src/distance_calculate.cpp:36-52 | the loop returns 0 for different sizes, otherwise the sum of per-bin minima (`Intersection`) |
| Distance.IntersectionSymmetric | src/distance_calculate.cpp:36-52 | intersection does not depend on argument order |
| Distance.IntersectionSelf | src/distance_calculate.cpp:36-52 | a histogram's intersection with itself is its total mass |
| Distance.IntersectionBounds | src/distance_calculate.cpp:36-52 | intersection is at most either histogram's mass, and equals `hist1`'s mass iff `hist1` is bin-wise below `hist2` |
| Distance.IntersectionOfNormalized | src/distance_calculate.cpp:36-52 | for non-negative histograms with mass 1 the intersection lies in [0, 1] and is 1 for identical histograms |
| Distance.CalculateCosineDistance | src/distance_calculate.cpp:62-89 | the loop returns 1 for different sizes, empty vectors or a zero norm, otherwise 1 - a.b/(\|a\|\|b\|) (`CosineDistance`) |
| Distance.DotAndNorms | src/distance_calculate.cpp:72-76 | the accumulation loop yields the dot product and both squared norms |
| Distance.CosineDistanceUnfold | src/distance_calculate.cpp:79-88 | for equal-length non-empty vectors with non-zero norms the denominator is positive and the distance is 1 - a.b over it |
| Distance.CauchySchwarz | src/distance_calculate.cpp:68-85 | (a.b)^2 <= \|a\|^2 \|b\|^2, the fact that bounds the cosine similarity |
| Distance.CosineDistanceRange | src/distance_calculate.cpp:62-89 | the cosine distance lies in [0, 2], and in [0, 1] for non-negative vectors |
| Distance.CosineDistanceSymmetric | src/distance_calculate.cpp:62-89 | the cosine distance does not depend on argument order |
| Distance.CosineDistanceSelf | src/distance_calculate.cpp:62-89 | a non-zero vector is at distance 0 from itself |
| Distance.CosineDistanceOfZeroVector | src/distance_calculate.cpp:79-82 | a zero vector is at distance 1 from anything, on either side |
| Distance.NormSqZero | src/distance_calculate.cpp:72-82 | the accumulated squared norm is 0 iff every entry is 0 (the sentinel's condition) |
| Distance.TextureColorAgreesWithMultiHist | src/distance_calculate.cpp:92-130 | the texture-colour distance and the multi-histogram distance are the same function |
| Distance.SplitPointIrrelevant | src/distance_calculate.cpp:113-130 | for equal lengths, splitting at any index gives 1 - (sum of minima)/2 |
| Distance.MultiHistEqualLengths | src/distance_calculate.cpp:92-106 | for equal lengths the multi-histogram distance is 1 - (sum of minima)/2 |
| Distance.TextureColorMidpointMatchesLayoutSplit | src/distance_calculate.cpp:113-130 | on 528-bin texture-colour vectors the midpoint split (264) gives the same distance as the layout split (512) |
| Distance.MultiHistRange | src/distance_calculate.cpp:92-106 | with non-negative inputs and halves of `hist1` of mass at most 1, the distance lies in [0, 1] |
| Distance.MultiHistSelf | src/distance_calculate.cpp:92-106 | a vector whose two halves each have mass 1 is at distance 0 from itself |
| Distance.MultiHistLengthMismatch | src/distance_calculate.cpp:92-106 | for different lengths the bottom halves never intersect, so the distance is at least 1/2 |
| Ranking.IndexOf | src/image_matcher.cpp:41-50 | -1 iff the name is absent, otherwise the first index holding it |
| Ranking.CandidatesMembers | src/image_matcher.cpp:70-80 | the scoring loop's pairs are exactly (score, index) for the kept rows, one per kept row |
| Ranking.CountAllBut | src/image_matcher.cpp:73-76 | skipping the target leaves rows - 1 candidates |
| Ranking.SortPairs | src/image_matcher.cpp:82 | sorting the pairs in place yields the functional sort of the old contents |
| Ranking.RankAndEmit | src/image_matcher.cpp:82-88 | the sort-and-emit tail appends the names of the first min(N, candidates) ranked rows |
| Ranking.EmitNames | src/image_matcher.cpp:85-88 | the emit loop appends the names of the first min(N, pairs) ranked pairs, in rank order, to the output |
| Ranking.RankedMembers | src/image_matcher.cpp:82 | the sorted pairs are sorted, and are exactly the candidates |
| Ranking.MatchIndices | src/image_matcher.cpp:84-88 | the emitted indices number min(N, candidates) and are all kept rows |
| Ranking.MatchesAreBest | src/image_matcher.cpp:82-88 | no kept row left out ranks before an emitted one |
| Ranking.MatchesInOrder | src/image_matcher.cpp:82-88 | emitted rows come in rank order |
| Ranking.AscendingMatchesAreNearest | src/image_matcher.cpp:82-88 | ascending: emitted scores are the smallest, ties broken by smaller index, in non-decreasing order |
| Ranking.DescendingMatchesAreLargest | src/image_matcher.cpp:119-125 | descending (reverse iterators): emitted scores are the largest, ties broken by larger index |
| Ranking.TargetNeverEmitted | src/image_matcher.cpp:73-88 | the target's own row is never emitted, and min(N, rows - 1) names are |
| Sorting.InsertionSort | src/image_matcher.cpp:82 | the in-place sort leaves the array sorted and a permutation of its old contents |
| Sorting.SortSeqSortsAndPermutes | src/image_matcher.cpp:82 | the functional sort is sorted and a permutation |
| Sorting.SortedUnique | src/image_matcher.cpp:82 | under an antisymmetric total order two sorted permutations are equal, so the sort's result is determined |
| Matcher.FindTargetIndex | src/image_matcher.cpp:41-50 | the lookup loop returns `IndexOf(filenames, target)` |
| Matcher.FindTargetIndexCosine | src/image_matcher.cpp:18-37 | the lookup compares the target against "../olympus/" + each name |
| Matcher.CosineLookupStripsDir | src/image_matcher.cpp:18-37 | the prefixed lookup finds the target iff it starts with the directory and the rest is a listed name |
| Matcher.FindTopNMatchesSsd | src/image_matcher.cpp:56-90 | -1 with output untouched iff the target is absent; otherwise appends the N nearest rows by SSD, target excluded |
| Matcher.FindTopNMatchesHist | src/image_matcher.cpp:96-127 | the same for intersection, ranked in descending order |
| Matcher.FindTopNMatchesMultiHist | src/image_matcher.cpp:131-161 | the same for the multi-histogram distance, ascending |
| Matcher.FindTopNMatchesTextureColor | src/image_matcher.cpp:166-190 | the same for the texture-colour distance; the output is cleared first |
| Matcher.FindTopNMatchesCosine | src/image_matcher.cpp:193-220 | prefixed lookup; rows ranked by cosine distance, output cleared first |
| Matcher.ScoreSsdRows | src/image_matcher.cpp:73-79 | the SSD scoring loop yields exactly the (SSD to the target, index) pairs of the rows other than the target, in row order |
| Matcher.ScoreHistRows | src/image_matcher.cpp:110-116 | the intersection scoring loop yields the (intersection with the target, index) pairs of the other rows, in row order |
| Matcher.ScoreMultiHistRows | src/image_matcher.cpp:145-151 | the multi-histogram scoring loop yields the (distance, index) pairs of the other rows, in row order |
| Matcher.ScoreTextureColorRows | src/image_matcher.cpp:175-179 | the texture-colour scoring loop yields the (distance, index) pairs of the other rows, in row order |
| Matcher.ScoreCosineRows | src/image_matcher.cpp:204-210 | the cosine scoring loop yields the (cosine distance, index) pairs of the other rows, in row order |
| Matcher.ScoreDepthRows | src/image_matcher.cpp:234-245 | the scoring loop pairs each embedding row except the target with 0.8 cosine + 0.2 texture-colour |
| Matcher.FindTopNMatchesDepthDnn | src/image_matcher.cpp:221-255 | prefixed lookup; embedding rows ranked by 0.8 cosine + 0.2 texture-colour distance |
| Matcher.ScoreBlobRows | src/image_matcher.cpp:269-281 | the scoring loop skips the target and rows with a zero blob count, combining cosine and intersection |
| Matcher.FindTopNMatchesBanana | src/image_matcher.cpp:257-291 | prefixed lookup; rows with blobs ranked ascending by 0.5 cosine distance + 0.5 blob intersection |
| Matcher.BananaResultShape | src/image_matcher.cpp:270-288 | at most N rows are emitted, never the target and never a row whose blob count is 0 |
| Matcher.AscendingResultShape | src/image_matcher.cpp:56-90 | ascending routines emit min(N, rows - 1) names, never the target, smallest scores first |
| Matcher.DescendingResultShape | src/image_matcher.cpp:96-127 | the descending routine emits min(N, rows - 1) names, never the target, largest intersections first |
| Matcher.BananaRanksIdenticalBlobsLast | src/image_matcher.cpp:277-283 | as written, a row whose blobs match the target exactly ranks after a row sharing less |
| Matcher.BananaDistancePrefersSimilarBlobs | src/image_matcher.cpp:277-283 | with 1 - intersection, more blob overlap or a smaller embedding distance never ranks a row later |
| Matcher.FindTopNMatchesBananaCorrected | src/image_matcher.cpp:257-291 | the blob routine with the intended score, otherwise as written |
| Matcher.BananaCorrectedRanksSimilarBlobsFirst | src/image_matcher.cpp:269-288 | with the intended score, at equal embedding distance a row sharing more blobs is never left out for one sharing less |
| Matcher.ParseMetricRoundTrip | src/image_matcher.cpp:337-342 | each metric name parses back to its metric, and only that name does |
| Matcher.CheckArguments | src/image_matcher.cpp:314-342 | accepted iff argc >= 5, N > 0 and the metric is one of the eight names; usage error when argc < 5 |
| Matcher.RunMatcher | src/image_matcher.cpp:308-390 | status 0 iff the arguments are valid, the tables were read, the metric is not gabor and the target is found; output is the chosen routine's |
| Matcher.IndexOfAfter | src/image_matcher.cpp:18-37 | a name absent from the first list is found in the joined list at its position in the second, shifted by the first list's length |
| Matcher.AppendedLookupOffset | src/image_matcher.cpp:366-384 | as written, when no feature-file name matches, the depth and blob lookup returns the embedding position plus the number of feature-file names |
| Matcher.AppendedLookupPastTables | src/image_matcher.cpp:221-231 | that row is at least the feature table's size, so the routine's reads fall outside the tables (`Fits` fails) |
| Matcher.FeatureWriterNamesOverrunTables | src/image_matcher.cpp:221-231 | with full-path feature names and bare embedding names, the target is found at row 2 of two-row tables, for both routines |
| Matcher.RunPairedCorrected | src/image_matcher.cpp:221-291 | with the lookup over the embedding names only, the routines fail iff no embedding name matches, otherwise read inside both tables and emit their ascending ranking |
| Baseline.FindTopNMatches | src/image_matcher_baseline.cpp:23-63 | -1 iff the target is absent; otherwise appends the N nearest rows by SSD, target excluded |
| Baseline.AgreesWithMatcherSsd | src/image_matcher_baseline.cpp:23-63 | the baseline routine and `find_topN_matches_ssd` return the same status and the same names on every input |
| Baseline.CheckArguments | src/image_matcher_baseline.cpp:86-105 | accepted iff argc >= 4 and N > 0 |
| Baseline.RunBaseline | src/image_matcher_baseline.cpp:80-133 | status 0 iff the arguments are valid, the table was read and the target is found; output is the SSD ranking |
| Pixels.FlattenLength | src/feature_calculate.cpp:253-257 | a row-major scan of a rows x cols grid visits rows * cols cells |
| Pixels.FlattenIndex | src/feature_calculate.cpp:253-257 | cell (i, j) is visited at position i * cols + j |
| Pixels.RgbBinInRange | src/feature_calculate.cpp:96-101 | the flattened 3-D colour bin lies in [0, bins^3) whenever 255 / (256 / bins) < bins |
| Pixels.RgbBinOfEight | src/feature_calculate.cpp:81-101 | with 8 bins the colour bin is (r/32)*64 + (g/32)*8 + b/32 and lies below 512 |
| Pixels.ChannelBinInRange | src/feature_calculate.cpp:97-99 | each channel's bin `v / (256 / bins)` lies in [0, bins) |
| Pixels.LevelBinInRange | src/feature_calculate.cpp:344 | a gradient in [0, 1] truncated at g * (bins - 1) lands in [0, bins) |
| Pixels.MaskedFlattenNothing | src/feature_calculate.cpp:303-305 | an all-zero mask keeps no pixel |
| DepthMask.ComputeDepthMask | src/feature_calculate.cpp:252-270 | the median is the sorted values' element at n/2, and the mask is 255 exactly where depth <= median |
| DepthMask.MedianIndex | src/feature_calculate.cpp:262 | the median index n * 0.50 is in range and at least (n - 1)/2 |
| DepthMask.MedianBound | src/feature_calculate.cpp:259-263 | at least n/2 + 1 of the values are at most the median |
| DepthMask.CountAtMostPermutation | src/feature_calculate.cpp:259 | sorting does not change how many values are at most a threshold |
| DepthMask.MaskKeepsAtMost | src/feature_calculate.cpp:270 | the pixels the mask keeps are exactly the depths at most the threshold |
| DepthMask.DepthMaskKeepsHalf | src/feature_calculate.cpp:252-270 | the median mask keeps at least rows*cols/2 + 1 pixels |
| Features.Get7x7Square | src/feature_calculate.cpp:40-72 | -1 with data untouched on an empty image; otherwise appends the 27 BGR values of the 3x3 crop at (rows/2 - 3, cols/2 - 3) |
| Features.AppendRows | src/feature_calculate.cpp:61-69 | the crop loops append the BGR values of the crop's pixels, row by row, to the data |
| Features.SquareLayout | src/feature_calculate.cpp:57-69 | value 9i + 3j + c of the crop is channel c of pixel (rows/2 - 3 + i, cols/2 - 3 + j) |
| Features.CountCells | src/feature_calculate.cpp:94-104 | the counting loop's bins equal the tally of the row-major bin sequence |
| Features.CountSelectedCells | src/feature_calculate.cpp:303-315 | the masked counting loop tallies exactly the kept cells and counts them |
| Features.CountSelectedRow | src/feature_calculate.cpp:304-314 | one row of the masked loop tallies exactly the row's kept cells and adds their number to the count |
| Features.CalculateRgbHistogram | src/feature_calculate.cpp:80-112 | -1 on an empty image, otherwise the 512-bin colour histogram divided by rows * cols |
| Features.RgbHistogramSumsToOne | src/feature_calculate.cpp:89-109 | a colour histogram has bins^3 entries summing to 1 |
| Features.RgbHistogramOfSolidColour | src/feature_calculate.cpp:94-109 | a single-colour image puts 1 in its bin and 0 elsewhere |
| Features.HistogramSumsToOne | src/feature_calculate.cpp:106-109 | a tally of in-range bins divided by the pixel count sums to 1 |
| Features.HistogramOfConstant | src/feature_calculate.cpp:106-109 | a grid of one bin value gives 1 there and 0 elsewhere |
| Features.CalculateMultiHistogram | src/feature_calculate.cpp:117-143 | the colour histogram at the given bin count, normalised by the pixel count |
| Features.GetMultiHistogramFeature | src/feature_calculate.cpp:147-171 | -1 on an empty image; otherwise replaces the data with the top-half histogram followed by the bottom-half one |
| Features.MultiHistogramLayout | src/feature_calculate.cpp:156-168 | the feature has 1024 values; each half sums to 1 |
| Features.MultiHistogramIgnoresOddRow | src/feature_calculate.cpp:157-158 | with an odd row count the last row is in neither half |
| Features.ComputeTextureFeature | src/feature_calculate.cpp:193-216 | the histogram of magnitude bins `m / (256 / bins)`, normalised by the pixel count |
| Features.TextureHistogramSumsToOne | src/feature_calculate.cpp:193-214 | the texture histogram has `bins` entries summing to 1 |
| Features.GetTextureColorFeature | src/feature_calculate.cpp:222-242 | -1 on an empty image; otherwise the 8-bin colour histogram followed by the 16-bin texture histogram |
| Features.TextureColorLayout | src/feature_calculate.cpp:222-242 | 528 values: 512 colour bins summing to 1, then 16 texture bins summing to 1 |
| Features.CalculateMaskedRgbHistogram | src/feature_calculate.cpp:295-323 | tallies kept pixels only; divides by their count when it is positive, else leaves the zeros |
| Features.ComputeMaskedTextureFeature | src/feature_calculate.cpp:326-355 | the same over the truncated gradient levels g * (bins - 1) |
| Features.MaskedHistogramSumsToOne | src/feature_calculate.cpp:317-320 | when some pixel is kept the masked histogram sums to 1 |
| Features.MaskedHistogramOfEmptyMask | src/feature_calculate.cpp:318-320 | when no pixel is kept the masked histogram is all zeros |
| Features.GetTextureColorFeatureWithDepth | src/feature_calculate.cpp:357-380 | -1 on an empty image; otherwise the masked 512-bin colour and 8-bin texture histograms under the median depth mask |
| Features.DepthFeatureLayout | src/feature_calculate.cpp:357-380 | 520 values: each part sums to 1, since the median mask keeps at least one pixel |
| Blobs.SizeBinInRange | src/feature_calculate.cpp:409-419 | a kept blob's size bin lies in [0, 4) and equals min((area - 2000) / 2000, 3) |
| Blobs.SpatialBinInRange | src/feature_calculate.cpp:410-428 | each spatial bin lies in [0, 4) |
| Blobs.FlatIndexInRange | src/feature_calculate.cpp:427-431 | the flattened blob bin lies in [0, 64) |
| Blobs.BlobCellsCount | src/feature_calculate.cpp:415-436 | one cell is counted per pixel of each blob whose area is in [2000, 10000] |
| Blobs.CountRow | src/feature_calculate.cpp:424-434 | scanning one label row adds one count per pixel of the component, at its spatial and size bin |
| Blobs.CountComponent | src/feature_calculate.cpp:422-435 | scanning the labels adds one count per pixel of the component, in its bin |
| Blobs.GetBananaFeature | src/feature_calculate.cpp:382-452 | -1 on an empty image; otherwise the 64 bins normalised by their total when positive, followed by that total |
| Blobs.CountBlobs | src/feature_calculate.cpp:415-437 | the component loop tallies the cells of every kept component from 1 to nComponents - 1 |
| Blobs.SumCounts | src/feature_calculate.cpp:439-442 | the summing loop returns the sum of the counts |
| Blobs.BananaFeatureLayout | src/feature_calculate.cpp:438-449 | 65 values; the last is the number of kept blob pixels; the first 64 sum to 1 when it is positive |
| Blobs.BananaFeatureOfNothingKept | src/feature_calculate.cpp:438-449 | with no blob in the area range the feature is 65 zeros |
| Sums.NormalizeBy | src/feature_calculate.cpp:444-448 | the in-place loop divides every entry by the total |
| Sums.TallyCountsEverything | src/feature_calculate.cpp:94-104 | counting values that are all in range puts every one in some bin |
| Sums.SumScaled | src/feature_calculate.cpp:106-109 | dividing every bin by a total divides the sum by it |
| Filters.SobelX3x3 | src/filters.cpp:21-56 | -1 with dst untouched on an empty image; otherwise every interior cell gets the Sobel X response and border cells keep their old values |
| Filters.DiffRowX | src/filters.cpp:31-40 | the horizontal pass writes src(i, j+1) - src(i, j-1) on columns 1 to cols-2 of the row and nothing else |
| Filters.WeightRowX | src/filters.cpp:43-53 | the vertical pass writes temp(i-1) + 2 temp(i) + temp(i+1), stored as a `short`, on the row's interior |
| Filters.SobelXIsKernel | src/filters.cpp:21-56 | the two passes apply the 3x3 kernel [[-1,0,1],[-2,0,2],[-1,0,1]] |
| Filters.SobelXBound | src/filters.cpp:34-50 | responses lie in [-1020, 1020], so the `short` stores never wrap |
| Filters.SobelY3x3 | src/filters.cpp:65-103 | as written: interior cells get temp(i+1) - temp(i-1), where rows 0 and rows-1 of temp still hold their old contents |
| Filters.SmoothRowY | src/filters.cpp:77-87 | the horizontal pass writes src(i, j-1) + 2 src(i, j) + src(i, j+1) on the given columns, reading across row ends through contiguous memory |
| Filters.SmoothCellY | src/filters.cpp:79-85 | the channel loop writes the horizontal sum at one cell, for all three channels, and nothing else |
| Filters.DiffRowY | src/filters.cpp:91-100 | one row of the vertical pass writes temp(i+1) - temp(i-1), stored as a `short`, on the row's interior and nothing else |
| Filters.DiffRowsY | src/filters.cpp:91-100 | the vertical pass writes temp(i+1) - temp(i-1) on the interior and leaves the border |
| Filters.SmoothYInRow | src/filters.cpp:77-87 | away from the first and last column the horizontal pass stays inside the row, in [0, 1020] |
| Filters.SobelYReadsUnwrittenRow | src/filters.cpp:77-97 | output row 1 changes with the contents of a temp cell the horizontal pass never wrote |
| Filters.SobelYAsWrittenAwayFromEdges | src/filters.cpp:77-97 | on rows 2 to rows-3 the as-written output is the Sobel Y response |
| Filters.SobelY3x3Corrected | src/filters.cpp:65-103 | with the horizontal pass on every row, every interior cell gets the Sobel Y response |
| Filters.SobelYIsKernel | src/filters.cpp:76-100 | the intended response is the 3x3 kernel [[-1,-2,-1],[0,0,0],[1,2,1]] and lies in [-1020, 1020] |
| Filters.SobelYIsTransposedX | src/filters.cpp:21-103 | Sobel Y is Sobel X on the transposed image |
| Filters.ToShort | src/filters.cpp:34-37 | assignment to `short` yields a value in [-32768, 32767] |
| Filters.RootFrom | src/filters.cpp:124 | the search stops at the r with (r-1)r < n <= r(r+1) |
| Filters.RoundedRootIsNearest | src/filters.cpp:124-125 | the rounded root r satisfies (r - 1/2)^2 < n < (r + 1/2)^2, and is 0 iff n is 0 |
| Filters.RoundedRootOfSquare | src/filters.cpp:124-125 | a perfect square's root is exact |
| Filters.SaturatedZero | src/filters.cpp:123-126 | the magnitude is 0 iff both gradients are 0, and symmetric in them |
| Filters.SaturatedOfHorizontal | src/filters.cpp:123-126 | a purely horizontal gradient gives its absolute value capped at 255 |
| Filters.Magnitude | src/filters.cpp:105-133 | every cell gets the saturated, rounded length of (sx, sy) for its channel; returns 0 |
| Filters.MagnitudeRow | src/filters.cpp:114-129 | one row's cells are written and every other row is left alone |

## Findings

| source | as written | input that shows it | evidently intended | confidence | as-written member | corrected member |
|---|---|---|---|---|---|---|
| src/image_matcher.cpp:277-283 | the blob score adds half the blob histogram intersection, a similarity, to half a distance, then sorts ascending | target blobs [1, 5]; candidate A [1, 5], candidate B [0, 5], same embedding distance: A scores 3 + c/2, B 2.5 + c/2, so B ranks first | half the blob distance `1 - intersection`, so that more shared blobs rank earlier | high (not executed) | Matcher.BananaRanksIdenticalBlobsLast | Matcher.BananaDistancePrefersSimilarBlobs |
| src/image_matcher.cpp:221-231 | "depth" and "banana" look the target up with the "../olympus/" prefix among the feature-file names followed by the appended embedding names, then read `data[target_index]` and `rnnData[target_index]` | feature file names ["../olympus/a.jpg", "../olympus/b.jpg"] (full paths, as the feature writer stores them), embedding names ["a.jpg", "b.jpg"], two rows each, target "../olympus/a.jpg": the target is found at index 2, past both tables | look the target up among the embedding names only; their positions index both tables | medium (not executed; the CSV reader's appending is assumed) | Matcher.FeatureWriterNamesOverrunTables | Matcher.RunPairedCorrected |
| src/filters.cpp:77-97 | the horizontal pass of `sobelY3x3` fills temp rows 1 to rows-2 only, but the vertical pass reads rows 0 and rows-1 for output rows 1 and rows-2 | any image with at least 4 rows and 3 columns: two scratch buffers differing only in cell (0, 1, 0) give different outputs at (1, 1, 0) | the horizontal pass over every row (columns 1 to cols-2, as in `sobelX3x3`), so every output depends on the image alone | high (not executed) | Filters.SobelYReadsUnwrittenRow | Filters.SobelY3x3Corrected |

`Matcher.RunMatcher` dispatches to the blob routine as written.
`Matcher.FindTopNMatchesBananaCorrected` is the routine with the intended
score, and `Matcher.BananaCorrectedRanksSimilarBlobsFirst` is proved about
it. Likewise `Matcher.RunMatcher` keeps `main`'s lookup over the appended
names. `Matcher.RunPairedCorrected` runs the depth and blob routines with
the intended lookup, and its contract shows the reads then stay inside both
tables for every target. It keeps the blob score as written, so the two
findings stay apart.

## Left out

- File I/O is taken as inputs:
  - `imread`, `read_image_data_csv`, the CSV writer, `atoi`, console output, `displayGallery` and `imshow`;
  - the images, feature tables and N arrive as parameters, and a failed read as `None`.
- Calls into OpenCV are not modelled:
  - `cvtColor`, `inRange`, `connectedComponentsWithStats`, `normalize` and `convertTo`;
  - their outputs are inputs: the 8-bit gradient magnitude, the [0, 1] gradient, the component labels and areas.
- `computeGradientMagnitude`: its `float` square root and min-max normalisation are floating point. Its result is taken as an input grid with values in [0, 1].
- The DA2 depth network (`initializeDA2`, `run_network`) is left out. The depth map it produces is an input.
- `getFeatureFunction` maps feature names to extractor functions and is left out. `l2_norm` is never called (its calls are commented out) and is left out.
- Floating point is not modelled: every `float` is an exact `real`, so no rounding is captured.
- Features.ComputeTextureFeature does not model the path from the 3-channel image through grayscale, the Sobel filters and `normalize`. `sobelX3x3` and `sobelY3x3` read `Vec3b` pixels, and `computeTextureFeature` hands them a 1-channel grayscale image, which those reads do not fit. The magnitude grid is an input instead.
- Filters.SobelX3x3, Filters.SobelY3x3 and Filters.Magnitude require `dst` to already have the image's size. `create` on a buffer of another size allocates a new one; that reallocation is not modelled.
- Filters.SobelY3x3: the scratch buffer is `CV_16SC3`, so the model requires every cell of `temp` to be a short (`IsShort`); rows 0 and rows-1 are otherwise unconstrained.
- Filters.SobelY3x3: the reads across row ends assume a contiguous `Mat`. A non-contiguous view (a region of interest) would read elsewhere.
- Features.Get7x7Square requires at least 6 rows and 6 columns when the image is not empty. On smaller images the `Rect` leaves the image and OpenCV raises an exception, which is not modelled.
- Features.GetMultiHistogramFeature requires at least 2 rows when the image is not empty. A 1-row image gives empty halves and a division of zero by zero (NaN bins), which is not modelled.
- Features.CalculateMultiHistogram and Features.ComputeTextureFeature require a non-empty image. The source only ever calls them on non-empty ones, and an empty one would divide by zero.
- Features.ComputeMaskedTextureFeature requires gradients in [0, 1], which `normalize` guarantees.
- Features.CountCells and Features.CountSelectedCells receive the grid of bin indices computed beforehand. The source computes each bin inside the counting loop; the values counted are the same.
- Matcher.RunMatcher requires `Matcher.Fits`: the chosen routine's reads of the tables stay in range. For "depth" and "banana" on a feature file written by the feature writer (full paths) with the bare-named embedding table, the target is found only among the appended names, past both tables. The source then reads `data` and `rnnData` out of range, which is undefined behaviour in C++. That run is outside the precondition and is not described. `Matcher.AppendedLookupPastTables` shows it falls there (see "## Findings").
- Matcher.RunMatcher does not model `main`'s gabor branch as a routine: no routine exists for it, and the result stays -1, which the model states.
- The memory leak of `fullpath` in the prefixed lookup is not modelled.

# CBIR tool: a Dafny model

This project models the core of a small content-based image retrieval
(CBIR) tool. The tool has three parts:

- **Feature extraction** (`cbir_methods.py`). Every image of a 100-image
  collection becomes a pair `(width*height, histogram)`. The histogram is
  either a 25-bin intensity histogram or a list of per-pixel 6-bit colour
  codes binned into 64 bins.
- **Retrieval** (`cbir_methods.py`, `relevance_feedback.py`).
  - Plain retrieval ranks every other image by the Manhattan distance
    between size-normalised histograms.
  - Relevance feedback builds a z-score normalised feature matrix. It
    derives per-feature weights from the spread of the features over the
    images the user marked relevant, and ranks every image by the weighted
    Manhattan distance.
- **The interface** (`UI.py`). It keeps the ranking on show and a page
  number, moves between pages of 20 results and shows the current page's
  window of image paths.

Modules, in dependency order:

| module | file | what it holds |
|---|---|---|
| `Common` | `common.dfy` | the Python exceptions as a `Result` error, `Option`, `Abs`, sums of reals |
| `ImagePaths` | `image_paths.dfy` | `images/{n}.jpg`: `get_image_path`, `get_img_num`, `str`/`int` on decimals |
| `Ranking` | `ranking.dfy` | `(distance, path)` entries, Python's tuple order and `sorted()` |
| `ColorCodes` | `color_codes.dfy` | the per-pixel colour code built from `format(v, 'b').zfill(8)` |
| `Histograms` | `histograms.dfy` | the pixel scan, `calculate_color_code`, `calculate_intensity`, `np.histogram` with explicit edges |
| `Manhattan` | `manhattan.dfy` | `calculate_manhattan`, `get_distance`, the precomputed rankings |
| `FeatureMatrix` | `feature_matrix.dfy` | `feature_mtx` and the z-score step of `get_normalized_matrix` |
| `WeightUpdate` | `weight_update.dfy` | `check_std`, `compute_new_weights`, `compute_normalized_weights` |
| `WeightedRanking` | `weighted_ranking.dfy` | `calculate_weighted_dist`, `calculate_distance`, `calculate_updated_weight` |
| `Pagination` | `pagination.dfy` | the session state of the interface as a class: retrieve, next, previous, display |

How the model is built:

- Pure computations are functions. The loops of the source are methods
  proved equal to those functions. Properties are lemmas about the
  functions.
- Python exceptions become `Err(ValueError)`, `Err(KeyError)`,
  `Err(IndexError)` or `Err(ZeroDivisionError)`. Within each modelled
  function they are raised in the order the source raises them. Two
  inputs are narrowed to what the tool can produce:
  - every extracted histogram has the same number of bins
    (`Manhattan.SameBins`);
  - the relevant images' deviations and means have one entry per feature,
    and none when no image is relevant (`WeightedRanking.StatsPerFeature`).
- Three external things become parameters:
  - images are functions from coordinates to pixels;
  - directory listings are sequences of file names;
  - the spreadsheets are maps from image number to stored row.
- Pandas' column means and standard deviations are given inputs too.

The edges `range(0, 250, 10) + [255]` are 26 edges, so an intensity
histogram has 25 bins. With the 64 colour-code bins, a feature row has the
89 features that `feature_mtx`'s docstring gives (relevance_feedback.py:35).

Where the code and its own comments differ, the model follows the code.
When every feature's deviation over the relevant images is zero and some
mean is not, `check_std` takes `min` of an empty sequence. That raises
ValueError (`WeightUpdate.CheckStdError`), so the comment "removes 0s"
(relevance_feedback.py:133) does not hold then.

## Model

| member | source | states |
|---|---|---|
| ImagePaths.DecimalString | UI.py:31 | `str(n)` is a non-empty string of decimal digits whose length is 1, 2, 3 or at least 4 exactly when `n` is below 10, below 100, below 1000 or at least 1000 |
| ImagePaths.DigitsOfDecimalString | UI.py:31 | reading the digits of `str(n)` gives back `n` |
| ImagePaths.ParseInt | relevance_feedback.py:21-25 | `int(s)` succeeds exactly on a non-empty digit string, optionally after one sign, and returns its value with that sign; anything else is ValueError |
| ImagePaths.GetImgNum | relevance_feedback.py:5-25 | the digit slice is chosen by the path's length; `GetImgNumShortDigits`, `GetImgNumLongDigits` and `GetImgNumInvertsImagePath` state what it returns |
| ImagePaths.ImagePath | UI.py:16-31 | the path `images/{n}.jpg`, also built at relevance_feedback.py:112; `GetImgNumInvertsImagePath` and `ImagePathInjective` state that `get_img_num` reads it back and that it is injective below 1000 |
| ImagePaths.Slice | relevance_feedback.py:21-25 | a Python slice with in-range bounds is the sub-sequence; a slice is never longer than the string |
| ImagePaths.GetImgNumShortDigits | relevance_feedback.py:20-25 | for a path `images/{d}.jpg` with one to three digits, `get_img_num` returns the value of `d` |
| ImagePaths.GetImgNumLongDigits | relevance_feedback.py:24-25 | with four or more digits only the first three are read |
| ImagePaths.GetImgNumInvertsImagePath | relevance_feedback.py:5-25 | `get_img_num(get_image_path(n)) == n` for every `n < 1000` |
| ImagePaths.ImagePathInjective | UI.py:16-31 | below 1000, two image numbers have the same path exactly when they are equal |
| ImagePaths.GetImgNumTruncatesAtFourDigits | relevance_feedback.py:24-25 | the round trip fails at 1000, whose path reads back as 100 |
| Ranking.EntryLeTotalOrder | cbir_methods.py:152 | the order `sorted()` uses on `(distance, path)` tuples is reflexive, total, antisymmetric and transitive |
| Ranking.InsertPermutation | cbir_methods.py:152 | inserting an entry adds exactly that entry |
| Ranking.InsertSorted | cbir_methods.py:152 | inserting into a sorted list keeps it sorted |
| Ranking.SortSortedPermutation | cbir_methods.py:152 | `Sort` returns a sorted permutation of its input |
| Ranking.SortPermutation | cbir_methods.py:152 | `Sort` keeps exactly the entries it is given |
| Ranking.SortSorted | cbir_methods.py:152 | `Sort` returns its entries in `(distance, path)` order |
| Ranking.Sort | cbir_methods.py:152 | `sorted()` on `(distance, path)` tuples, also at relevance_feedback.py:114; `SortPermutation`, `SortSorted` and `SortedPermutationUnique` state that it is the one sorted permutation |
| Ranking.SortedHeadIsLeast | relevance_feedback.py:114 | the first entry of a sorted list is at most every entry |
| Ranking.SortedPermutationUnique | cbir_methods.py:152 | two sorted permutations of the same entries are equal, so `Sort` is exactly `sorted()` |
| ColorCodes.ToBinary | cbir_methods.py:79-81 | `format(v, 'b')` is a non-empty string of binary digits |
| ColorCodes.ZFill | cbir_methods.py:79-81 | `zfill(w)` keeps a string of length at least `w`; otherwise it pads with '0's on the left to length `w`, ending in the original string |
| ColorCodes.BinaryValueAppend | cbir_methods.py:83-84 | reading `a + b` in base 2 shifts `a` by the length of `b` and adds `b` |
| ColorCodes.BinaryValueOfToBinary | cbir_methods.py:79-84 | `int(format(v, 'b'), 2) == v` |
| ColorCodes.ToBinaryLength | cbir_methods.py:79-81 | a value below `2^k` has at most `k` binary digits |
| ColorCodes.ZFillKeepsValue | cbir_methods.py:79-81 | padding to width 8 gives 8 binary digits of the same value |
| ColorCodes.PaddedChannel | cbir_methods.py:79-81 | a channel's padded string is 8 characters long and denotes the channel |
| ColorCodes.TopTwoBits | cbir_methods.py:83 | the first two characters of the padded string denote `v div 64` |
| ColorCodes.BinaryValue | cbir_methods.py:84 | `int(s, 2)` on a string of binary digits; `BinaryValueOfToBinary` states that it reads `format(v, 'b')` back as `v`, and `ColorCodeFormula` that on the six top bits it gives the packed code |
| ColorCodes.ColorCodeFormula | cbir_methods.py:78-84 | the colour code equals `(r div 64)*16 + (g div 64)*4 + b div 64` and lies in 0..63 |
| ColorCodes.ColorCode | cbir_methods.py:78-84 | the colour code built from the padded binary strings; `ColorCodeFormula`, `ColorCodeUnpacks` and `ColorCodeInjective` state its value, its range and that it packs the top two bits of each channel |
| ColorCodes.ColorCodeUnpacks | cbir_methods.py:78-84 | the code gives back each channel's top two bits: code div 16, (code div 4) mod 4 and code mod 4 |
| ColorCodes.ColorCodeInjective | cbir_methods.py:78-84 | two pixels share a code exactly when their top two bits agree channel by channel |
| ColorCodes.PackInjective | cbir_methods.py:78-84 | packing three values below 4 as `16a + 4b + c` is injective |
| Histograms.ScanLength | cbir_methods.py:47-49 | the nested pixel loops collect `width*height` values |
| Histograms.ScanAt | cbir_methods.py:47-49 | pixel `(i, j)` is collected at position `i*height + j` |
| Histograms.ScanPositionsDistinct | cbir_methods.py:76-77 | distinct pixels land at distinct positions |
| Histograms.ScanCoversEachPosition | cbir_methods.py:76-77 | position `k` holds pixel `(k div height, k mod height)`, a pixel of the image |
| Histograms.ScanPixels | cbir_methods.py:47-49 | the column-then-row loops return the scan, `width*height` long |
| Histograms.CodeOfPixel | cbir_methods.py:76-85 | position `i*height + j` of the collected codes is pixel `(i, j)`'s colour code |
| Histograms.ScanAll | cbir_methods.py:76-85 | a property every pixel value has holds for every collected value |
| Histograms.CodesBelow64 | cbir_methods.py:76-85 | every collected colour code is below 64 |
| Histograms.CalculateColorCode | cbir_methods.py:72-85 | the size is `width*height`; there is one code per pixel in scan order, each below 64 |
| Histograms.IntensityBinEdgesShape | cbir_methods.py:44-45 | the edges are 0, 10, ..., 240, 255: 26 strictly increasing edges, so 25 bins over [0, 255] |
| Histograms.IntensityBinEdges | cbir_methods.py:44-45 | the intensity edges; `IntensityBinEdgesShape` states their values and count |
| Histograms.Histogram | cbir_methods.py:51 | `np.histogram` with explicit edges has one count per bin; `HistogramTotal` and `ExactlyOneBin` state what the counts add up to |
| Histograms.ExactlyOneBin | cbir_methods.py:51 | with strictly increasing edges, a value between the first and last edge falls in exactly one bin, and any other value in none |
| Histograms.BinTotalsSnoc | cbir_methods.py:51 | one more value adds its bin indicator to the bin totals |
| Histograms.HistogramTotal | cbir_methods.py:51 | the histogram has one bin fewer than edges, and its counts add up to the number of values in range |
| Histograms.AllInRange | cbir_methods.py:51 | when every value is in range, all of them are counted |
| Histograms.CalculateIntensity | cbir_methods.py:41-52 | the size is `width*height`; the 25 bins are the histogram of the per-pixel intensities in scan order, and they add up to the size when every intensity lies in [0, 255] |
| Manhattan.AsWrittenGuardNeverFires | cbir_methods.py:109-120 | as written, the length guard never returns -1; a shorter second histogram raises IndexError, and a longer one gives a distance over the first histogram's bins |
| Manhattan.AsWrittenMismatchExample | cbir_methods.py:109-111 | one bin against two gives distance 0 as written, where the corrected distance is -1 |
| Manhattan.DistanceAsWritten | cbir_methods.py:109-120 | `calculate_manhattan` as written; `AsWrittenGuardNeverFires` and `AsWrittenAgreesOnEqualLengths` state where it fails and where it agrees with the corrected distance |
| Manhattan.AsWrittenAgreesOnEqualLengths | cbir_methods.py:109-120 | on histograms of one length, the code as written and the corrected guard give the same non-negative distance |
| Manhattan.BinDistanceNonNegative | cbir_methods.py:113-120 | the accumulated distance is never negative |
| Manhattan.BinDistanceSymmetric | cbir_methods.py:113-120 | the accumulated distance does not depend on the order of the images |
| Manhattan.BinDistanceSelf | cbir_methods.py:113-120 | an image is at distance 0 from itself |
| Manhattan.DistanceProperties | cbir_methods.py:90-120 | the distance is -1 exactly on a length mismatch; otherwise it is non-negative and symmetric; an image is at 0 from itself |
| Manhattan.Distance | cbir_methods.py:90-120 | the corrected distance; `DistanceProperties` and `CalculateManhattan` state its properties and that the loop computes it |
| Manhattan.SameFractionsZeroDistance | cbir_methods.py:113-120 | histograms with equal size-normalised bins are at distance 0 |
| Manhattan.CalculateManhattan | cbir_methods.py:109-120 | the loop computes the distance: -1 exactly on a length mismatch, otherwise a non-negative sum |
| Manhattan.CandidatesExactly | cbir_methods.py:142-151 | an entry is collected exactly when a listed file other than `Thumbs.db` and the selected image carries that file's distance and path; one entry per such file, none for the selected image |
| Manhattan.Ranked | cbir_methods.py:145-148 | a listed file is ranked unless it is `Thumbs.db` or its path is the selected image; `CandidatesExactly` states that exactly the ranked files give entries |
| Manhattan.Candidates | cbir_methods.py:142-151 | the entries the `get_distance` loop collects; `CandidatesExactly` and `CandidatesAsWritten` state which entries they are and their distances |
| Manhattan.CandidatesAsWritten | cbir_methods.py:142-151 | when every histogram has the same bin count, each collected distance is what `calculate_manhattan` as written returns, and is non-negative |
| Manhattan.GetDistance | cbir_methods.py:122-152 | when every histogram has the same bin count: the result is the collected entries sorted ascending (a sorted permutation, one per ranked file, never the selected image), and each entry's distance is non-negative and is what `calculate_manhattan` as written returns |
| Manhattan.PrecomputeRankings | cbir_methods.py:159-165 | every listed image except `Thumbs.db` has an entry, keyed by its path, and nothing else does; each entry is `get_distance`'s ranking for that path |
| FeatureMatrix.Fractions | relevance_feedback.py:49-57 | an empty stored row is IndexError; a zero size with a bin to divide is ZeroDivisionError; otherwise one fraction per bin, each fraction times the size giving the bin |
| FeatureMatrix.RowsErrorPersists | relevance_feedback.py:48-59 | once an image fails, the image loop ends in that error |
| FeatureMatrix.Row | relevance_feedback.py:49-59 | one image's feature row; `RowLayout` states its layout and length |
| FeatureMatrix.Rows | relevance_feedback.py:48-59 | the image loop; `RowsShape` and `RowsErrorPersists` state when it succeeds, its keys and its first error |
| FeatureMatrix.Matrix | relevance_feedback.py:45-61 | `feature_mtx`; `BuildFeatureMatrix` states that its loop computes it |
| FeatureMatrix.RowsShape | relevance_feedback.py:48-59 | the loop succeeds exactly when every image 1..n has a row; the rows are then keyed by image number 1..n |
| FeatureMatrix.RowLayout | relevance_feedback.py:51-59 | a feature row is the colour fractions followed by the intensity fractions, with `(colour bins) + (intensity bins)` features |
| FeatureMatrix.FractionsSum | relevance_feedback.py:53-57 | the fractions add up to the bin total over the size, so to 1 when the bins count every pixel |
| FeatureMatrix.ScaleBins | relevance_feedback.py:49-57 | the `row[j] / size` loop computes `Fractions` (error cases included) |
| FeatureMatrix.RowFor | relevance_feedback.py:49-50 | image `i`'s feature row, after looking up `color[i]`, its size `color[i][0]` and `intens[i]` in that order (KeyError, IndexError); `FeatureRow` and `BuildFeatureMatrix` state that the image loop computes it |
| FeatureMatrix.FeatureRow | relevance_feedback.py:49-59 | one image-loop iteration yields the image's feature row or its first error |
| FeatureMatrix.BuildFeatureMatrix | relevance_feedback.py:45-62 | the matrix is rows 1..100 in image order, with KeyError/IndexError/ZeroDivisionError from the first failing image and ValueError when the rows differ in length |
| FeatureMatrix.NormalizeColumn | relevance_feedback.py:80-83 | with a non-zero deviation each value is `(x - mean) / sd`; with a zero deviation the filled NaNs make every value 0 |
| FeatureMatrix.ZScoreSumsToZero | relevance_feedback.py:74-83 | with the column's true mean, the normalised column sums to 0 |
| FeatureMatrix.ZScoreUnitVariance | relevance_feedback.py:74-83 | with pandas' sample deviation (`sd * sd * (n - 1)` is the sum of squared deviations), the z-scores' squares sum to `n - 1`: unit sample variance |
| FeatureMatrix.DeviationsSumToZero | relevance_feedback.py:74-80 | the deviations of a column from its mean sum to 0 |
| FeatureMatrix.ZScorePreservesOrder | relevance_feedback.py:80 | a positive deviation keeps the order of the values in both directions |
| FeatureMatrix.NormalizeMatrix | relevance_feedback.py:77-83 | the column loop normalises every feature column with its own mean and deviation |
| WeightUpdate.NonZero | relevance_feedback.py:148 | `filter(None, ...)` keeps exactly the non-zero values |
| WeightUpdate.Min | relevance_feedback.py:148 | `min` returns an element at most every element |
| WeightUpdate.Step | relevance_feedback.py:146-148 | one loop step keeps the length of the list |
| WeightUpdate.CheckFromShape | relevance_feedback.py:145-148 | from index `i` on, the loop keeps earlier entries and the kept deviations, and sets each replaced one to half the smallest non-zero value of the list as updated so far |
| WeightUpdate.CheckFrom | relevance_feedback.py:145-148 | the `check_std` loop from index `i` keeps the length; `CheckFromShape` and `CheckFromError` state its result and its error |
| WeightUpdate.CheckStd | relevance_feedback.py:142-149 | the in-place loop computes `check_std`, errors included |
| WeightUpdate.CheckStdShape | relevance_feedback.py:142-149 | `check_std` keeps the length, every non-zero deviation and every zero one at a zero mean; each zero one at a non-zero mean becomes half the least non-zero value at that point |
| WeightUpdate.CheckStdResult | relevance_feedback.py:142-149 | `check_std`; `CheckStdShape`, `CheckStdError` and `CheckStdReplacementsHalve` state its result and its error |
| WeightUpdate.NonZeroEmpty | relevance_feedback.py:148 | nothing survives the filter exactly when every value is zero |
| WeightUpdate.CheckFromError | relevance_feedback.py:145-148 | from index `i` on, the loop fails exactly when the list is all zeros and a later mean is non-zero, and the failure is ValueError |
| WeightUpdate.CheckStdError | relevance_feedback.py:142-149 | with a mean for every deviation, `check_std` fails exactly when every deviation is zero and some mean is not, with ValueError |
| WeightUpdate.MinNonZeroPositive | relevance_feedback.py:148 | on non-negative deviations the replacement base is positive |
| WeightUpdate.CheckFromNonNegative | relevance_feedback.py:145-149 | non-negative deviations stay non-negative |
| WeightUpdate.SpliceNonNegative | relevance_feedback.py:145-148 | the list as updated up to index `k` stays non-negative |
| WeightUpdate.MinNonZeroAtMost | relevance_feedback.py:148 | the least non-zero value is at most each non-zero value |
| WeightUpdate.CheckStdReplacementsHalve | relevance_feedback.py:145-148 | every replacement is positive and at most half of each earlier one |
| WeightUpdate.CheckStdExample | relevance_feedback.py:142-149 | deviations `[0, 0, 4]` at means `[1, 1, 1]` become `[2, 1, 4]` |
| WeightUpdate.Reciprocal | relevance_feedback.py:154 | the weight times a non-zero deviation is 1; a zero deviation gets weight 0 |
| WeightUpdate.ComputeNewWeights | relevance_feedback.py:151-155 | one weight per deviation: its reciprocal, or 0 for a zero deviation |
| WeightUpdate.NewWeights | relevance_feedback.py:151-155 | one weight per deviation: its reciprocal, or 0 for a zero one; `NewWeightsOrder` states the order it gives |
| WeightUpdate.NewWeightsOrder | relevance_feedback.py:151-155 | weights are non-negative, positive for positive deviations, and smaller for larger deviations |
| WeightUpdate.NewWeightsNonNegative | relevance_feedback.py:151-155 | non-negative deviations give non-negative weights |
| WeightUpdate.NormalizedWeights | relevance_feedback.py:157-162 | each weight is divided by the total; a non-empty list with total 0 divides by zero |
| WeightUpdate.NormalizedWeightsSumToOne | relevance_feedback.py:157-162 | normalised weights sum to 1 and keep non-negativity |
| WeightUpdate.NormalizedWeightsKeepOrder | relevance_feedback.py:157-162 | normalising keeps the order of non-negative weights |
| WeightedRanking.EqualWeightsScaleL1 | relevance_feedback.py:89 | equal weights multiply the unweighted Manhattan distance |
| WeightedRanking.PrefixWeights | relevance_feedback.py:97-98 | only the weights of the query's features matter |
| WeightedRanking.WeightedSumNonNegative | relevance_feedback.py:97-98 | non-negative weights give a non-negative distance |
| WeightedRanking.WeightedSumSelf | relevance_feedback.py:97-98 | a column is at distance 0 from itself |
| WeightedRanking.WeightedSumSymmetric | relevance_feedback.py:97-98 | the distance is symmetric |
| WeightedRanking.WeightedSumDivided | relevance_feedback.py:161 | dividing every weight by the total divides the distance by it |
| WeightedRanking.WeightedDistanceUniform | relevance_feedback.py:88-89 | a float weight gives that multiple of the Manhattan distance, as a vector of that float would |
| WeightedRanking.ConstantScalesL1 | relevance_feedback.py:88-89 | a vector repeating one weight gives that multiple of the Manhattan distance |
| WeightedRanking.WeightedDistanceProperties | relevance_feedback.py:87-99 | the distance is defined exactly when a weight vector covers the features; it is symmetric, zero to itself, and non-negative under non-negative weights |
| WeightedRanking.WeightedDist | relevance_feedback.py:87-99 | both branches compute the weighted distance; a short weight vector raises IndexError |
| WeightedRanking.WeightedDistance | relevance_feedback.py:87-99 | `calculate_weighted_dist`; `WeightedDistanceProperties` and `WeightedDistanceUniform` state when it is defined and its properties |
| WeightedRanking.Lookup | relevance_feedback.py:106 | a lookup misses exactly when no column carries the number, and otherwise yields the features of a column that does |
| WeightedRanking.Scored | relevance_feedback.py:109-113 | scoring the first `n` columns yields `n` entries |
| WeightedRanking.ScoredEntries | relevance_feedback.py:109-113 | entry `k` is column `k`'s weighted distance to the query with column `k`'s path |
| WeightedRanking.ScoredSucceeds | relevance_feedback.py:109-113 | scoring fails exactly when a weight vector is shorter than the features, with IndexError |
| WeightedRanking.DistanceRankingErrors | relevance_feedback.py:103-114 | `calculate_distance` is KeyError exactly when the query column is missing, and otherwise succeeds exactly when the weights cover the features |
| WeightedRanking.DistanceRanking | relevance_feedback.py:103-114 | `calculate_distance`; `DistanceRankingErrors`, `DistanceRankingShape` and `DistanceRankingStartsAtZero` state its errors and its shape |
| WeightedRanking.DistanceRankingShape | relevance_feedback.py:103-114 | the ranking is sorted with one entry per column, every image's path appears, and the query's own entry at distance 0 is included |
| WeightedRanking.DistanceRankingStartsAtZero | relevance_feedback.py:103-114 | under non-negative weights the first entry is at distance 0 |
| WeightedRanking.DistanceRankingSorts | relevance_feedback.py:103-114 | a successful ranking found the query column, scored every column against it and sorted the scores |
| WeightedRanking.ScoredNonNegative | relevance_feedback.py:109-113 | under non-negative weights every scored entry has a non-negative distance |
| WeightedRanking.SortedScoresHaveEveryPath | relevance_feedback.py:109-114 | every column's image path appears in the sorted scores |
| WeightedRanking.QueryScoresZero | relevance_feedback.py:109-114 | the query image appears in the sorted scores at distance 0 |
| WeightedRanking.CalculateDistance | relevance_feedback.py:103-114 | the loop and `sorted` compute the ranking |
| WeightedRanking.ScoredErrorPersists | relevance_feedback.py:109-111 | the first failing column decides the result |
| WeightedRanking.RelevantFeaturesErrorPersists | relevance_feedback.py:122-125 | the first failing relevant path decides the result |
| WeightedRanking.RelevantFeatures | relevance_feedback.py:121-125 | the relevant images' features by number; `RelevantFeaturesShape` and `RelevantFeaturesErrorPersists` state what it holds and its first error |
| WeightedRanking.RelevantFeaturesShape | relevance_feedback.py:121-125 | the features map is empty exactly when no path is relevant, and each entry holds the features of a column with that number |
| WeightedRanking.SumPositive | relevance_feedback.py:159 | non-negative weights with a positive one have a positive total |
| WeightedRanking.CheckedDeviations | relevance_feedback.py:134 | checked deviations are non-negative; non-zero ones are unchanged; a zero one had deviation and mean both zero |
| WeightedRanking.FeedbackWeightsProperties | relevance_feedback.py:134-138 | feedback weights exist exactly when some deviation is non-zero (or there are no features); they are then non-negative, sum to 1, and give no weight to a feature with zero deviation and zero mean |
| WeightedRanking.FeedbackWeights | relevance_feedback.py:134-138 | `check_std`, `compute_new_weights` and `compute_normalized_weights` in sequence; `FeedbackWeightsProperties` and `FeedbackWeightsOrder` state what they give |
| WeightedRanking.CheckedWeights | relevance_feedback.py:134-137 | weights from checked deviations are non-negative, one per feature, zero for a zero deviation with a zero mean, and have a positive total exactly when some deviation is non-zero |
| WeightedRanking.FeedbackWeightsOrder | relevance_feedback.py:134-138 | a feature that varies more among the relevant images gets a smaller weight |
| WeightedRanking.UpdatedRankingProperties | relevance_feedback.py:119-140 | with non-negative deviations, a successful feedback ranking is sorted, one entry per image, and starts with the query at distance 0 |
| WeightedRanking.UpdatedRanking | relevance_feedback.py:119-140 | `calculate_updated_weight`; `UpdatedRankingProperties` and `UpdatedRankingNeedsRelevant` state its shape and its errors |
| WeightedRanking.UpdatedRankingNeedsRelevant | relevance_feedback.py:119-140 | once the features and weights are found, the ranking fails only for a missing query (KeyError), or with IndexError when no image is relevant and the columns have features |
| WeightedRanking.CalculateUpdatedWeight | relevance_feedback.py:119-140 | gathering the relevant features and running the weight pipeline computes the feedback ranking, errors included |
| Pagination.Session.constructor | UI.py:46-50 | a new session shows nothing, is on page 0, and is valid |
| Pagination.WindowStart | UI.py:127 | page `p` starts at index `p * 20`; `PagesTileNinetyNine` states that the windows of pages 0..4 tile the 99 results |
| Pagination.Paths | UI.py:94 | `img_results` has one path per result, the `k`-th result's path at position `k` |
| Pagination.LastPage | UI.py:108 | the last page is the one holding position `len(results)`: `last*20 <= len < (last+1)*20` |
| Pagination.WindowEnd | UI.py:127-134 | a page's window ends after its start and at most 20 past it, and is one short exactly on the fifth page |
| Pagination.Session.Retrieve | UI.py:73-89 | retrieval returns to page 0; a usable method with a ranking for the path replaces the results; otherwise the outcome reports the missing method or image and the results stay |
| Pagination.Session.NextPage | UI.py:113-117 | "Next Page" moves one page on, stopping at the last page; page validity is kept |
| Pagination.Session.PreviousPage | UI.py:119-123 | "Previous Page" moves one page back, stopping at page 0; page validity is kept |
| Pagination.Session.Display | UI.py:127-141 | the grid loops show the paths of the page's window exactly when it lies within the results; otherwise IndexError |
| Pagination.PagesTileNinetyNine | UI.py:106-141 | with 99 results the pages are 0..4, every window is in bounds, and each index appears on exactly one page |
| Pagination.PagesWithHundredResults | UI.py:132-134 | with 100 results index 99 is on no page and the last page reads past the end |

## Left out

- Image decoding, the Excel, JSON and CSV files, `os.listdir` and the
  Streamlit widgets are not modelled as I/O. Images are pixel functions,
  listings are sequences, spreadsheets are maps, and the JSON rankings
  are the maps the session starts with.
- Histograms.CalculateIntensity: the luma `0.299 R + 0.587 G + 0.114 B` is a
  floating-point expression and is a given function. The model proves the
  bin total only when every intensity lies in [0, 255].
- Histograms.CalculateColorCode: stops at the list of codes. The final
  `np.histogram(codes, bins=64)` call uses 64 equal-width float bins over
  the data's own minimum and maximum, which depend on float edges.
- FeatureMatrix.NormalizeMatrix: pandas' column `mean()` and `std()` are
  given inputs. `ConsistentStats` demands that a zero deviation comes with
  a constant column; `inf` is not modelled.
- FeatureMatrix.BuildFeatureMatrix:
  - NaN cells, such as empty spreadsheet cells, are not modelled: stored
    rows are sequences of reals. So `fillna(0)` on the feature matrix has
    nothing to replace.
  - The second, identical `feature_mtx` definition is not modelled, nor is
    the module-level call that writes `normalized_matrix2.csv`.
- WeightedRanking.CalculateUpdatedWeight:
  - The deviations and means of the relevant images come from a given
    `stats` function. `StatsPerFeature` demands one entry per feature of
    the relevant rows, and none for no relevant rows. With one relevant
    image pandas gives NaN deviations; that is not modelled.
  - An all-zero weight total, where pandas goes on with NaN weights, ends
    the model in `Err(NotANumber)`.
- WeightedRanking.RelevantFeatures: the relevant images form a Python set.
  Its iteration order is taken as the given sequence order.
- Manhattan.GetDistance and Manhattan.PrecomputeRankings: they require
  one bin count for every extracted histogram (`SameBins`), as the two
  extractors give. On histograms of different lengths the model does not
  follow the code as written, which raises IndexError or sums over the
  first histogram's bins; `AsWrittenGuardNeverFires` states what it does.
- Image sizes are at least one pixel (`Manhattan.PixelCount`). numpy's
  division by a zero size is not modelled.
- ImagePaths.ParseInt: accepts only an optional sign followed by digits.
  Python's `int` also accepts surrounding whitespace and underscores
  between digits.
- ImagePaths.ImagePath: takes a natural number. The widget's float and the
  `int()` truncation of `get_image_path` are not modelled, since the
  widget's step is 1.
- Pagination.Session.Display: the rendering is not modelled: each image,
  its caption and its "Relevant" checkbox become the path shown. The
  "Page x of 5" header is also not modelled.
- `get_intensity`, `get_normalized_matrix`'s CSV output and the
  `paginator` import are not part of this model.

## Findings

| source | as written | input that shows it | evidently intended | confidence | as-written member | corrected member |
|---|---|---|---|---|---|---|
| cbir_methods.py:109-111 | the guard compares the lengths of the two `(size, hist)` tuples, which are always 2, so it never reports a mismatch | histograms `[1]` and `[1, 0]` of one-pixel images: distance 0 instead of -1 (and IndexError with the arguments swapped) | compare the lengths of the two histograms and return -1 when they differ | not executed; both extractors always produce histograms of one fixed length, so the tool never reaches the case | Manhattan.AsWrittenMismatchExample | Manhattan.CalculateManhattan |

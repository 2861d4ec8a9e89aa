# Lane-pixel discovery and training-sample packing, in Dafny

This project models two discrete parts of a camera-based steering pipeline.

- **Lane-pixel discovery** (`src/perception/lane_detection.py`):
  - the bright-pixel masker (`get_bright_pixels`);
  - the lane-base locator (`get_lane_beginnings`). It builds a column histogram over the bottom 5% of the mask, keeps the strong columns, splits them at their mean and takes the truncated median of each side;
  - the sliding-window tracker (`get_whole_lanes`). It walks up to nine 220x72 windows up the mask from each lane base and copies the mask inside every visited window.
- **Training-sample packing** (`src/learning/dataset.py`, `format_dataset`): five-frame sliding windows per video, labels taken from `y[4:]`, concatenation in filename order, and dx quantised to the classes 0 (left), 1 (straight) and 2 (right).

Images and masks are `seq<seq<…>>` in row-major order. Every operation is a pure function. The locator and the packer return a `Result` for the cases where the original raises. The tracker's raising case is excluded by a precondition instead (see Left out). The tracker's loop is a fuel-bounded recursion over the window state.

Files, one module each:

- `results.dfy` (`Results`): the `Ok`/`Err` result type.
- `raster.dfy` (`Raster`): masks, shapes and the blank mask.
- `sequences.dfy` (`Sequences`): sorted index lists, boolean-index filtering, sum, maximum and median.
- `bright_pixels.dfy` (`BrightPixels`): the masker.
- `lane_bases.dfy` (`LaneBases`): the lane-base locator.
- `window_tracker.dfy` (`WindowTracker`): the tracker.
- `dataset.dfy` (`Dataset`): sample packing and quantisation.

Arithmetic is stated exactly, with these choices:

- `int(0.95*H)` is `(95*H)/100`. The double nearest 0.95 is off by less than half an ulp of any product with an integer H. So the floating product truncates to the same integer.
- `histogram > max/3` is `3*count > max`.
- `column < mean` is `column*n < sum`, and `column > mean` is `column*n > sum`. With no strong column the original's mean is NaN and both comparisons are false. With n = 0 the integer form is false as well.
- `int(np.median(…))` on the sorted column lists is `(s[(n-1)/2] + s[n/2]) / 2`. Dafny's `/` floors, which equals Python's truncation for the non-negative column indices involved.
- The next window's left edge, `int(np.mean(…)) - 110`, is stated by the predicate `CentredOn`: `(left+110)*hits <= column sum < (left+111)*hits`.

## Model

| member | source | states |
|---|---|---|
| BrightPixels.BrightMask | src/perception/lane_detection.py:21 | The mask has the image's shape. Cell (i,j) is true iff the red, green and blue channels of pixel (i,j) are all strictly above 175. |
| BrightPixels.BrightIffAllChannels | src/perception/lane_detection.py:21 | `all` over the channel axis of `pixel > 175` is the conjunction of the three channel comparisons. |
| BrightPixels.ChannelAtThresholdIsDim | src/perception/lane_detection.py:21 | A pixel with any channel exactly 175 is not bright: the comparison is strict. |
| BrightPixels.DimImageGivesBlankMask | src/perception/lane_detection.py:21 | If every pixel has some channel at or below 175, the whole mask is false. |
| BrightPixels.BrightMaskMonotone | src/perception/lane_detection.py:21 | Raising channel values pixel by pixel never clears a mask bit. |
| LaneBases.BandStart | src/perception/lane_detection.py:39 | The band's first row is floor(0.95*H): at most H, with 100*start <= 95*H < 100*(start+1). |
| LaneBases.Band | src/perception/lane_detection.py:39 | The band has H - floor(0.95*H) rows, and band row i is mask row floor(0.95*H) + i, in order. |
| LaneBases.Histogram | src/perception/lane_detection.py:40 | The histogram has one entry per column, and no entry exceeds the band's row count. |
| LaneBases.ColumnCountZero | src/perception/lane_detection.py:40 | A histogram count is zero iff no band row has a true cell in that column. |
| Sequences.MaxOf | src/perception/lane_detection.py:43 | `np.max` of a non-empty histogram is one of its entries, and no entry exceeds it. |
| Sequences.Filter | src/perception/lane_detection.py:43-45 | Boolean selection keeps a value iff it is in the input and satisfies the condition. The result is never longer than the input. |
| Sequences.FilterIncreasing | src/perception/lane_detection.py:43-45 | Selecting from a strictly increasing list keeps it strictly increasing. |
| LaneBases.Strong | src/perception/lane_detection.py:43 | The strong columns come out strictly increasing, all within [0, W). |
| LaneBases.StrongColumnsExactly | src/perception/lane_detection.py:43 | A column is strong iff 3 times its band count exceeds the largest band count. |
| Sequences.MeanStrictlyInside | src/perception/lane_detection.py:44 | For two or more distinct sorted columns, the mean lies strictly between the smallest and the largest. |
| LaneBases.LowCluster | src/perception/lane_detection.py:45 | The left cluster is exactly the strong columns strictly below their mean, still sorted. |
| LaneBases.HighCluster | src/perception/lane_detection.py:45 | The right cluster is exactly the strong columns strictly above their mean, still sorted. |
| LaneBases.MeanColumnInNeither | src/perception/lane_detection.py:44-45 | A strong column exactly at the mean is in neither cluster. |
| LaneBases.ClustersNonEmptyIff | src/perception/lane_detection.py:43-45 | Both clusters are non-empty iff there are at least two strong columns. With none, or with one, a median of an empty selection is taken. |
| LaneBases.ClustersSeparated | src/perception/lane_detection.py:44-45 | Every left-cluster column is strictly left of every right-cluster column, whatever the list. |
| LaneBases.ClusterMediansOrdered | src/perception/lane_detection.py:45 | For two or more strong columns: first strong column <= left median < right median <= last strong column. |
| Sequences.Median | src/perception/lane_detection.py:45 | The median of a sorted list, rounded down, lies between its first and its last element. Rounding down equals `int()`'s truncation only on non-negative lists, which the strong columns in [0, W) are. On a negative list it can differ: [-3, -2] gives -3 where `int(np.median)` gives -2. |
| WindowTracker.BaseNearLeftEdgeLeavesGrid | src/perception/lane_detection.py:65 | A lane base below 110 puts the first window's left edge at base - 110 < 0, so that walk does not stay inside the grid. |
| Sequences.MedianSplitsEvenly | src/perception/lane_detection.py:45 | Of n distinct sorted values, exactly ceil(n/2) are at most the truncated median and floor(n/2) are above it. This is what makes it a median. |
| LaneBases.SplitAtMean | src/perception/lane_detection.py:44-45 | Splitting sorted strong columns succeeds iff there are at least two. Otherwise it fails with NoLaneDetected. On success the bases are ordered, lie within the strong columns' span, and are the medians of the two clusters. |
| LaneBases.LaneBeginnings | src/perception/lane_detection.py:36-45 | Width 0 fails with EmptyHistogram. Otherwise the call succeeds iff at least two columns are strong, and fails with NoLaneDetected otherwise. On success, min strong <= left < right <= max strong < W, and left and right are the truncated medians of the columns below and above the mean. |
| LaneBases.BasesDependOnlyOnBand | src/perception/lane_detection.py:39-40 | Two masks of the same shape that agree on every row from floor(0.95*H) down give the same lane bases. |
| LaneBases.BlankBandFails | src/perception/lane_detection.py:39-45 | If the bottom band has no true cell, no column is strong and the locator fails. |
| WindowTracker.EmptyWindowIffNoTrueCell | src/perception/lane_detection.py:71 | A window's hit count is zero iff none of its cells is true, which is `not np.any(bounding_box)`. |
| WindowTracker.Recentre | src/perception/lane_detection.py:74-75 | The next left edge plus 110 is the floor of the mean column of the window's true cells. It lies in [bx-110, bx+109]. |
| WindowTracker.Walk | src/perception/lane_detection.py:64-76 | A walk with fuel f visits at most f windows, and at least one when f >= 1. The first is the starting window, and the k-th sits 72*k rows higher. |
| WindowTracker.WalkSteps | src/perception/lane_detection.py:67-76 | Every window but the last had a true cell, and the next window is re-centred on it. A walk shorter than its fuel ended on an empty window. |
| WindowTracker.Paint | src/perception/lane_detection.py:69 | Copying one window keeps the output's shape. Cells inside the window take the mask's value, and every other cell keeps its prior value. |
| WindowTracker.WalkEndsEmpty | src/perception/lane_detection.py:67-72 | A walk that stops before its fuel runs out stops at a window with no true cell. |
| WindowTracker.Run | src/perception/lane_detection.py:67-72 | After the loop, a cell inside any visited window holds the mask's value. Every other cell keeps its prior value. |
| WindowTracker.WholeLane | src/perception/lane_detection.py:60-78 | The lane mask has the mask's H x W shape. A cell is true iff the mask is true there and the cell lies in a visited window. |
| WindowTracker.WholeLanes | src/perception/lane_detection.py:63-78 | Both outputs have the mask's H x W shape. A cell of the left output is true iff the mask is true there and the cell lies in a window of the walk from the left base. The right output is the same with the right base. |
| WindowTracker.StartWindow | src/perception/lane_detection.py:65 | The first window is horizontally centred on the base (left edge + 110 = base), and its top row is 72 rows above the bottom (top + 72 = H). |
| WindowTracker.LaneWalkRows | src/perception/lane_detection.py:65-76 | A lane visits 1 to 9 windows. The first is centred on the base (left edge base-110). Window k covers rows [H-72(k+1), H-72k). |
| WindowTracker.WalkFollowsCentroid | src/perception/lane_detection.py:74-75 | Each later window's left edge is floor(mean true column of the window below) - 110, so it lies within [bx-110, bx+109] of the previous edge. |
| WindowTracker.LaneWalkStopsAtEmptyWindow | src/perception/lane_detection.py:67-72 | Every window before the last holds a true cell. A walk of fewer than 9 windows ended on a window with none. |
| WindowTracker.WholeLaneWithinWindows | src/perception/lane_detection.py:68-69 | The output is a subset of the mask. It equals the mask inside every visited window and is false outside them. |
| WindowTracker.WholeLaneBlankAboveStop | src/perception/lane_detection.py:71-72 | Every row above the last visited window is false in the output. |
| WindowTracker.WholeLaneOfBlankMask | src/perception/lane_detection.py:63-72 | An all-false mask stops the walk after one window and gives an all-false output. |
| WindowTracker.LanesIndependent | src/perception/lane_detection.py:64-65 | The left output does not depend on the right base, nor the right output on the left base. |
| Dataset.SlidingWindows | src/learning/dataset.py:23-25 | A video of n frames gives max(0, n-4) samples, and sample i is frames i..i+4 in order. |
| Dataset.LastFrameDxs | src/learning/dataset.py:28 | `y[4:]` has max(0, n-4) entries, and entry i is the dx of frame i+4. |
| Dataset.Quantise | src/learning/dataset.py:32-34 | The class is 0 iff dx < -10, 1 iff -10 <= dx <= 10 (both ends inclusive), and 2 iff dx > 10. It is always below 3. |
| Dataset.QuantiseMonotone | src/learning/dataset.py:32-34 | A larger dx never gets a smaller class. |
| Dataset.ReadAll | src/learning/dataset.py:16-19 | The reader is applied to each filename, in order. |
| Dataset.FormatDataset | src/learning/dataset.py:3-36 | An empty file list fails with NoVideos. A zero-frame video mixed with non-empty ones fails with FrameShapeMismatch. Otherwise the call succeeds: the inputs are the per-video windows in filename order, and label i is the class of the i-th packed dx. |
| Dataset.PackInputs | src/learning/dataset.py:24-36 | Every packed sample holds exactly five frames. |
| Dataset.PackDxs | src/learning/dataset.py:28-31 | Every packed dx is a dx of one of the videos. |
| Dataset.PackAppend | src/learning/dataset.py:16-31 | Packing the videos of a + b packs a and then b, for samples and labels alike. |
| Dataset.PackCounts | src/learning/dataset.py:24-31 | The packed sample count is the sum of max(0, frames-4) over the videos. The label count is the sum of max(0, dxs-4). |
| Dataset.SampleAndLabelCountsAgree | src/learning/dataset.py:25-36 | If every video has one dx per frame, there are exactly as many labels as samples. |
| Dataset.SamplesAligned | src/learning/dataset.py:16-31 | With one dx per frame, packed sample j is five consecutive frames of a single video, and packed dx j is that video's dx for the last of those frames. No sample spans two videos. |
| Dataset.DatasetAligned | src/learning/dataset.py:16-36 | On success, with one dx per frame, sample j and label j pair a five-frame window of one file with the class of its last frame's dx. |
| Dataset.SingleVideo | src/learning/dataset.py:19-34 | One file yields exactly its sliding windows, labelled from `y[4:]`. |

## Left out

- `src/perception/lane_edges.py`: erosion, closing and `filter2D` are OpenCV calls. Their border modes and saturation rules live in a library that is not part of this model.
- `src/planning/polynomial_fit.py`, `src/planning/trajectory.py`, `src/control/steering.py`: least-squares fitting, the 1.5 power and cos/sin are floating-point numerics with no exact counterpart here.
- `src/utils/video.py`: video decoding, every-30th-frame sampling, the "previous dx or 0" fallback, resizing and greyscale conversion are I/O. The reader is a parameter of `Dataset.FormatDataset`.
- `src/learning/model.py`, `scripts/train_model.py`, `src/visualization/render.py`: model definition, training, file save/load and plotting.
- The `print` in the `format_dataset` loop, which only runs as a script, is not modelled.
- WindowTracker.WholeLane: the precondition `WalkInside` requires every visited window to lie inside the H x W mask. Walks that leave the grid are not modelled. The precondition is weaker than H >= 648 together with every visited window lying in columns [0, W), because only the windows actually visited must fit. H >= 648 alone does not imply it: a base below 110 breaks it at any height (`WindowTracker.BaseNearLeftEdgeLeavesGrid`). The original's behaviour outside the grid, for H >= 72 and W >= 220, is as follows:
  - Lane bases are non-negative, so a window's left edge bx is at least -110.
  - A window with bx < 0 slices columns `W+bx : bx+220`, which is empty. It paints nothing, the loop breaks at lines 71-72, and the call returns normally.
  - A window with -72 <= by < 0 slices rows `H+by : by+72`, which is also empty. It too paints nothing, breaks, and returns normally.
  - A window clipped at the right edge breaks the same way if its clipped box is all false. If the box holds a true cell, `x_values[bounding_box]` at line 75 raises `IndexError` on the shape mismatch.
- Dataset.Quantise: dx is a mathematical real. A NaN dx, which the original leaves as class 0, has no counterpart.
- Dataset.FormatDataset: frames are of an arbitrary type `T`. The only array-shape failure modelled is the zero-frame video. Two other failures are not modelled: frames of differing shapes inside one video, and frames whose shapes differ between two videos, which makes `np.concatenate(xs)` at line 36 raise.
- The error kinds are named for what fails. The original raises a plain `ValueError` in every case: `np.max` of an empty array for EmptyHistogram, `int(nan)` for NoLaneDetected, `np.concatenate` for NoVideos and FrameShapeMismatch.
- Two concrete scenarios are not stated as lemmas. The first is a column histogram with two peaks, at columns 100 and 300, each at least 3 columns wide. The second is an image whose only bright pixels are two full-height vertical stripes, 10 columns wide, at columns 100 and 300. The contract of `LaneBeginnings` fixes the bases of both. In the stripe image the left base is below 110, so `WalkInside` fails for that lane (`WindowTracker.BaseNearLeftEdgeLeavesGrid`) and `WholeLane` promises nothing about it. There the original's first window slices an empty column range, the loop breaks at lines 71-72, and the left lane comes out all false.

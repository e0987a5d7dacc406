# Ordered foreground masks from detections and depth — a Dafny model

This project models the deterministic raster logic of the `Model` class in
`core/__init__.py`. The class takes object detections and a depth map of one
frame. For each confident detection it builds a crop, then orders the crops
in ascending order of the normalised depth at each box's centroid. Each crop's pixels are clustered, and a foreground
mask is derived from the clusters. The masks are painted in depth order onto
two colour canvases. Finally the canvases are smoothed with a hybrid median
filter.

The modules follow the stages of the pipeline:

- `Rasters`: shared notions. These are the shape of a raster, the byte range, row-major flattening (`reshape(-1)`), sub-rectangles and colour channels.
- `Statistics`: order statistics on integer lists. It covers insertion sort, the median `np.median` takes of an odd-length list, the sorted distinct values of `np.unique`, and max, min and sum.
- `HybridMedian`: `Model.median` and `Model.final_median`. The raster is padded with a zero frame two cells wide. Each pixel becomes the median of three medians, taken over its 5-cell diagonal, its 5-cell anti-diagonal and its 5×5 block.
- `DepthNormalizer`: the depth-gradient part of `Model.preprocess`. Row `r` loses `255·r/(h−1)`, and the result is clipped to [0, 255].
- `CropExtractor`: `Model.crop`. It keeps detections with `conf ≥ 0.6` and truncates box coordinates. It takes the floor-division centroid and reads the depth there. Finally it stable-sorts the crops by that depth.
- `Fusion`: the integer arithmetic of `Model.postprocess` for one crop. Cluster labels are rasterised to the centre values. The rest is the saturating and raw sums of the two blurred rasters, min–max normalisation, masking at the mean, and selection of the largest value as the foreground level.
- `Compositor`: the mask painting of `Model.ordered_paint` and the smoothing of `Model.final_filter`.

Rasters are `seq<seq<int>>`. A `uint8` value is an `int` with a byte-range predicate. Colour images are `seq<seq<seq<int>>>`. The floating-point depth and confidences are exact `real`s. numpy's float-to-`uint8` store of an in-range value is truncation (`Fusion.ToByte`). Python's `int()` on a float is truncation toward zero (`CropExtractor.Trunc`).

Two behaviours are modelled as the code has them, not as one might expect:

- Because of the zero frame, the four corner pixels of every non-empty byte raster come out of the hybrid median filter as 0. This includes a 1×1 raster, whose single pixel becomes 0 whatever its value (`HybridMedian.CornersVanish`).
- The min–max normalisation reads the unclipped sum `K_blur + G_blur`, not the clipped `image['fusion']` stored just before it. The model normalises the unclipped sum (`Fusion.RawSum`, `Fusion.BlurSum`).

External work enters as parameters:

- The KMeans and Gaussian-mixture fits are `Fusion.Clustering` values: per-pixel labels plus one representative value per cluster.
- The class colours are one `Compositor.Pixel` per crop.
- A kept detection whose truncated box has zero area (`t == b` or `l == r`) stops `crop`, and the model returns the failure with that detection's index:
  - If the centroid lies on the bottom or right edge of the frame, the depth read indexes one past the depth raster and numpy raises `IndexError` (`CropExtractor.CentroidOutOfFrame`).
  - Otherwise the depth is read, but `cv2.cvtColor` asserts that its input is not empty and raises `cv2.error` (`CropExtractor.EmptyBox`).
  - The depth read comes first, because the crop record's fields are evaluated in order. Every centroid outside the frame belongs to a zero-area box (`CropExtractor.PositiveAreaCentroidInside`).

## Model

| member | source | states |
|---|---|---|
| Statistics.Median | core/__init__.py:97-102 | the median of an odd-length list is one of its elements |
| Statistics.SortPermutes | core/__init__.py:97-102 | the sort under the median is a permutation of the list it orders |
| Statistics.MedianBounds | core/__init__.py:97-102 | the median respects every lower and upper bound that all the elements respect |
| Statistics.MedianOfMajority | core/__init__.py:97-102 | a value making up more than half of an odd-length list is its median |
| Statistics.Unique | core/__init__.py:264-266 | the result is strictly ascending, has exactly the values of the input, and is empty only for empty input |
| Statistics.UniqueLastIsMax | core/__init__.py:264-268 | the last of the sorted distinct values is the maximum of the list |
| Statistics.MiddleNotMajority | core/__init__.py:97-102 | in a sorted odd-length list, a value other than the middle element makes up at most half of it |
| HybridMedian.PadInterior | core/__init__.py:90-104 | cutting the centre back out of the padded copy, as the final crop does, gives the input back |
| HybridMedian.HybridAtInWindow | core/__init__.py:97-102 | the hybrid median at a pixel is a value read from that pixel's 5×5 window of the padded copy |
| HybridMedian.HybridOrigin | core/__init__.py:91-102 | the hybrid median at a pixel of the padded copy is 0 or a value of the unpadded raster |
| HybridMedian.MedianFilter | core/__init__.py:88-106 | the output has the input's shape and byte range, and every output pixel is 0 or a value that occurs in the input |
| HybridMedian.UniformInterior | core/__init__.py:95-102 | on a raster whose values all equal v, every pixel whose 5×5 window lies inside the raster comes out as v |
| HybridMedian.ZeroMajority | core/__init__.py:97-102 | thirteen zeros in the block plus three on one diagonal force the hybrid median to 0 |
| HybridMedian.HybridOfMajorities | core/__init__.py:97-102 | a 25-cell block with at least 13 zeros, together with a diagonal or an anti-diagonal with at least 3 zeros, gives a median of medians of 0 |
| HybridMedian.CornerVanishes | core/__init__.py:91-104 | the corner pixel on the chosen side and end comes out of the filter as 0 |
| HybridMedian.CornersVanish | core/__init__.py:91-104 | on every non-empty byte raster the four corner pixels come out as 0 |
| HybridMedian.StripWindowZero | core/__init__.py:97-102 | a window that is 0 outside two adjacent rows, or two adjacent columns, yields 0 |
| HybridMedian.ThinFiltersToZero | core/__init__.py:88-106 | every pixel of a raster at most two rows high or two columns wide comes out as 0 |
| HybridMedian.PadChannel | core/__init__.py:110-114 | padding a colour image and then taking channel k equals padding channel k on its own |
| HybridMedian.FinalMedian | core/__init__.py:108-127 | the per-channel filter keeps the image's height, width and channel count |
| HybridMedian.FinalMedianChannel | core/__init__.py:108-127 | channel k of the per-channel filter equals the single-channel filter applied to channel k of the input, for every k |
| DepthNormalizer.Ramp | core/__init__.py:58-60 | the gradient is 0 on a one-row raster, lies in [0, 255] on the rows of the raster, and reaches 255 on the last row |
| DepthNormalizer.RampIncreasing | core/__init__.py:59 | on two or more rows the gradient grows strictly from row to row |
| DepthNormalizer.KernelIsRamp | core/__init__.py:57-60 | the zero raster with the transposed, broadcast linspace stored into its rows holds the gradient of row r in every column of row r |
| DepthNormalizer.Normalize | core/__init__.py:61-62 | the result has the input's shape, lies between 0 and the input pointwise, and leaves row 0 unchanged |
| DepthNormalizer.NormalizeRow | core/__init__.py:61-62 | pixel (r, c) is the input minus the gradient of row r, floored at 0 |
| DepthNormalizer.SingleRowUnchanged | core/__init__.py:58-62 | a one-row raster passes through unchanged |
| DepthNormalizer.BottomRowZero | core/__init__.py:59-62 | on two or more rows the bottom row is all 0 |
| DepthNormalizer.DownColumnDecreasing | core/__init__.py:59-62 | going down a column of equal input values, the output never grows and shrinks strictly while above 0 |
| CropExtractor.Trunc | core/__init__.py:74 | `int()` of a float rounds toward zero: within one of the input, on the side of zero |
| CropExtractor.TruncMonotone | core/__init__.py:74 | truncation keeps the order of box coordinates |
| CropExtractor.Centroid | core/__init__.py:75 | each centroid coordinate is the floor of the midpoint of the box's two edges, so it lies between them |
| CropExtractor.Kept | core/__init__.py:70-73 | the filter never yields more detections than it is given |
| CropExtractor.KeptMembers | core/__init__.py:72-73 | a detection survives iff it is among the input and its confidence is at least 0.6 |
| CropExtractor.KeptCount | core/__init__.py:70-73 | the filter keeps every copy of a confident detection and no copy of any other |
| CropExtractor.KeptConcat | core/__init__.py:70-73 | filtering processes detections one by one in order |
| CropExtractor.ThresholdIsInclusive | core/__init__.py:72 | confidences 0.9, 0.3 and 0.6 keep the first and the last: the threshold itself is kept |
| CropExtractor.BoxInFrame | core/__init__.py:74 | a detection inside the frame truncates to a box inside the frame with its corners in order |
| CropExtractor.PositiveAreaCentroidInside | core/__init__.py:74-79 | a box in the frame that covers a pixel has its centroid inside the frame |
| CropExtractor.MakeCrop | core/__init__.py:74-84 | for a box covering at least one pixel, the crop's box is the truncated detection box and its centroid is the box centroid. Its depth value is the depth at that centroid. Its pixels and depth are (b−t)×(r−l) |
| CropExtractor.CropCell | core/__init__.py:82-84 | cell (i, j) of a crop's pixels and depth is cell (t+i, l+j) of the frame's image and depth |
| CropExtractor.Select | core/__init__.py:70-84 | the loop succeeds iff every kept detection's box has positive area, and then yields as many crops as there are kept detections. Otherwise it fails at the first kept detection with a zero-area box: with an `IndexError` when the centroid is outside the frame, and with the grey conversion's error when it is inside |
| CropExtractor.SelectCrops | core/__init__.py:70-84 | on success, crop i is the crop of the i-th kept detection, in input order |
| CropExtractor.SelectConfident | core/__init__.py:72-84 | every selected crop carries a confidence of at least 0.6 |
| CropExtractor.SortByDepth | core/__init__.py:86 | the result is ordered by non-decreasing depth value and as long as the input |
| CropExtractor.SortByDepthPermutes | core/__init__.py:86 | sorting by depth is a permutation of the crops |
| CropExtractor.SortByDepthStable | core/__init__.py:86 | crops of equal depth keep their relative order |
| CropExtractor.ExtractCrops | core/__init__.py:65-86 | success iff every kept box has positive area, failing as the loop does otherwise; on success the crops are depth-sorted, one per kept detection, all with confidence at least 0.6; no detections give no crops |
| CropExtractor.ZeroHeightBoxFails | core/__init__.py:72-83 | a confident detection (1.0, 5.0, 4.0, 5.0) in a 10×10 frame reads depth at (5, 2) and then fails on its empty box |
| CropExtractor.ExtractCropsArePermutedSelection | core/__init__.py:70-86 | the crops are a permutation of the kept detections' crops, and each depth class keeps detection order |
| Fusion.ToByte | core/__init__.py:167-168 | storing an in-range float into a `uint8` raster truncates it to a byte |
| Fusion.Rasterise | core/__init__.py:165-168 | the cluster raster has shape h×w and byte values, and each pixel is the truncated representative of one of the clusters |
| Fusion.RasteriseFlattens | core/__init__.py:165-168 | flattening the cluster raster row-major gives the truncated representative of each pixel's label, in label order |
| Fusion.RasteriseLoop | core/__init__.py:254-259 | the nested loops over rows and columns build exactly the cluster raster |
| Fusion.RasterRowLoop | core/__init__.py:255-259 | the inner loop over the columns of row i builds row i of the cluster raster |
| Fusion.SaturatingSum | core/__init__.py:199-201 | the clipped sum is a byte at least as large as either operand. It is 255 iff the true sum reaches 255, and otherwise equals the true sum |
| Fusion.SaturatingIsClippedRaw | core/__init__.py:199-201 | each cell of the stored `uint8` fusion is the unclipped integer sum clipped at 255 |
| Fusion.GridMax | core/__init__.py:203 | the maximum occurs in the raster and bounds every pixel from above |
| Fusion.GridMin | core/__init__.py:203 | the minimum occurs in the raster and bounds every pixel from below |
| Fusion.Scale | core/__init__.py:203 | the scaled value lies in [0, 255], is 0 at the minimum and 255 at the maximum |
| Fusion.ScaleMonotone | core/__init__.py:203 | scaling keeps the order of pixel values |
| Fusion.Normalise | core/__init__.py:203-204 | for a raster that is not constant, the result is a byte raster of the same shape, 0 at every minimum pixel and 255 at every maximum pixel |
| Fusion.NormaliseMonotone | core/__init__.py:203-204 | normalisation keeps the order of pixels |
| Fusion.AboveMean | core/__init__.py:209 | x exceeds the mean total/n iff x·n exceeds total |
| Fusion.MeanMask | core/__init__.py:209 | a pixel keeps its value iff its value times the pixel count exceeds the raster's sum, i.e. iff it is strictly above the mean, and is 0 otherwise |
| Fusion.MeanMaskKeepsMax | core/__init__.py:209 | on a raster that is not constant the maximum pixels survive the mask |
| Fusion.MaskedTopSurvives | core/__init__.py:203-209 | after normalising a raster that is not constant, the mean mask keeps some pixel at 255 |
| Fusion.ForegroundLevels | core/__init__.py:264-268 | the level list has at most one entry, and exactly one iff the raster has pixels. That entry occurs in the raster and no pixel exceeds it |
| Fusion.ForegroundIsMax | core/__init__.py:264-277 | for a raster with pixels the level list is exactly [maximum] |
| Fusion.Foreground | core/__init__.py:254-268 | a second-stage raster is h×w and its level list is exactly [its maximum] |
| Fusion.MaskedFusion | core/__init__.py:203-209 | the mean-masked normalised sum is h×w and keeps a pixel at 255 |
| Fusion.ThinCropConstant | core/__init__.py:199-203 | on a crop at most two rows high or two columns wide the blurred sum is 0 everywhere, so its minimum equals its maximum |
| Fusion.Postprocess | core/__init__.py:164-277 | the second-stage rasters are h×w and their level lists are exactly [their maximum]. The mean-masked fusion is h×w and contains 255 |
| Compositor.AssignLevels | core/__init__.py:337-338 | after one masked assignment per level, a cell takes the colour iff its cluster value is one of the levels, and otherwise keeps its value |
| Compositor.WriteBack | core/__init__.py:339 | storing a box into the canvas replaces exactly the cells of the box's rectangle |
| Compositor.WriteBackOwnView | core/__init__.py:336-339 | storing back an unmodified view of the canvas changes nothing |
| Compositor.PaintRect | core/__init__.py:336-339 | after view, assignment and store, a canvas pixel holds the colour iff it is in the rectangle with a selected cluster value, and otherwise its old value |
| Compositor.Paint | core/__init__.py:335-339 | the canvas keeps its shape. A pixel takes the colour iff it is inside the box and its cluster value is a selected level; every other pixel, inside the box or not, keeps its value. An empty level list leaves the canvas unchanged |
| Compositor.PaintJobCell | core/__init__.py:335-339 | a pixel of the painted rectangle takes the job's colour iff the job hits it, and otherwise keeps its value |
| Compositor.PaintIdempotent | core/__init__.py:335-339 | painting the same crop twice equals painting it once |
| Compositor.OrderedPaint | core/__init__.py:330-344 | the loop over the crops keeps the canvas shape |
| Compositor.OrderedPaintPixel | core/__init__.py:330-344 | each final pixel equals the pixel followed on its own through the crops, each hitting crop replacing it with its colour |
| Compositor.UnpaintedAfter | core/__init__.py:330-344 | a pixel value no crop hits is left as it is |
| Compositor.LastHitAfter | core/__init__.py:330-344 | a pixel value hit by crop k and no later crop ends in crop k's colour |
| Compositor.UnpaintedPixel | core/__init__.py:330-344 | a pixel no crop paints keeps its starting value |
| Compositor.LastPainterWins | core/__init__.py:330-344 | a pixel painted by crop k and by no later crop ends up in crop k's colour |
| Compositor.PaintedBy | core/__init__.py:330-344 | every final pixel is its starting value or the colour of a crop that paints it |
| Compositor.OrderedPaintKeepsColors | core/__init__.py:330-344 | painting in byte colours keeps a canvas of byte colours one |
| Compositor.MaskCanvas | core/__init__.py:328-344 | one mask canvas is an h×w three-channel byte image, each pixel black or the colour of a crop that paints it |
| Compositor.BlankPaintingCells | core/__init__.py:328-344 | painting a black canvas leaves each pixel black or in the colour of a crop that paints it |
| Compositor.MaskCanvases | core/__init__.py:326-348 | both mask canvases have the frame's shape. Each pixel is black or the colour of a crop that paints it on that canvas. Crop k paints the KMeans canvas with its box, `F_KMean` raster, `F_KMean_mask` levels and colour k, and the mixture canvas likewise with `F_GMM` and `F_GMM_mask` |
| Compositor.BlankPaintingColors | core/__init__.py:328-344 | a black canvas painted in byte colours is a three-channel byte image |
| Compositor.FinalFilter | core/__init__.py:350-352 | each channel of each filtered mask canvas is the hybrid median filter of that channel of the mask canvas |
| Compositor.FilterCanvas | core/__init__.py:108-127 | each channel of one filtered canvas is the hybrid median filter of that channel of the canvas |

## Left out

- KMeans and Gaussian-mixture fitting (core/__init__.py:148-153, 238-242): stochastic library code on floats. Labels and representative values are inputs with labels in range and representatives in [0, 255].
- `cv2.addWeighted` and the 0.35 blend (core/__init__.py:219-220): OpenCV float arithmetic. It only feeds the second-stage fits, which are inputs. The clipped sum at lines 211-213 is overwritten and never read.
- `Fusion.Postprocess`: does not model the case max == min of the blurred sum, because the source divides by zero there (NaN cast to `uint8`, line 203). The model requires max > min. This excludes every crop at most two rows high or two columns wide (`Fusion.ThinCropConstant`), and any crop whose two smoothed rasters sum to a constant.
- `Fusion.Postprocess`: requires a crop of at least one row and one column, because a clustering fit of zero pixels raises.
- `Fusion.Normalise`, `Fusion.Scale`: exact rationals instead of float64. A rounding error that pushes a value across an integer before truncation is not modelled.
- `DepthNormalizer.Ramp`: exact rationals instead of the float64 entries of `np.linspace`.
- `cv2.cvtColor`, `cv2.putText`, the detector's `plot` and the palette `self.colors` are outside code. Depth arrives as a grey byte raster, and each crop's colour is an input. Drawing the crop numbers on the annotated frame is not modelled.
- The `gray_img` field of a crop is never read by the modelled stages.
- The first-stage cluster centres arrive already reduced to their first channel (`cluster_centers_[label][0]`, `means_[label][0]`, lines 167-168). The model does not hold the full colour centres.
- `CropExtractor.MakeCrop`: requires the box to lie inside the frame (0 ≤ l ≤ r ≤ W, 0 ≤ t ≤ b ≤ H). The source does not clip, and Python's negative indices would wrap.
- `Compositor.MaskCanvases`: requires a frame of at least one row, and per-crop rasters of the box's size (numpy raises on a size mismatch).
- `Compositor.FinalFilter`: takes the two mask canvases as arguments, where the source reads them from the instance, and requires them to be three-channel byte images of the frame's size, as `Compositor.MaskCanvases` produces them.
- `inference`, `__init__`, `cv2.imwrite`, `print` and the `OMP_NUM_THREADS` setting: I/O and environment.

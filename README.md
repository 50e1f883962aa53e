# Automatic histogram stretch, modelled in Dafny

This project models the ImageJ-style "auto contrast" of `AutoHistStretch.py`.
A square region of interest is cut out of a grey-level image. The region's
256-bin histogram gives a stretch window `[min_val, max_val]`. The whole image
is then mapped linearly from that window onto 0..255.

The window comes from `calculate_bounds`. Count `limit = pixel_count // 10`
and `threshold = pixel_count // 5000`. A bin *qualifies* when
`threshold < count <= limit`. A forward scan skips every bin over the limit
and stops at the first qualifying one (`hmin`). A backward scan does the same
from the top (`hmax`). Either index stays `-1` when nothing qualifies. The
bounds are `hist_min + hmin * bin_size` and `hist_min + hmax * bin_size`.

Modules, one per part of the source:

- `Bounds` (`bounds.dfy`): `calculate_bounds` as a method whose two `while`
  loops keep the source's `continue` and `break`. It is proved against
  recursive reference definitions of the two scans (`LowestFrom` and
  `HighestBelow`). Lemmas then prove what those scans mean (least / greatest
  qualifying index, or `-1`).
- `Region` (`region.dfy`): converting proportional coordinates with `int(...)`,
  and the crop rectangle of lines 72-76.
- `Stretch` (`stretch.dfy`): the per-pixel map of line 93 on exact reals, with
  the final `astype('uint8')` as truncation, applied to every sample of the image.
- `Scaling` (`scaling.dfy`): the `histogram_scaling` pipeline on an
  already-decoded image. The histogram of the crop is a caller-supplied
  function. Where the source divides by an empty window, the model reports
  an error instead (see Findings).

Facts about the code that the model keeps:

- A zero region parameter is used like any other value; there is no
  whole-image fallback, and all three region parameters are always used.
- The 8-bit conversion (`astype('uint8')`) truncates; it does not round.
- With every bin saturated, both indices stay -1, so `max_val` is
  `hist_min - bin_size`, the same as `min_val`.
- A uniform background with a small bright patch does not give a window from
  the background to the patch: the background bin is over the limit, only the
  patch bin qualifies, and the window is empty (see Findings).

Python's `//` floors. Dafny's `/` on `int` is Euclidean. For the positive
divisors used here (10, 5000, 2) these agree for every dividend, negative ones
included, so `/` is used as it stands.

## Model

| member | source | states |
|---|---|---|
| `Bounds.CalculateBounds` | AutoHistStretch.py:4-41 | `min_val` and `max_val` are `hist_min + k * bin_size` for the smallest and the largest qualifying index `k` (or `k = -1` when none qualifies), through the two early-exit scans; the histogram is a value and is not changed |
| `Bounds.LowestFrom` | AutoHistStretch.py:23-28 | the forward scan from `i` yields -1 or an index in `[i, |h|)` |
| `Bounds.HighestBelow` | AutoHistStretch.py:31-36 | the backward scan below `n` yields -1 or an index in `[0, n)` |
| `Bounds.LowestFromIsLeast` | AutoHistStretch.py:23-28 | the forward scan from `i` stops at a qualifying bin with no qualifying bin before it, or gives -1 when no bin from `i` on qualifies |
| `Bounds.HighestBelowIsGreatest` | AutoHistStretch.py:31-36 | the backward scan stops at a qualifying bin with none after it below `n`, or gives -1 when none below `n` qualifies |
| `Bounds.LowestCharacterized` | AutoHistStretch.py:18-28 | `hmin == k` if and only if `k` is the smallest index with `pixel_count//5000 < count <= pixel_count//10`, or `k == -1` and no bin qualifies |
| `Bounds.HighestCharacterized` | AutoHistStretch.py:18-36 | `hmax == k` if and only if `k` is the largest qualifying index, or `k == -1` and no bin qualifies |
| `Bounds.ScansAgree` | AutoHistStretch.py:20-36 | `hmin` and `hmax` are both -1 or both valid indices with `hmin <= hmax` |
| `Bounds.SentinelBounds` | AutoHistStretch.py:38-39 | when no bin qualifies both bounds equal `hist_min - bin_size` |
| `Bounds.AllSaturatedGivesSentinel` | AutoHistStretch.py:24-25 | when every bin is over the limit both indices are -1 and both bounds are `hist_min - bin_size` |
| `Bounds.BoundsOrdered` | AutoHistStretch.py:38-41 | for `bin_size >= 0`, `min_val <= max_val` |
| `Region.TruncateToInt` | AutoHistStretch.py:67-69 | `int(x)` truncates toward zero: within one of `x`, never farther from zero |
| `Region.ToPixelsTruncates` | AutoHistStretch.py:66-69 | a non-negative proportion becomes the whole number of pixels at or just below `p * extent` |
| `Region.ResolveRequest` | AutoHistStretch.py:66-69 | absolute parameters pass through unchanged; for non-negative proportions each pixel value is `int(p * extent)`, the floor of the exact product, with the centre taken against width and height and the diameter against the width |
| `Region.ProportionalDiameterFollowsWidth` | AutoHistStretch.py:69 | the proportional diameter is `int(pd * width)` and does not depend on the height |
| `Region.HalfDiameter` | AutoHistStretch.py:72 | `half` is the floor of `diameter / 2`: `2*half <= diameter < 2*half + 2` |
| `Region.CropRegion` | AutoHistStretch.py:72-76 | `left >= 0`, `top >= 0`, `right <= width`, `bottom <= height` for all inputs |
| `Region.CropContainsCentre` | AutoHistStretch.py:72-76 | for `diameter >= 0` and a centre on the image, `left <= cx <= right` and `top <= cy <= bottom` |
| `Region.CropUnclippedIsSquare` | AutoHistStretch.py:73-76 | a square that fits is not clipped: `right - left == bottom - top == 2*half`, whose corner is `(cx - half, cy - half)` |
| `Region.CropClampsAtOrigin` | AutoHistStretch.py:73-74 | a centre closer to the left or top edge than `half` gives `left == 0` or `top == 0` |
| `Region.CropClampsAtFarEdge` | AutoHistStretch.py:75-76 | a centre with `cx + half >= width` gives `right == width`, and `cy + half >= height` gives `bottom == height` |
| `Region.CropFor` | AutoHistStretch.py:66-76 | the crop for any request has `left >= 0`, `top >= 0`, `right <= width`, `bottom <= height`; for absolute parameters it is the crop of those values as given |
| `Region.ProportionalCropContainsCentre` | AutoHistStretch.py:66-76 | proportional centres in `[0, 1]` resolve to a point on the image, and the resolved crop contains it |
| `Region.CentredProportionalRegion` | AutoHistStretch.py:66-76 | proportions (0.5, 0.5, 0.2) on 1000 x 800 give the crop (400, 300, 600, 500) |
| `Stretch.Clip` | AutoHistStretch.py:93 | `np.clip` keeps values inside the range and moves others to the nearer end |
| `Stretch.StretchValue` | AutoHistStretch.py:93 | the rescaled, clipped value lies in `[0, 255]` |
| `Stretch.ToUint8` | AutoHistStretch.py:93 | the 8-bit conversion truncates: `n <= x < n + 1`, `0 <= n <= 255` |
| `Stretch.StretchPixel` | AutoHistStretch.py:93 | every output sample lies in `[0, 255]` |
| `Stretch.StretchImage` | AutoHistStretch.py:92-93 | the output has the image's shape, each sample is that sample's stretch, and all lie in `[0, 255]` |
| `Stretch.StretchBelowMinIsBlack` | AutoHistStretch.py:93 | for `max_val > min_val`, `v <= min_val` gives 0 |
| `Stretch.StretchAboveMaxIsWhite` | AutoHistStretch.py:93 | for `max_val > min_val`, `v >= max_val` gives 255 |
| `Stretch.StretchMonotone` | AutoHistStretch.py:93 | for `max_val > min_val` the map is non-decreasing in `v` |
| `Stretch.StretchInsideWindow` | AutoHistStretch.py:93 | inside the window the output is the truncation (not the rounding) of `(v - min_val) * 255 / (max_val - min_val)` |
| `Stretch.IdentityWindow` | AutoHistStretch.py:93 | with window `[0, 255]` every 8-bit sample maps to itself |
| `Stretch.StretchImagePreservesOrder` | AutoHistStretch.py:92-93 | between any two samples of the image, the brighter input never gives the darker output |
| `Scaling.StretchChecked` | AutoHistStretch.py:93 | fails exactly when `min_val == max_val`; otherwise it gives the stretched image, with its shape kept and every sample in `[0, 255]` |
| `Scaling.HistogramScaling` | AutoHistStretch.py:63-93 | the crop has `left >= 0`, `top >= 0`, `right <= width`, `bottom <= height` (it can still be empty, with `right < left`); the bounds come from the crop's histogram; the result is an error exactly for an empty window, and otherwise the whole image stretched with those bounds |
| `Scaling.SingleQualifyingBinIsDegenerate` | AutoHistStretch.py:20-39 | if exactly one bin qualifies then `min_val == max_val` |
| `Scaling.BackgroundAndPatchIsDegenerate` | AutoHistStretch.py:38-39 | background 9600 samples, patch 400, 10000 pixels: both bounds are the top bin's edge, so line 93 divides by zero |
| `Scaling.UniformRegionIsDegenerate` | AutoHistStretch.py:24-25 | a uniform region has one bin over the limit; both bounds are the sentinel and the window is empty |

## Left out

- Opening, converting, cropping and saving images (`Image.open`, `convert('L')`, `crop`, `fromarray`, `save`) are foreign library calls. The model starts from a decoded image given as rows of integer samples.
- `np.histogram`, which builds bin edges and counts, is not visible. `Scaling.HistogramScaling` takes it as a function from the crop rectangle to counts, `hist_min`, `bin_size` and `pixel_count`.
- Floating point is modelled as exact reals. IEEE rounding, infinities and NaN are not modelled.
- Scaling.HistogramScaling: returns `Err(DegenerateWindow)` when `min_val == max_val`. The source does not fail there: `255 / 0.0` is `inf` in numpy (with a warning), the clip turns `±inf` into 0 and 255, and it writes a hard-threshold image, 0 below `min_val` and 255 above it. A sample exactly at `min_val` becomes NaN before the 8-bit cast, whose result numpy leaves to the platform. The model does not produce that threshold image.
- Absolute region coordinates are integers only. A float centre in absolute mode, which the source also accepts, is not modelled.
- A crop rectangle with `right < left` (a centre far outside the image) is passed to the image library as it is. How that library treats it is not modelled.
- The example invocation with hard-coded paths at the end of the file is a script side effect and is not part of this model.
- Stretch.StretchValue: requires `min_val != max_val`, because the source divides by `max_val - min_val` unguarded. `Scaling.StretchChecked` is the guarded form.
- Stretch.StretchPixel: requires `min_val != max_val`, for the same unguarded division; it does not give the threshold outcome described for `Scaling.HistogramScaling`.
- Stretch.StretchImage: requires `min_val != max_val`, for the same unguarded division; it does not give the threshold image for an empty window.
- Stretch.ToUint8: requires its argument in `[0, 255]`. The source only calls it after clipping; numpy's conversion outside that range is not modelled.

## Findings

| source | as written | input that shows it | evidently intended | confidence | as-written member | corrected member |
|---|---|---|---|---|---|---|
| AutoHistStretch.py:93 | divides by `max_val - min_val` with no guard; `calculate_bounds` gives `min_val == max_val` whenever at most one bin qualifies | 100 x 100 region, background bin 9600 samples, patch bin 400 samples: only the patch bin qualifies, so both bounds are equal; also any uniform region (one bin over the limit, so both bounds are the sentinel) | a defined outcome for an empty window, reported as an error; as written, numpy divides by zero to `inf` without raising, and the saved image is a hard threshold at `min_val` (0 below, 255 above; a sample equal to `min_val` goes through NaN to a platform-defined value), so on the background-and-patch input the background comes out 0 and the patch 255 | medium, not executed | `Scaling.BackgroundAndPatchIsDegenerate` | `Scaling.StretchChecked` |

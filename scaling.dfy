/**
 The scaling pipeline: resolve the region of interest, take the histogram of
 that region, compute the stretch window from it, and stretch the whole
 image. Decoding, format conversion, the histogram itself and writing the
 result are done by image and array libraries; the histogram enters here as
 a function supplied by the caller.
 */
module Scaling {
  import opened Bounds
  import opened Region
  import opened Stretch

  /** What the array library reports for the cropped region: the bin counts,
      the first bin edge, the bin width and the number of samples. */
  datatype RegionHistogram = RegionHistogram(counts: seq<int>, histMin: real, binSize: real, pixelCount: int)

  datatype ScalingError = DegenerateWindow

  datatype Result<T> = Ok(value: T) | Err(error: ScalingError)

  /** The stretch with the empty window reported instead of divided by. */
  function StretchChecked(img: Image, minVal: real, maxVal: real): (r: Result<Image>)
    ensures r.Err? <==> minVal == maxVal
    ensures r.Ok? ==> (
      && |r.value| == |img|
      && (forall i :: 0 <= i < |img| ==> |r.value[i]| == |img[i]|)
      && (forall i, j :: 0 <= i < |img| && 0 <= j < |img[i]| ==>
            r.value[i][j] == StretchPixel(img[i][j], minVal, maxVal) && 0 <= r.value[i][j] <= 255))
  {
    if minVal == maxVal then Err(DegenerateWindow) else Ok(StretchImage(img, minVal, maxVal))
  }

  /** Width of an image given as rows (the library's `size[0]`). */
  function Width(img: Image): nat
  {
    if |img| == 0 then 0 else |img[0]|
  }

  /** The whole scaling step on an already decoded grey-level image. */
  method HistogramScaling(img: Image, req: RegionRequest, regionHistogram: CropBox -> RegionHistogram)
    returns (r: Result<Image>)
    ensures var box := CropFor(req, Width(img), |img|);
      && box.left >= 0 && box.top >= 0 && box.right <= Width(img) && box.bottom <= |img|
      && var hist := regionHistogram(box);
      var (minVal, maxVal) := BoundsOf(hist.counts, hist.pixelCount, hist.binSize, hist.histMin);
      && (r.Err? <==> minVal == maxVal)
      && (r.Ok? ==> r.value == StretchImage(img, minVal, maxVal))
  {
    var width, height := Width(img), |img|;
    var box := CropFor(req, width, height);
    var hist := regionHistogram(box);
    var minVal, maxVal := CalculateBounds(hist.counts, hist.pixelCount, hist.binSize, hist.histMin);
    r := StretchChecked(img, minVal, maxVal);
  }

  /** Exactly one qualifying bin makes both scans stop on it, so the window is
      empty whatever the bin width. */
  lemma SingleQualifyingBinIsDegenerate(h: seq<int>, pixelCount: int, binSize: real, histMin: real, k: int)
    requires 0 <= k < |h| && Qualifies(h[k], pixelCount)
    requires forall j :: 0 <= j < |h| && j != k ==> !Qualifies(h[j], pixelCount)
    ensures BoundsOf(h, pixelCount, binSize, histMin).0 == BoundsOf(h, pixelCount, binSize, histMin).1
  {
    LowestCharacterized(h, pixelCount, k);
    HighestCharacterized(h, pixelCount, k);
  }

  /** A 100 x 100 region of background 50 with a 20 x 20 patch of 200: the
      background bin (9600 samples) is over the limit of 1000 and skipped, the
      patch bin (400 samples) is the only one that qualifies, so both bounds are
      the lower edge of the top bin and the stretch would divide by zero. */
  lemma BackgroundAndPatchIsDegenerate()
    ensures var h := seq(256, b => if b == 0 then 9600 else if b == 255 then 400 else 0);
      var binSize := 150.0 / 256.0;
      BoundsOf(h, 10000, binSize, 50.0) == (50.0 + 255.0 * binSize, 50.0 + 255.0 * binSize)
      && StretchChecked([[50, 200]], 50.0 + 255.0 * binSize, 50.0 + 255.0 * binSize).Err?
  {
    var h := seq(256, b => if b == 0 then 9600 else if b == 255 then 400 else 0);
    assert Limit(10000) == 1000 && Threshold(10000) == 2;
    assert Qualifies(h[255], 10000);
    SingleQualifyingBinIsDegenerate(h, 10000, 150.0 / 256.0, 50.0, 255);
    LowestCharacterized(h, 10000, 255);
  }

  /** A perfectly uniform region puts every sample in one bin, which is over the
      limit; nothing qualifies and both bounds collapse onto the sentinel. */
  lemma UniformRegionIsDegenerate(h: seq<int>, pixelCount: int, binSize: real, histMin: real, k: int)
    requires pixelCount >= 1 && 0 <= k < |h| && h[k] == pixelCount
    requires forall j :: 0 <= j < |h| && j != k ==> h[j] == 0
    ensures BoundsOf(h, pixelCount, binSize, histMin) == (histMin - binSize, histMin - binSize)
    ensures StretchChecked([[0]], histMin - binSize, histMin - binSize).Err?
  {
    assert !Qualifies(h[k], pixelCount);
    SentinelBounds(h, pixelCount, binSize, histMin);
  }
}

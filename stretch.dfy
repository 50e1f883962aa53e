/**
 The contrast stretch applied to every pixel of the image: subtract the lower
 bound, scale the window [minVal, maxVal] onto [0, 255], clip, and truncate to
 an unsigned 8-bit sample. Arithmetic is on exact reals.
 */
module Stretch {

  /** A grey-level image as rows of integer samples (8- or 16-bit in the source). */
  type Image = seq<seq<int>>

  /** `numpy.clip(x, lo, hi)` for `lo <= hi`. */
  function Clip(x: real, lo: real, hi: real): (r: real)
    requires lo <= hi
    ensures lo <= r <= hi
    ensures lo <= x <= hi ==> r == x
    ensures x < lo ==> r == lo
    ensures x > hi ==> r == hi
  {
    if x < lo then lo else if x > hi then hi else x
  }

  /** The rescaled, clipped value before conversion to 8 bits. */
  function StretchValue(v: real, minVal: real, maxVal: real): (r: real)
    requires minVal != maxVal
    ensures 0.0 <= r <= 255.0
  {
    Clip((v - minVal) * (255.0 / (maxVal - minVal)), 0.0, 255.0)
  }

  /** `astype('uint8')` of a value already clipped onto [0, 255]: truncation. */
  function ToUint8(x: real): (n: int)
    requires 0.0 <= x <= 255.0
    ensures 0 <= n <= 255
    ensures (n as real) <= x < (n as real) + 1.0
  {
    x.Floor
  }

  /** One output sample. */
  function StretchPixel(v: int, minVal: real, maxVal: real): (p: int)
    requires minVal != maxVal
    ensures 0 <= p <= 255
  {
    ToUint8(StretchValue(v as real, minVal, maxVal))
  }

  /** The whole image, stretched sample by sample. */
  function StretchImage(img: Image, minVal: real, maxVal: real): (out: Image)
    requires minVal != maxVal
    ensures |out| == |img|
    ensures forall i :: 0 <= i < |img| ==> |out[i]| == |img[i]|
    ensures forall i, j :: 0 <= i < |img| && 0 <= j < |img[i]| ==>
      out[i][j] == StretchPixel(img[i][j], minVal, maxVal)
    ensures forall i, j :: 0 <= i < |out| && 0 <= j < |out[i]| ==> 0 <= out[i][j] <= 255
  {
    seq(|img|, i requires 0 <= i < |img| =>
      seq(|img[i]|, j requires 0 <= j < |img[i]| => StretchPixel(img[i][j], minVal, maxVal)))
  }

  /** Everything at or below the lower bound becomes black. */
  lemma StretchBelowMinIsBlack(v: int, minVal: real, maxVal: real)
    requires minVal < maxVal && (v as real) <= minVal
    ensures StretchPixel(v, minVal, maxVal) == 0
  {
  }

  /** Everything at or above the upper bound becomes white. */
  lemma StretchAboveMaxIsWhite(v: int, minVal: real, maxVal: real)
    requires minVal < maxVal && (v as real) >= maxVal
    ensures StretchPixel(v, minVal, maxVal) == 255
  {
    var scale := 255.0 / (maxVal - minVal);
    assert (maxVal - minVal) * scale == 255.0;
    assert ((v as real) - minVal) * scale >= (maxVal - minVal) * scale by {
      assert ((v as real) - maxVal) * scale >= 0.0;
    }
    assert StretchValue(v as real, minVal, maxVal) == 255.0;
    assert (255.0).Floor == 255;
  }

  /** A brighter input never gives a darker output. */
  lemma StretchMonotone(v: int, w: int, minVal: real, maxVal: real)
    requires minVal < maxVal && v <= w
    ensures StretchPixel(v, minVal, maxVal) <= StretchPixel(w, minVal, maxVal)
  {
    var scale := 255.0 / (maxVal - minVal);
    assert scale > 0.0;
    assert ((v as real) - minVal) * scale <= ((w as real) - minVal) * scale by {
      assert ((w as real) - (v as real)) * scale >= 0.0;
    }
    var x, y := StretchValue(v as real, minVal, maxVal), StretchValue(w as real, minVal, maxVal);
    assert x <= y;
    FloorMonotone(x, y);
  }

  lemma FloorMonotone(x: real, y: real)
    requires x <= y
    ensures x.Floor <= y.Floor
  {
  }

  /** The stretch scales the window by 255 / (maxVal - minVal) and truncates:
      inside the window the output is the floor of the exact linear value. */
  lemma StretchInsideWindow(v: int, minVal: real, maxVal: real)
    requires minVal < maxVal && minVal <= (v as real) <= maxVal
    ensures var exact := ((v as real) - minVal) * 255.0 / (maxVal - minVal);
      (StretchPixel(v, minVal, maxVal) as real) <= exact < (StretchPixel(v, minVal, maxVal) as real) + 1.0
  {
    var scale := 255.0 / (maxVal - minVal);
    var t := (v as real) - minVal;
    assert t * scale == t * 255.0 / (maxVal - minVal);
    assert 0.0 <= t * scale;
    assert t * scale <= (maxVal - minVal) * scale by {
      assert ((maxVal - minVal) - t) * scale >= 0.0;
    }
    assert (maxVal - minVal) * scale == 255.0;
    assert StretchValue(v as real, minVal, maxVal) == t * scale;
  }

  /** With the window [0, 255] the stretch leaves every 8-bit sample as it is. */
  lemma IdentityWindow(v: int)
    requires 0 <= v <= 255
    ensures StretchPixel(v, 0.0, 255.0) == v
  {
  }

  /** The stretched image preserves the brightness order of any two samples. */
  lemma StretchImagePreservesOrder(img: Image, minVal: real, maxVal: real, i: int, j: int, k: int, l: int)
    requires minVal < maxVal
    requires 0 <= i < |img| && 0 <= j < |img[i]| && 0 <= k < |img| && 0 <= l < |img[k]|
    requires img[i][j] <= img[k][l]
    ensures StretchImage(img, minVal, maxVal)[i][j] <= StretchImage(img, minVal, maxVal)[k][l]
  {
    StretchMonotone(img[i][j], img[k][l], minVal, maxVal);
  }
}

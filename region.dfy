/**
 The region of interest over which the histogram is taken: a square of the
 given diameter around a centre point, clipped to the image. Coordinates
 are either pixels or proportions of the image size.
 */
module Region {

  /** The rectangle handed to the image library's crop, in pixel coordinates. */
  datatype CropBox = CropBox(left: int, top: int, right: int, bottom: int)

  /** How the caller gives the region: in pixels, or as proportions of the image
      (both centre coordinates and the diameter; the diameter is a proportion
      of the width). */
  datatype RegionRequest =
    | Absolute(centreX: int, centreY: int, diameter: int)
    | Proportional(propX: real, propY: real, propDiameter: real)

  /** Python's `int(x)` on a float: truncation toward zero. */
  function TruncateToInt(x: real): (n: int)
    ensures x >= 0.0 ==> 0 <= n && (n as real) <= x < (n as real) + 1.0
    ensures x < 0.0 ==> n <= 0 && (n as real) - 1.0 < x <= (n as real)
  {
    if x >= 0.0 then x.Floor else -((-x).Floor)
  }

  /** A proportion of an image extent, converted to pixels as `int(p * extent)`. */
  function ToPixels(p: real, extent: int): int
  {
    TruncateToInt(p * (extent as real))
  }

  /** The region parameters in pixels: `(centre x, centre y, diameter)`.
      Absolute values pass through; proportions are truncated products, the
      centre with width and height and the diameter with the width. */
  function ResolveRequest(req: RegionRequest, width: int, height: int): (r: (int, int, int))
    ensures req.Absolute? ==> r == (req.centreX, req.centreY, req.diameter)
    ensures req.Proportional? && req.propX >= 0.0 && width >= 0 ==>
      0 <= r.0 && (r.0 as real) <= req.propX * (width as real) < (r.0 as real) + 1.0
    ensures req.Proportional? && req.propY >= 0.0 && height >= 0 ==>
      0 <= r.1 && (r.1 as real) <= req.propY * (height as real) < (r.1 as real) + 1.0
    ensures req.Proportional? && req.propDiameter >= 0.0 && width >= 0 ==>
      0 <= r.2 && (r.2 as real) <= req.propDiameter * (width as real) < (r.2 as real) + 1.0
  {
    match req
    case Absolute(x, y, d) => (x, y, d)
    case Proportional(px, py, pd) =>
      (ToPixels(px, width), ToPixels(py, height), ToPixels(pd, width))
  }

  /** Half the diameter, rounded down as Python's `//` does (also for negatives). */
  function HalfDiameter(diameter: int): (half: int)
    ensures 2 * half <= diameter < 2 * half + 2
  {
    diameter / 2
  }

  /** The crop rectangle: the square of side twice the half diameter around the
      centre, with each side pulled back onto the image where it sticks out. */
  function CropRegion(centreX: int, centreY: int, diameter: int, width: int, height: int): (b: CropBox)
    ensures b.left >= 0 && b.top >= 0
    ensures b.right <= width && b.bottom <= height
  {
    var half := HalfDiameter(diameter);
    CropBox(Max(centreX - half, 0), Max(centreY - half, 0),
            Min(centreX + half, width), Min(centreY + half, height))
  }

  /** The crop rectangle for a request, after proportional coordinates are resolved. */
  function CropFor(req: RegionRequest, width: int, height: int): (b: CropBox)
    ensures b.left >= 0 && b.top >= 0
    ensures b.right <= width && b.bottom <= height
    ensures req.Absolute? ==> b == CropRegion(req.centreX, req.centreY, req.diameter, width, height)
  {
    var (x, y, d) := ResolveRequest(req, width, height);
    CropRegion(x, y, d, width, height)
  }

  function Max(a: int, b: int): int { if a >= b then a else b }

  function Min(a: int, b: int): int { if a <= b then a else b }

  /** A centre on the image lies inside its crop rectangle. */
  lemma CropContainsCentre(centreX: int, centreY: int, diameter: int, width: int, height: int)
    requires diameter >= 0
    requires 0 <= centreX <= width && 0 <= centreY <= height
    ensures var b := CropRegion(centreX, centreY, diameter, width, height);
      b.left <= centreX <= b.right && b.top <= centreY <= b.bottom
  {
  }

  /** A square that fits inside the image is not clipped: its sides are twice the
      half diameter, so an odd diameter loses one pixel. */
  lemma CropUnclippedIsSquare(centreX: int, centreY: int, diameter: int, width: int, height: int)
    requires var half := HalfDiameter(diameter);
      0 <= centreX - half && centreX + half <= width
      && 0 <= centreY - half && centreY + half <= height
    ensures var b := CropRegion(centreX, centreY, diameter, width, height);
      b.right - b.left == b.bottom - b.top == 2 * HalfDiameter(diameter)
      && b.left == centreX - HalfDiameter(diameter) && b.top == centreY - HalfDiameter(diameter)
  {
  }

  /** Near the left or top edge the rectangle is clamped to 0 rather than going negative. */
  lemma CropClampsAtOrigin(centreX: int, centreY: int, diameter: int, width: int, height: int)
    ensures var b := CropRegion(centreX, centreY, diameter, width, height);
      (centreX < HalfDiameter(diameter) ==> b.left == 0)
      && (centreY < HalfDiameter(diameter) ==> b.top == 0)
  {
  }

  /** Past the right or bottom edge the rectangle is clamped to the image size. */
  lemma CropClampsAtFarEdge(centreX: int, centreY: int, diameter: int, width: int, height: int)
    ensures var b := CropRegion(centreX, centreY, diameter, width, height);
      (centreX + HalfDiameter(diameter) >= width ==> b.right == width)
      && (centreY + HalfDiameter(diameter) >= height ==> b.bottom == height)
  {
  }

  /** Proportional coordinates are truncated, never moved past the exact product. */
  lemma ToPixelsTruncates(p: real, extent: int)
    requires p >= 0.0 && extent >= 0
    ensures 0 <= ToPixels(p, extent)
    ensures (ToPixels(p, extent) as real) <= p * (extent as real) < (ToPixels(p, extent) as real) + 1.0
  {
  }

  /** The proportional diameter is a share of the width: the image height
      does not change it. */
  lemma ProportionalDiameterFollowsWidth(px: real, py: real, pd: real, width: int, height: int, otherHeight: int)
    ensures ResolveRequest(Proportional(px, py, pd), width, height).2
         == ResolveRequest(Proportional(px, py, pd), width, otherHeight).2
    ensures ResolveRequest(Proportional(px, py, pd), width, height).2 == ToPixels(pd, width)
  {
  }

  /** A proportional centre in [0, 1] lands on the image, so its crop rectangle
      contains it. */
  lemma ProportionalCropContainsCentre(px: real, py: real, pd: real, width: int, height: int)
    requires 0.0 <= px <= 1.0 && 0.0 <= py <= 1.0 && pd >= 0.0
    requires width >= 0 && height >= 0
    ensures var (x, y, d) := ResolveRequest(Proportional(px, py, pd), width, height);
      var b := CropFor(Proportional(px, py, pd), width, height);
      0 <= x <= width && 0 <= y <= height
      && b.left <= x <= b.right && b.top <= y <= b.bottom
  {
    var (x, y, d) := ResolveRequest(Proportional(px, py, pd), width, height);
    assert px * (width as real) <= width as real;
    assert py * (height as real) <= height as real;
    CropContainsCentre(x, y, d, width, height);
  }

  /** The centre of a 1000 x 800 image with a diameter of a fifth of the width
      gives the 200-pixel square around (500, 400). */
  lemma CentredProportionalRegion()
    ensures CropFor(Proportional(0.5, 0.5, 0.2), 1000, 800) == CropBox(400, 300, 600, 500)
  {
  }
}

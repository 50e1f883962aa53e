/**
 The bound calculation of the auto-contrast stretch: given a histogram of
 bin counts, the number of pixels it was taken over and the geometry of its
 bins, find the lowest and the highest bin that is neither noise (too few
 samples) nor saturated background (too many samples), and map both bin
 indices to intensity values.
 */
module Bounds {

  /** Upper outlier cut-off: a bin holding more than a tenth of the pixels is skipped.
      Python's `//` floors; for a positive divisor Dafny's `/` is the same floor. */
  function Limit(pixelCount: int): int
  {
    pixelCount / 10
  }

  /** Noise floor: a bin must hold more than a 5000th of the pixels. */
  function Threshold(pixelCount: int): int
  {
    pixelCount / 5000
  }

  /** A bin qualifies when its count is above the noise floor and not above the limit. */
  predicate Qualifies(count: int, pixelCount: int)
  {
    Threshold(pixelCount) < count <= Limit(pixelCount)
  }

  /** Reference definition: the lowest qualifying index at or after `i`, or -1. */
  function LowestFrom(h: seq<int>, pixelCount: int, i: nat): (k: int)
    requires i <= |h|
    ensures k == -1 || i <= k < |h|
    decreases |h| - i
  {
    if i == |h| then -1
    else if Qualifies(h[i], pixelCount) then i
    else LowestFrom(h, pixelCount, i + 1)
  }

  /** Reference definition: the highest qualifying index below `n`, or -1. */
  function HighestBelow(h: seq<int>, pixelCount: int, n: nat): (k: int)
    requires n <= |h|
    ensures -1 <= k < n
  {
    if n == 0 then -1
    else if Qualifies(h[n - 1], pixelCount) then n - 1
    else HighestBelow(h, pixelCount, n - 1)
  }

  /** The index the forward scan of the histogram settles on (`hmin`). */
  function Lowest(h: seq<int>, pixelCount: int): int
  {
    LowestFrom(h, pixelCount, 0)
  }

  /** The index the backward scan of the histogram settles on (`hmax`). */
  function Highest(h: seq<int>, pixelCount: int): int
  {
    HighestBelow(h, pixelCount, |h|)
  }

  /** `k` is the smallest qualifying index, or -1 when no bin qualifies. */
  ghost predicate IsLowest(h: seq<int>, pixelCount: int, k: int)
  {
    if k == -1 then forall j :: 0 <= j < |h| ==> !Qualifies(h[j], pixelCount)
    else 0 <= k < |h| && Qualifies(h[k], pixelCount)
         && forall j :: 0 <= j < k ==> !Qualifies(h[j], pixelCount)
  }

  /** `k` is the largest qualifying index, or -1 when no bin qualifies. */
  ghost predicate IsHighest(h: seq<int>, pixelCount: int, k: int)
  {
    if k == -1 then forall j :: 0 <= j < |h| ==> !Qualifies(h[j], pixelCount)
    else 0 <= k < |h| && Qualifies(h[k], pixelCount)
         && forall j :: k < j < |h| ==> !Qualifies(h[j], pixelCount)
  }

  /** Intensity at the lower edge of bin `k`; the sentinel -1 lands one bin below `histMin`. */
  function BinValue(histMin: real, binSize: real, k: int): real
  {
    histMin + (k as real) * binSize
  }

  /** The pair (min_val, max_val) that the bound calculation returns. */
  function BoundsOf(h: seq<int>, pixelCount: int, binSize: real, histMin: real): (real, real)
  {
    (BinValue(histMin, binSize, Lowest(h, pixelCount)),
     BinValue(histMin, binSize, Highest(h, pixelCount)))
  }

  /** The bound calculation as the source runs it: a forward scan that skips
      saturated bins and stops at the first bin above the noise floor, the same
      scan backwards, then the affine map of both indices. */
  method CalculateBounds(histogram: seq<int>, pixelCount: int, binSize: real, histMin: real)
    returns (minVal: real, maxVal: real)
    ensures minVal == BinValue(histMin, binSize, Lowest(histogram, pixelCount))
    ensures maxVal == BinValue(histMin, binSize, Highest(histogram, pixelCount))
    ensures forall k :: IsLowest(histogram, pixelCount, k) ==> minVal == BinValue(histMin, binSize, k)
    ensures forall k :: IsHighest(histogram, pixelCount, k) ==> maxVal == BinValue(histMin, binSize, k)
  {
    var limit := pixelCount / 10;
    var threshold := pixelCount / 5000;
    var hmin, hmax := -1, -1;

    var i := 0;
    while i < |histogram|
      invariant 0 <= i <= |histogram|
      invariant hmin == -1
      invariant LowestFrom(histogram, pixelCount, i) == Lowest(histogram, pixelCount)
    {
      var count := histogram[i];
      if count > limit {
        i := i + 1;
        continue;
      }
      if count > threshold {
        hmin := i;
        break;
      }
      i := i + 1;
    }

    var n := |histogram|;
    while n > 0
      invariant 0 <= n <= |histogram|
      invariant hmax == -1
      invariant HighestBelow(histogram, pixelCount, n) == Highest(histogram, pixelCount)
    {
      var count := histogram[n - 1];
      if count > limit {
        n := n - 1;
        continue;
      }
      if count > threshold {
        hmax := n - 1;
        break;
      }
      n := n - 1;
    }

    minVal := histMin + (hmin as real) * binSize;
    maxVal := histMin + (hmax as real) * binSize;

    forall k | IsLowest(histogram, pixelCount, k)
      ensures minVal == BinValue(histMin, binSize, k)
    {
      LowestCharacterized(histogram, pixelCount, k);
    }
    forall k | IsHighest(histogram, pixelCount, k)
      ensures maxVal == BinValue(histMin, binSize, k)
    {
      HighestCharacterized(histogram, pixelCount, k);
    }
  }

  lemma {:induction false} LowestFromIsLeast(h: seq<int>, pixelCount: int, i: nat)
    requires i <= |h|
    ensures var k := LowestFrom(h, pixelCount, i);
      if k == -1 then forall j :: i <= j < |h| ==> !Qualifies(h[j], pixelCount)
      else i <= k < |h| && Qualifies(h[k], pixelCount)
           && forall j :: i <= j < k ==> !Qualifies(h[j], pixelCount)
    decreases |h| - i
  {
    if i < |h| && !Qualifies(h[i], pixelCount) {
      LowestFromIsLeast(h, pixelCount, i + 1);
    }
  }

  lemma {:induction false} HighestBelowIsGreatest(h: seq<int>, pixelCount: int, n: nat)
    requires n <= |h|
    ensures var k := HighestBelow(h, pixelCount, n);
      if k == -1 then forall j :: 0 <= j < n ==> !Qualifies(h[j], pixelCount)
      else 0 <= k < n && Qualifies(h[k], pixelCount)
           && forall j :: k < j < n ==> !Qualifies(h[j], pixelCount)
  {
    if n > 0 && !Qualifies(h[n - 1], pixelCount) {
      HighestBelowIsGreatest(h, pixelCount, n - 1);
    }
  }

  /** `hmin` is exactly the smallest qualifying index, or -1 when none qualifies. */
  lemma LowestCharacterized(h: seq<int>, pixelCount: int, k: int)
    ensures Lowest(h, pixelCount) == k <==> IsLowest(h, pixelCount, k)
  {
    LowestFromIsLeast(h, pixelCount, 0);
  }

  /** `hmax` is exactly the largest qualifying index, or -1 when none qualifies. */
  lemma HighestCharacterized(h: seq<int>, pixelCount: int, k: int)
    ensures Highest(h, pixelCount) == k <==> IsHighest(h, pixelCount, k)
  {
    HighestBelowIsGreatest(h, pixelCount, |h|);
  }

  /** Both scans agree on whether anything qualifies, and the lower index never
      passes the upper one. */
  lemma ScansAgree(h: seq<int>, pixelCount: int)
    ensures (Lowest(h, pixelCount) == -1) <==> (Highest(h, pixelCount) == -1)
    ensures Lowest(h, pixelCount) != -1 ==>
      0 <= Lowest(h, pixelCount) <= Highest(h, pixelCount) < |h|
  {
    LowestFromIsLeast(h, pixelCount, 0);
    HighestBelowIsGreatest(h, pixelCount, |h|);
  }

  /** With no qualifying bin both bounds sit one bin below the histogram's origin. */
  lemma SentinelBounds(h: seq<int>, pixelCount: int, binSize: real, histMin: real)
    requires forall j :: 0 <= j < |h| ==> !Qualifies(h[j], pixelCount)
    ensures BoundsOf(h, pixelCount, binSize, histMin) == (histMin - binSize, histMin - binSize)
  {
    LowestCharacterized(h, pixelCount, -1);
    HighestCharacterized(h, pixelCount, -1);
  }

  /** When every bin is saturated nothing qualifies, so both bounds are the sentinel. */
  lemma AllSaturatedGivesSentinel(h: seq<int>, pixelCount: int, binSize: real, histMin: real)
    requires forall j :: 0 <= j < |h| ==> h[j] > Limit(pixelCount)
    ensures Lowest(h, pixelCount) == -1 && Highest(h, pixelCount) == -1
    ensures BoundsOf(h, pixelCount, binSize, histMin) == (histMin - binSize, histMin - binSize)
  {
    SentinelBounds(h, pixelCount, binSize, histMin);
    LowestCharacterized(h, pixelCount, -1);
    HighestCharacterized(h, pixelCount, -1);
  }

  /** For a non-negative bin width the lower bound never exceeds the upper one. */
  lemma BoundsOrdered(h: seq<int>, pixelCount: int, binSize: real, histMin: real)
    requires binSize >= 0.0
    ensures BoundsOf(h, pixelCount, binSize, histMin).0 <= BoundsOf(h, pixelCount, binSize, histMin).1
  {
    ScansAgree(h, pixelCount);
    var lo, hi := Lowest(h, pixelCount), Highest(h, pixelCount);
    assert lo <= hi;
    assert (lo as real) * binSize <= (hi as real) * binSize by {
      assert ((hi as real) - (lo as real)) * binSize >= 0.0;
    }
    assert BoundsOf(h, pixelCount, binSize, histMin)
      == (BinValue(histMin, binSize, lo), BinValue(histMin, binSize, hi));
  }
}

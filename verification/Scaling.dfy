/** How wallpapers are scaled and placed (crates/renderer/src/background/render.rs:36-66, 273-327). */
module Scaling {
  import opened Arithmetic
  import opened FrameSizes

  const U32_BOUND: nat := 0x1_0000_0000

  /** An `as u32` cast. */
  function Truncated(n: nat): u32 {
    n % U32_BOUND
  }

  function FloorDiv(a: nat, b: nat): nat
    requires b > 0
  {
    a / b
  }

  function CeilDiv(a: nat, b: nat): nat
    requires b > 0
  {
    (a + b - 1) / b
  }

  function Max(a: nat, b: nat): nat {
    if a < b then b else a
  }

  function CoverDimensions(sourceWidth: u32, sourceHeight: u32, targetWidth: u32, targetHeight: u32): (u32, u32)
    requires sourceWidth > 0 && sourceHeight > 0
  {
    var height := CeilDiv(sourceHeight * targetWidth, sourceWidth);
    if height >= targetHeight then (targetWidth, Truncated(height))
    else (Truncated(CeilDiv(sourceWidth * targetHeight, sourceHeight)), targetHeight)
  }

  function FitDimensions(sourceWidth: u32, sourceHeight: u32, targetWidth: u32, targetHeight: u32): (u32, u32)
    requires sourceWidth > 0 && sourceHeight > 0
  {
    var height := FloorDiv(sourceHeight * targetWidth, sourceWidth);
    if height <= targetHeight then (targetWidth, Truncated(Max(height, 1)))
    else (Truncated(Max(FloorDiv(sourceWidth * targetHeight, sourceHeight), 1)), targetHeight)
  }

  /** `n` is the least integer no smaller than a / b, stated without dividing. */
  ghost predicate IsCeil(n: nat, a: nat, b: nat) {
    a <= n * b && (n > 0 ==> (n - 1) * b < a)
  }

  /** `n` is the greatest integer no larger than a / b. */
  ghost predicate IsFloor(n: nat, a: nat, b: nat) {
    n * b <= a < (n + 1) * b
  }

  lemma CeilDivIsCeil(a: nat, b: nat)
    requires b > 0
    ensures IsCeil(CeilDiv(a, b), a, b)
  {
    var n := CeilDiv(a, b);
    assert a + b - 1 == n * b + (a + b - 1) % b;
    if n > 0 {
      assert (n - 1) * b == n * b - b;
    }
  }

  lemma DivIsFloor(a: nat, b: nat)
    requires b > 0
    ensures IsFloor(FloorDiv(a, b), a, b)
  {
    assert a == (a / b) * b + a % b;
    assert (a / b + 1) * b == (a / b) * b + b;
  }

  lemma CeilIsMonotone(n: nat, a: nat, b: nat, bound: nat)
    requires b > 0 && IsCeil(n, a, b) && bound * b <= a
    ensures bound <= n
  {
    assert (n + 1) * b == n * b + b;
    if n < bound {
      ProductMonotone(n + 1, bound, b);
    }
  }

  /** The side of a covering image that the target does not fix, before the cast. */
  function CoverSide(sourceWidth: u32, sourceHeight: u32, targetWidth: u32, targetHeight: u32): nat
    requires sourceWidth > 0 && sourceHeight > 0
  {
    var height := CeilDiv(sourceHeight * targetWidth, sourceWidth);
    if height >= targetHeight then height else CeilDiv(sourceWidth * targetHeight, sourceHeight)
  }

  /** An image of `width` by `height` covers the target: one side meets it and the other is the least
      that keeps the source's aspect ratio. */
  ghost predicate Covers(width: nat, height: nat, sourceWidth: nat, sourceHeight: nat, targetWidth: nat,
                         targetHeight: nat) {
    && width >= targetWidth && height >= targetHeight
    && ((width == targetWidth && IsCeil(height, sourceHeight * targetWidth, sourceWidth))
        || (height == targetHeight && IsCeil(width, sourceWidth * targetHeight, sourceHeight)))
  }

  lemma CoverCovers(sourceWidth: u32, sourceHeight: u32, targetWidth: u32, targetHeight: u32)
    requires sourceWidth > 0 && sourceHeight > 0
    requires CoverSide(sourceWidth, sourceHeight, targetWidth, targetHeight) < U32_BOUND
    ensures var (width, height) := CoverDimensions(sourceWidth, sourceHeight, targetWidth, targetHeight);
            Covers(width, height, sourceWidth, sourceHeight, targetWidth, targetHeight)
  {
    CeilDivIsCeil(sourceHeight * targetWidth, sourceWidth);
    CeilDivIsCeil(sourceWidth * targetHeight, sourceHeight);
    var height := CeilDiv(sourceHeight * targetWidth, sourceWidth);
    if height < targetHeight {
      ProductMonotone(height, targetHeight, sourceWidth);
      CeilIsMonotone(CeilDiv(sourceWidth * targetHeight, sourceHeight), sourceWidth * targetHeight,
                    sourceHeight, targetWidth);
    }
  }

  lemma CeilIsUnique(m: nat, n: nat, a: nat, b: nat)
    requires b > 0 && IsCeil(m, a, b) && IsCeil(n, a, b)
    ensures m == n
  {
    CeilIsMonotone(m, a, b, if n > 0 then n - 1 else 0);
    CeilIsMonotone(n, a, b, if m > 0 then m - 1 else 0);
  }

  /** A height cut by the cast is too small to be a target height that the target width suits. */
  lemma CutHeightSuitsNoTarget(height: nat, cut: nat, sourceWidth: u32, sourceHeight: u32, targetWidth: nat)
    requires sourceWidth > 0 && sourceHeight > 0 && targetWidth > 0
    requires IsCeil(height, sourceHeight * targetWidth, sourceWidth) && cut + U32_BOUND <= height
    ensures !IsCeil(targetWidth, sourceWidth * cut, sourceHeight)
  {
    var short: nat := height - cut - U32_BOUND;
    assert (height - 1) * sourceWidth == cut * sourceWidth + short * sourceWidth + (U32_BOUND - 1) * sourceWidth;
    assert (targetWidth - 1) * sourceHeight == sourceHeight * targetWidth - sourceHeight;
  }

  /** The side the target does not fix stays below 2^32, stated on the four inputs without dividing. */
  predicate FreeSideFits(sourceWidth: u32, sourceHeight: u32, targetWidth: u32, targetHeight: u32) {
    if targetHeight == 0 || (targetHeight - 1) * sourceWidth < sourceHeight * targetWidth then
      sourceHeight * targetWidth <= (U32_BOUND - 1) * sourceWidth
    else
      sourceWidth * targetHeight <= (U32_BOUND - 1) * sourceHeight
  }

  lemma CeilAtMost(a: nat, b: nat, bound: nat)
    requires b > 0
    ensures CeilDiv(a, b) <= bound <==> a <= bound * b
  {
    CeilDivIsCeil(a, b);
    var n := CeilDiv(a, b);
    if n <= bound {
      ProductMonotone(n, bound, b);
    } else {
      ProductMonotone(bound, n - 1, b);
    }
  }

  lemma CoverSideFitsIff(sourceWidth: u32, sourceHeight: u32, targetWidth: u32, targetHeight: u32)
    requires sourceWidth > 0 && sourceHeight > 0
    ensures CoverSide(sourceWidth, sourceHeight, targetWidth, targetHeight) < U32_BOUND
       <==> FreeSideFits(sourceWidth, sourceHeight, targetWidth, targetHeight)
  {
    if targetHeight > 0 {
      CeilAtMost(sourceHeight * targetWidth, sourceWidth, targetHeight - 1);
    }
    CeilAtMost(sourceHeight * targetWidth, sourceWidth, U32_BOUND - 1);
    CeilAtMost(sourceWidth * targetHeight, sourceHeight, U32_BOUND - 1);
  }

  /** The scaled image covers the target exactly when the side the target does not fix survives its cast to `u32`. */
  lemma CoverCoversIff(sourceWidth: u32, sourceHeight: u32, targetWidth: u32, targetHeight: u32)
    requires sourceWidth > 0 && sourceHeight > 0
    ensures var (width, height) := CoverDimensions(sourceWidth, sourceHeight, targetWidth, targetHeight);
            Covers(width, height, sourceWidth, sourceHeight, targetWidth, targetHeight)
            <==> FreeSideFits(sourceWidth, sourceHeight, targetWidth, targetHeight)
  {
    CoverSideFitsIff(sourceWidth, sourceHeight, targetWidth, targetHeight);
    var (width, height) := CoverDimensions(sourceWidth, sourceHeight, targetWidth, targetHeight);
    var side := CoverSide(sourceWidth, sourceHeight, targetWidth, targetHeight);
    if side < U32_BOUND {
      CoverCovers(sourceWidth, sourceHeight, targetWidth, targetHeight);
    } else if Covers(width, height, sourceWidth, sourceHeight, targetWidth, targetHeight) {
      var byWidth, byHeight := CeilDiv(sourceHeight * targetWidth, sourceWidth),
          CeilDiv(sourceWidth * targetHeight, sourceHeight);
      CeilDivIsCeil(sourceHeight * targetWidth, sourceWidth);
      CeilDivIsCeil(sourceWidth * targetHeight, sourceHeight);
      if width == targetWidth && IsCeil(height, sourceHeight * targetWidth, sourceWidth) {
        CeilIsUnique(height, byWidth, sourceHeight * targetWidth, sourceWidth);
      } else if byWidth >= targetHeight {
        CutHeightSuitsNoTarget(byWidth, height, sourceWidth, sourceHeight, targetWidth);
      } else {
        CeilIsUnique(width, byHeight, sourceWidth * targetHeight, sourceHeight);
      }
    }
  }

  /** A one-pixel-wide image on a wide canvas is scaled to no height at all. */
  lemma CoverCanVanish()
    ensures CoverDimensions(1, 0x1_0000, 0x1_0000, 1) == (0x1_0000, 0)
  {
  }

  /** The fitted image lies inside the target: one side meets it, the other is the greatest that keeps the aspect
      ratio, but at least one pixel.  Nothing is cut by the casts. */
  lemma FitFits(sourceWidth: u32, sourceHeight: u32, targetWidth: u32, targetHeight: u32)
    requires sourceWidth > 0 && sourceHeight > 0 && targetWidth > 0 && targetHeight > 0
    ensures var (width, height) := FitDimensions(sourceWidth, sourceHeight, targetWidth, targetHeight);
            && 1 <= width <= targetWidth && 1 <= height <= targetHeight
            && ((width == targetWidth && (IsFloor(height, sourceHeight * targetWidth, sourceWidth)
                                          || (height == 1 && sourceHeight * targetWidth < sourceWidth)))
                || (height == targetHeight && (IsFloor(width, sourceWidth * targetHeight, sourceHeight)
                                               || (width == 1 && sourceWidth * targetHeight < sourceHeight))))
  {
    var height := FloorDiv(sourceHeight * targetWidth, sourceWidth);
    if height <= targetHeight {
      DivIsFloor(sourceHeight * targetWidth, sourceWidth);
    } else {
      FitOtherSide(sourceWidth, sourceHeight, targetWidth, targetHeight);
      DivIsFloor(sourceWidth * targetHeight, sourceHeight);
    }
  }

  lemma FitOtherSide(sourceWidth: nat, sourceHeight: nat, targetWidth: nat, targetHeight: nat)
    requires sourceWidth > 0 && sourceHeight > 0
    requires FloorDiv(sourceHeight * targetWidth, sourceWidth) > targetHeight
    ensures FloorDiv(sourceWidth * targetHeight, sourceHeight) <= targetWidth
  {
    var height, width := FloorDiv(sourceHeight * targetWidth, sourceWidth),
        FloorDiv(sourceWidth * targetHeight, sourceHeight);
    DivIsFloor(sourceHeight * targetWidth, sourceWidth);
    DivIsFloor(sourceWidth * targetHeight, sourceHeight);
    ProductMonotone(targetHeight, height, sourceWidth);
    if width > targetWidth {
      ProductMonotone(targetWidth + 1, width, sourceHeight);
    }
  }

  /** Where one axis of an image goes when centred: source start, target start, length. */
  function CenteredAxis(source: u32, target: u32): (u32, u32, u32) {
    if source <= target then (0, (target - source) / 2, source) else ((source - target) / 2, 0, target)
  }

  /** Either the whole source is inside the target or the target inside the source, and the two margins differ
      by at most one pixel, the extra one after. */
  lemma CenteredAxisIsCentered(source: u32, target: u32)
    ensures var (from, to, len) := CenteredAxis(source, target);
            && from + len <= source && to + len <= target && (len == source || len == target)
            && 0 <= (source - len - from) - from <= 1
            && 0 <= (target - len - to) - to <= 1
  {
  }

  function SaturatingSub(a: nat, b: nat): nat {
    if a < b then 0 else a - b
  }

  /** The crop of a filled wallpaper lies inside the scaled image, centred to the pixel.  The program guards
      against empty targets by scaling to at least one pixel. */
  lemma FillCropIsInside(sourceWidth: u32, sourceHeight: u32, size: FrameSize)
    requires sourceWidth > 0 && sourceHeight > 0
    requires FreeSideFits(sourceWidth, sourceHeight, Max(size.width, 1), Max(size.height, 1))
    ensures var (width, height) := CoverDimensions(sourceWidth, sourceHeight, Max(size.width, 1), Max(size.height, 1));
            var (x, y) := (SaturatingSub(width, size.width) / 2, SaturatingSub(height, size.height) / 2);
            && x + size.width <= width && y + size.height <= height
            && 0 <= (width - size.width - x) - x <= 1 && 0 <= (height - size.height - y) - y <= 1
            && (width == Max(size.width, 1) || height == Max(size.height, 1))
  {
    CoverSideFitsIff(sourceWidth, sourceHeight, Max(size.width, 1), Max(size.height, 1));
    CoverCovers(sourceWidth, sourceHeight, Max(size.width, 1), Max(size.height, 1));
  }
}

/** Copying and tiling wallpapers pixel by pixel (crates/renderer/src/background/render.rs:62-92, 265-267, 307-349).
    A picture is indexed by row, then column. */
module ImageBlit {
  import opened Arithmetic
  import opened FrameSizes
  import opened Scaling

  datatype Pixel = Rgba(red: nat, green: nat, blue: nat, alpha: nat)

  const U32_MAX: nat := 0xFFFF_FFFF

  method FilledCanvas(width: u32, height: u32, color: Pixel) returns (canvas: array2<Pixel>)
    ensures fresh(canvas) && canvas.Length0 == height && canvas.Length1 == width
    ensures forall y, x | 0 <= y < height && 0 <= x < width :: canvas[y, x] == color
  {
    canvas := new Pixel[height, width]((y, x) => color);
  }

  ghost predicate Inside(y: int, x: int, top: int, left: int, height: int, width: int) {
    top <= y < top + height && left <= x < left + width
  }

  /** `blit_region`: the rectangle arrives, and nothing around it changes. */
  method BlitRegion(canvas: array2<Pixel>, image: array2<Pixel>, srcX: nat, srcY: nat, dstX: nat, dstY: nat,
                    width: nat, height: nat)
    requires canvas != image
    requires width > 0 && height > 0 ==>
      && srcX + width <= image.Length1 && srcY + height <= image.Length0
      && dstX + width <= canvas.Length1 && dstY + height <= canvas.Length0
    modifies canvas
    ensures forall y, x | 0 <= y < canvas.Length0 && 0 <= x < canvas.Length1 ::
      canvas[y, x] == if width > 0 && height > 0 && Inside(y, x, dstY, dstX, height, width)
                      then image[srcY + (y - dstY), srcX + (x - dstX)] else old(canvas[y, x])
  {
    if width == 0 || height == 0 {
      return;
    }
    for y := 0 to height
      invariant forall v, u | 0 <= v < canvas.Length0 && 0 <= u < canvas.Length1 ::
        canvas[v, u] == if Inside(v, u, dstY, dstX, y, width)
                        then image[srcY + (v - dstY), srcX + (u - dstX)] else old(canvas[v, u])
    {
      for x := 0 to width
        invariant forall v, u | 0 <= v < canvas.Length0 && 0 <= u < canvas.Length1 ::
          canvas[v, u] == if Inside(v, u, dstY, dstX, y, width) || Inside(v, u, dstY + y, dstX, 1, x)
                          then image[srcY + (v - dstY), srcX + (u - dstX)] else old(canvas[v, u])
      {
        canvas[dstY + y, dstX + x] := image[srcY + y, srcX + x];
      }
    }
  }

  /** `render_image_center`, and the second half of `render_image_fit`. */
  method RenderImageCenter(image: array2<Pixel>, size: FrameSize, fallback: Pixel) returns (canvas: array2<Pixel>)
    requires image.Length0 <= U32_MAX && image.Length1 <= U32_MAX
    ensures canvas.Length0 == size.height && canvas.Length1 == size.width
    ensures var (srcX, dstX, width) := CenteredAxis(image.Length1, size.width);
            var (srcY, dstY, height) := CenteredAxis(image.Length0, size.height);
            forall y, x | 0 <= y < size.height && 0 <= x < size.width ::
              canvas[y, x] == if Inside(y, x, dstY, dstX, height, width)
                              then image[srcY + (y - dstY), srcX + (x - dstX)] else fallback
  {
    canvas := FilledCanvas(size.width, size.height, fallback);
    var (srcX, dstX, width) := CenteredAxis(image.Length1, size.width);
    var (srcY, dstY, height) := CenteredAxis(image.Length0, size.height);
    CenteredAxisIsCentered(image.Length1, size.width);
    CenteredAxisIsCentered(image.Length0, size.height);
    BlitRegion(canvas, image, srcX, srcY, dstX, dstY, width, height);
  }

  // ---- Tiling

  /** The first multiple of `step` at or past `n`: where a tiling loop stops. */
  function RoundedUp(n: nat, step: nat): nat
    requires step > 0
  {
    CeilDiv(n, step) * step
  }

  lemma RoundedUpBelowSum(n: nat, step: nat)
    requires step > 0
    ensures n <= RoundedUp(n, step) < n + step
  {
    CeilDivIsCeil(n, step);
    assert CeilDiv(n, step) > 0 ==> (CeilDiv(n, step) - 1) * step == CeilDiv(n, step) * step - step;
  }

  /** While a multiple of the step is short of the end, the next one is no further than where the loop stops. */
  lemma NextTile(k: nat, n: nat, step: nat)
    requires step > 0 && k * step < n
    ensures k * step + step == (k + 1) * step <= RoundedUp(n, step)
  {
    CeilDivIsCeil(n, step);
    if CeilDiv(n, step) <= k {
      ProductMonotone(CeilDiv(n, step), k, step);
    } else {
      ProductMonotone(k + 1, CeilDiv(n, step), step);
    }
  }

  /** The `u32` loop counter passes the far edge without overflow exactly when that is its last value; it is enough that
      canvas and tile together fit. */
  lemma CounterFitsIff(n: nat, step: nat)
    requires step > 0
    ensures (forall k: nat | k * step < n :: k * step + step <= U32_MAX) <==> n == 0 || RoundedUp(n, step) <= U32_MAX
    ensures n + step <= U32_MAX + 1 ==> RoundedUp(n, step) <= U32_MAX
  {
    RoundedUpBelowSum(n, step);
    CeilDivIsCeil(n, step);
    forall k: nat | k * step < n ensures k * step + step <= RoundedUp(n, step) {
      NextTile(k, n, step);
    }
    if n > 0 {
      var last: nat := CeilDiv(n, step) - 1;
      assert last * step < n && last * step + step == RoundedUp(n, step);
    }
  }

  /** Inside the `k`-th tile, the position modulo the step is the distance from the tile's start. */
  lemma InTile(i: nat, k: nat, step: nat)
    requires step > 0 && k * step <= i < k * step + step
    ensures i % step == i - k * step
  {
    DivModUnique(i, k, i - k * step, step);
  }

  ghost predicate Tiled(canvas: array2<Pixel>, image: array2<Pixel>, y: int, x: int)
    requires image.Length0 > 0 && image.Length1 > 0
    requires 0 <= y < canvas.Length0 && 0 <= x < canvas.Length1
    reads canvas, image
  {
    canvas[y, x] == image[y % image.Length0, x % image.Length1]
  }

  /** One tile, clipped at the right and bottom edges: the pixels it covers come out tiled. */
  method DrawTile(canvas: array2<Pixel>, image: array2<Pixel>, dstX: nat, dstY: nat, ghost column: nat, ghost row: nat)
    requires canvas != image && image.Length0 > 0 && image.Length1 > 0
    requires dstX == column * image.Length1 < canvas.Length1 && dstY == row * image.Length0 < canvas.Length0
    modifies canvas
    ensures forall y, x | 0 <= y < canvas.Length0 && 0 <= x < canvas.Length1 ::
      if Inside(y, x, dstY, dstX, image.Length0, image.Length1) then Tiled(canvas, image, y, x)
      else canvas[y, x] == old(canvas[y, x])
  {
    var width := if image.Length1 < canvas.Length1 - dstX then image.Length1 else canvas.Length1 - dstX;
    var height := if image.Length0 < canvas.Length0 - dstY then image.Length0 else canvas.Length0 - dstY;
    BlitRegion(canvas, image, 0, 0, dstX, dstY, width, height);
    forall y, x | Inside(y, x, dstY, dstX, height, width) ensures Tiled(canvas, image, y, x) {
      InTile(y, row, image.Length0);
      InTile(x, column, image.Length1);
    }
  }

  /** The inner loop: one band of tiles. */
  method DrawBand(canvas: array2<Pixel>, image: array2<Pixel>, dstY: nat, ghost row: nat)
    requires canvas != image && image.Length0 > 0 && image.Length1 > 0
    requires dstY == row * image.Length0 < canvas.Length0
    requires RoundedUp(canvas.Length1, image.Length1) <= U32_MAX
    modifies canvas
    ensures forall y, x | 0 <= y < canvas.Length0 && 0 <= x < canvas.Length1 ::
      if dstY <= y < dstY + image.Length0 then Tiled(canvas, image, y, x)
      else canvas[y, x] == old(canvas[y, x])
  {
    var dstX: u32 := 0;
    ghost var column := 0;
    while dstX < canvas.Length1
      invariant dstX == column * image.Length1
      invariant forall y, x | 0 <= y < canvas.Length0 && 0 <= x < canvas.Length1 ::
        if Inside(y, x, dstY, 0, image.Length0, dstX) then Tiled(canvas, image, y, x)
        else canvas[y, x] == old(canvas[y, x])
    {
      NextTile(column, canvas.Length1, image.Length1);
      assert dstX + image.Length1 == (column + 1) * image.Length1;
      DrawTile(canvas, image, dstX, dstY, column, row);
      dstX := dstX + image.Length1;
      column := column + 1;
    }
  }

  /** `render_image_tile`: every canvas pixel is the image pixel at its coordinates modulo the image's sides.
      The loop counters are `u32`, so they must be able to pass the far edges. */
  method RenderImageTile(image: array2<Pixel>, size: FrameSize, fallback: Pixel) returns (canvas: array2<Pixel>)
    requires 0 < image.Length0 && 0 < image.Length1
    requires RoundedUp(size.width, image.Length1) <= U32_MAX && RoundedUp(size.height, image.Length0) <= U32_MAX
    ensures canvas.Length0 == size.height && canvas.Length1 == size.width
    ensures forall y, x | 0 <= y < size.height && 0 <= x < size.width ::
      canvas[y, x] == image[y % image.Length0, x % image.Length1]
  {
    canvas := FilledCanvas(size.width, size.height, fallback);
    var dstY: u32 := 0;
    ghost var row := 0;
    while dstY < size.height
      invariant dstY == row * image.Length0
      invariant forall y, x | 0 <= y < size.height && 0 <= x < size.width && y < dstY :: Tiled(canvas, image, y, x)
    {
      NextTile(row, size.height, image.Length0);
      assert dstY + image.Length0 == (row + 1) * image.Length0;
      DrawBand(canvas, image, dstY, row);
      dstY := dstY + image.Length0;
      row := row + 1;
    }
    forall y, x | 0 <= y < size.height && 0 <= x < size.width
      ensures canvas[y, x] == image[y % image.Length0, x % image.Length1]
    {
      assert Tiled(canvas, image, y, x);
    }
  }
}

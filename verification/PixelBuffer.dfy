/** Premultiplied ARGB8888 compositing (crates/renderer/src/lib.rs, crates/renderer/src/background/treatment.rs). */
module PixelBuffers {
  import opened Arithmetic
  import opened Bytes

  /** One pixel, its bytes in memory order. */
  datatype Argb = Argb(blue: byte, green: byte, red: byte, alpha: byte)

  const CLEAR := Argb(0, 0, 0, 0)

  /** A colour as configured, not premultiplied. */
  datatype ClearColor = ClearColor(red: byte, green: byte, blue: byte, alpha: byte)

  /** Scaling by x / 255 rounds to nearest; the `u16` intermediate never overflows. */
  function Scaled(value: byte, factor: byte): (scaled: byte)
    ensures scaled <= factor && scaled <= value
  {
    var product: nat := value as int * factor as int;
    ProductMonotone(value, 255, factor);
    ProductMonotone(factor, 255, value);
    assert product + 127 < 0x1_0000;
    (product + 127) / 255
  }

  function ToArgb(c: ClearColor): Argb {
    Argb(Scaled(c.blue, c.alpha), Scaled(c.green, c.alpha), Scaled(c.red, c.alpha), c.alpha)
  }

  /** The clamped sum of `blend_component`. */
  function BlendComponent(dst: byte, src: byte, inverseAlpha: byte): byte {
    var blended: nat := src as int + Scaled(dst, inverseAlpha) as int;
    if blended > 255 then 255 else blended
  }

  function Blended(dst: Argb, src: Argb): Argb {
    var inverse := 255 - src.alpha;
    Argb(BlendComponent(dst.blue, src.blue, inverse), BlendComponent(dst.green, src.green, inverse),
         BlendComponent(dst.red, src.red, inverse), BlendComponent(dst.alpha, src.alpha, inverse))
  }

  /** `blend_pixel`, with its short cuts for transparent and opaque sources. */
  function BlendPixel(dst: Argb, src: Argb): Argb {
    if src.alpha == 0 then dst
    else if src.alpha == 255 then src
    else Blended(dst, src)
  }

  ghost predicate Premultiplied(p: Argb) {
    p.blue <= p.alpha && p.green <= p.alpha && p.red <= p.alpha
  }

  // ---- One blend

  lemma ScaledMonotone(a: byte, b: byte, factor: byte)
    requires a <= b
    ensures Scaled(a, factor) <= Scaled(b, factor)
  {
    ProductMonotone(a, b, factor);
  }

  lemma ScaledByWhole(a: byte)
    ensures Scaled(a, 255) == a && Scaled(255, a) == a && Scaled(a, 0) == 0
  {
  }

  /** The product rounded to the nearest. */
  lemma ScaledRounds(value: byte, factor: byte)
    ensures -127 <= 255 * Scaled(value, factor) as int - value as int * factor as int <= 127
  {
  }

  lemma ColorIsPremultiplied(c: ClearColor)
    ensures Premultiplied(ToArgb(c))
  {
  }

  /** Blending premultiplied pixels gives a premultiplied pixel, without the clamp ever mattering. */
  lemma BlendKeepsPremultiplied(dst: Argb, src: Argb)
    requires Premultiplied(dst) && Premultiplied(src)
    ensures Premultiplied(BlendPixel(dst, src))
    ensures var inverse := 255 - src.alpha;
            && Blended(dst, src).blue == src.blue + Scaled(dst.blue, inverse)
            && Blended(dst, src).green == src.green + Scaled(dst.green, inverse)
            && Blended(dst, src).red == src.red + Scaled(dst.red, inverse)
            && Blended(dst, src).alpha == src.alpha + Scaled(dst.alpha, inverse)
  {
    var inverse := 255 - src.alpha;
    ScaledMonotone(dst.blue, dst.alpha, inverse);
    ScaledMonotone(dst.green, dst.alpha, inverse);
    ScaledMonotone(dst.red, dst.alpha, inverse);
  }

  lemma ComponentShortCuts(dst: byte, src: byte)
    ensures BlendComponent(dst, src, 0) == src
    ensures BlendComponent(dst, src, 255) == dst <==> src == 0 || dst == 255
  {
    ScaledByWhole(dst);
  }

  /** The short cuts agree with the formula, except that a transparent source must add nothing that still fits. */
  lemma ShortCutsAgreeIff(dst: Argb, src: Argb)
    ensures BlendPixel(dst, src) == Blended(dst, src) <==>
      (src.alpha == 0 ==> (src.blue == 0 || dst.blue == 255) && (src.green == 0 || dst.green == 255)
                          && (src.red == 0 || dst.red == 255))
  {
    if src.alpha == 0 || src.alpha == 255 {
      ComponentShortCuts(dst.blue, src.blue);
      ComponentShortCuts(dst.green, src.green);
      ComponentShortCuts(dst.red, src.red);
      ComponentShortCuts(dst.alpha, src.alpha);
    }
  }

  /** They differ for a transparent source that is not premultiplied: the formula adds its colour. */
  lemma ShortCutDropsColor()
    ensures var source := Argb(1, 0, 0, 0);
            !Premultiplied(source) && BlendPixel(CLEAR, source) == CLEAR != Blended(CLEAR, source)
  {
    ShortCutsAgreeIff(CLEAR, Argb(1, 0, 0, 0));
  }

  lemma OpaqueStaysOpaque(dst: Argb, src: Argb)
    requires dst.alpha == 255
    ensures BlendPixel(dst, src).alpha == 255
  {
    ScaledByWhole(255 - src.alpha);
  }

  // ---- Treatment

  /** Dimming strength in percent, as an alpha. */
  function AlphaFromPercent(percent: byte): byte {
    var clamped: int := if percent < 100 then percent else 100;
    (clamped * 255 + 50) / 100
  }

  function Dimmed(p: Argb, percent: byte): Argb {
    if percent == 0 then p
    else
      var multiplier := 255 - AlphaFromPercent(percent);
      Argb(Scaled(p.blue, multiplier), Scaled(p.green, multiplier), Scaled(p.red, multiplier), p.alpha)
  }

  function Tinted(p: Argb, tint: ClearColor): Argb {
    if tint.alpha == 0 then p else Blended(p, ToArgb(tint))
  }

  /** Tinting is blending with a buffer of the tint. */
  lemma TintIsBlend(p: Argb, tint: ClearColor)
    ensures Tinted(p, tint) == BlendPixel(p, ToArgb(tint))
  {
    ShortCutsAgreeIff(p, ToArgb(tint));
  }

  /** Dimming only darkens, by nothing at 0 and to black from 100 percent on. */
  lemma DimmedIsDarker(p: Argb, percent: byte)
    ensures var d := Dimmed(p, percent);
            && d.alpha == p.alpha && d.blue <= p.blue && d.green <= p.green && d.red <= p.red
            && (percent >= 100 ==> d == Argb(0, 0, 0, p.alpha))
  {
    if percent >= 100 {
      assert AlphaFromPercent(percent) == 255;
      ScaledByWhole(p.blue);
      ScaledByWhole(p.green);
      ScaledByWhole(p.red);
    }
  }

  /** Rounded to the nearest, halves up. */
  lemma AlphaRounds(percent: byte)
    requires percent <= 100
    ensures -50 < 100 * AlphaFromPercent(percent) as int - 255 * percent as int <= 50
  {
  }

  lemma DimmedChannel(channel: byte, percent: byte)
    requires percent <= 100
    ensures var kept, share: int := Scaled(channel, 255 - AlphaFromPercent(percent)), channel * (100 - percent as int);
            -100 <= 100 * kept - share <= 100
  {
    var c, alpha, left: int := channel, AlphaFromPercent(percent), 100 - percent;
    var error := 100 * alpha - 255 * percent;
    AlphaRounds(percent);
    ScaledRounds(channel, 255 - AlphaFromPercent(percent));
    assert 100 * (c * (255 - alpha)) == 255 * (c * left) - c * error;
    ProductWithin(channel, error, 50);
  }

  lemma ProductWithin(channel: byte, error: int, bound: nat)
    requires 0 - bound <= error <= bound
    ensures 0 - 255 * bound <= channel as int * error <= 255 * bound
  {
  }

  /** Dimming by `percent` leaves each channel within one of its share, and takes nothing away at 0. */
  lemma DimmedIsProportional(p: Argb, percent: byte)
    requires percent <= 100
    ensures var d, left := Dimmed(p, percent), 100 - percent as int;
            && -100 <= 100 * d.blue as int - p.blue as int * left <= 100
            && -100 <= 100 * d.green as int - p.green as int * left <= 100
            && -100 <= 100 * d.red as int - p.red as int * left <= 100
            && (percent == 0 ==> d == p)
  {
    DimmedChannel(p.blue, percent);
    DimmedChannel(p.green, percent);
    DimmedChannel(p.red, percent);
  }

  // ---- Whole buffers

  datatype Operation =
    | Clear(color: ClearColor)
    | BlendFrom(overlay: seq<Argb>)
    | Dim(percent: byte)
    | Tint(tint: ClearColor)

  /** Buffers of different sizes do not blend: the call returns an error and the target stays as it was. */
  function Applied(pixels: seq<Argb>, op: Operation): (after: seq<Argb>)
    ensures |after| == |pixels|
  {
    match op
    case Clear(color) => seq(|pixels|, k => ToArgb(color))
    case BlendFrom(overlay) =>
      if |overlay| != |pixels| then pixels
      else seq(|pixels|, k requires 0 <= k < |pixels| => BlendPixel(pixels[k], overlay[k]))
    case Dim(percent) => seq(|pixels|, k requires 0 <= k < |pixels| => Dimmed(pixels[k], percent))
    case Tint(tint) => seq(|pixels|, k requires 0 <= k < |pixels| => Tinted(pixels[k], tint))
  }

  function Composited(pixels: seq<Argb>, ops: seq<Operation>): seq<Argb> {
    if ops == [] then pixels else Applied(Composited(pixels, ops[..|ops| - 1]), ops[|ops| - 1])
  }

  /** One pixel, the `k`-th, under the operations. */
  function PixelComposited(p: Argb, ops: seq<Operation>, k: nat): Argb {
    if ops == [] then p
    else
      var before := PixelComposited(p, ops[..|ops| - 1], k);
      match ops[|ops| - 1]
      case Clear(color) => ToArgb(color)
      case BlendFrom(overlay) => if k < |overlay| then BlendPixel(before, overlay[k]) else before
      case Dim(percent) => Dimmed(before, percent)
      case Tint(tint) => BlendPixel(before, ToArgb(tint))
  }

  /** Each pixel is composited on its own, as long as the overlays have the buffer's size; one of another size is
      skipped whole. */
  lemma {:induction false} CompositedPixelwise(pixels: seq<Argb>, ops: seq<Operation>, k: nat)
    requires k < |pixels|
    ensures |Composited(pixels, ops)| == |pixels|
    ensures (forall op <- ops :: op.BlendFrom? ==> |op.overlay| == |pixels|) ==>
              Composited(pixels, ops)[k] == PixelComposited(pixels[k], ops, k)
    ensures ops != [] && ops[|ops| - 1].BlendFrom? && |ops[|ops| - 1].overlay| != |pixels| ==>
              Composited(pixels, ops) == Composited(pixels, ops[..|ops| - 1])
  {
    if ops != [] {
      var init, op := ops[..|ops| - 1], ops[|ops| - 1];
      CompositedPixelwise(pixels, init, k);
      assert op in ops && forall earlier <- init :: earlier in ops;
      if op.Tint? {
        TintIsBlend(Composited(pixels, init)[k], op.tint);
      }
    }
  }

  ghost predicate AllPremultiplied(pixels: seq<Argb>) {
    forall p <- pixels :: Premultiplied(p)
  }

  ghost predicate AllOpaque(pixels: seq<Argb>) {
    forall p <- pixels :: p.alpha == 255
  }

  /** Any sequence of operations with premultiplied overlays keeps every colour byte at or below its alpha. */
  lemma {:induction false} CompositingKeepsPremultiplied(pixels: seq<Argb>, ops: seq<Operation>)
    requires AllPremultiplied(pixels)
    requires forall op <- ops :: op.BlendFrom? ==> AllPremultiplied(op.overlay)
    ensures AllPremultiplied(Composited(pixels, ops))
  {
    if ops != [] {
      var before, op := Composited(pixels, ops[..|ops| - 1]), ops[|ops| - 1];
      CompositingKeepsPremultiplied(pixels, ops[..|ops| - 1]);
      forall k | 0 <= k < |before| ensures Premultiplied(Applied(before, op)[k]) {
        assert before[k] in before;
        match op {
          case Clear(color) => ColorIsPremultiplied(color);
          case BlendFrom(overlay) =>
            if |overlay| == |before| {
              assert op in ops && overlay[k] in overlay;
              BlendKeepsPremultiplied(before[k], overlay[k]);
            }
          case Dim(percent) => DimKeepsPremultiplied(before[k], percent);
          case Tint(tint) =>
            TintIsBlend(before[k], tint);
            BlendKeepsPremultiplied(before[k], ToArgb(tint));
        }
      }
    }
  }

  lemma DimKeepsPremultiplied(p: Argb, percent: byte)
    requires Premultiplied(p)
    ensures Premultiplied(Dimmed(p, percent))
  {
    DimmedIsDarker(p, percent);
  }

  /** An opaque buffer stays opaque under anything but a translucent clear. */
  lemma {:induction false} CompositingKeepsOpaque(pixels: seq<Argb>, ops: seq<Operation>)
    requires AllOpaque(pixels)
    requires forall op <- ops :: op.Clear? ==> op.color.alpha == 255
    ensures AllOpaque(Composited(pixels, ops))
  {
    if ops != [] {
      var before, op := Composited(pixels, ops[..|ops| - 1]), ops[|ops| - 1];
      CompositingKeepsOpaque(pixels, ops[..|ops| - 1]);
      assert op in ops;
      forall k | 0 <= k < |before| ensures Applied(before, op)[k].alpha == 255 {
        assert before[k] in before;
        match op {
          case Clear(_) =>
          case BlendFrom(overlay) =>
            if |overlay| == |before| {
              OpaqueStaysOpaque(before[k], overlay[k]);
            }
          case Dim(percent) =>
          case Tint(tint) =>
            TintIsBlend(before[k], tint);
            OpaqueStaysOpaque(before[k], ToArgb(tint));
        }
      }
    }
  }

  // ---- Unpremultiplying for PNG

  function Unpremultiply(channel: byte, alpha: byte): byte {
    if alpha == 0 then 0
    else
      var quotient := (channel as int * 255 + alpha as int / 2) / alpha as int;
      if quotient > 255 then 255 else quotient
  }

  /** One pixel as `save_png` writes it. */
  function Exported(p: Argb): ClearColor {
    if p.alpha == 0 then ClearColor(0, 0, 0, 0)
    else
      ClearColor(Unpremultiply(p.red, p.alpha), Unpremultiply(p.green, p.alpha),
                 Unpremultiply(p.blue, p.alpha), p.alpha)
  }

  /** A channel survives unpremultiplying and premultiplying exactly when it does not exceed its alpha. */
  lemma ChannelRoundTripIff(channel: byte, alpha: byte)
    requires alpha > 0
    ensures Scaled(Unpremultiply(channel, alpha), alpha) == channel <==> channel <= alpha
  {
    var c, a: int := channel, alpha;
    var q := (c * 255 + a / 2) / a;
    QuotientBounds(c * 255 + a / 2, a);
    if c <= a {
      QuotientAtMost(c * 255 + a / 2, a, 255);
      assert q * a + 127 >= 255 * c && q * a + 127 < 255 * c + 255;
    } else {
      assert c * 255 >= a * 255 + 255;
      QuotientAtLeast(c * 255 + a / 2, a, 255);
      ScaledByWhole(alpha);
    }
  }

  lemma QuotientBounds(x: nat, a: nat)
    requires a > 0
    ensures x - a < (x / a) * a <= x
  {
    assert x == (x / a) * a + x % a;
  }

  lemma QuotientAtMost(x: nat, a: nat, bound: nat)
    requires a > 0 && x < (bound + 1) * a
    ensures x / a <= bound
  {
    QuotientBounds(x, a);
    if x / a > bound {
      ProductMonotone(bound + 1, x / a, a);
    }
  }

  lemma QuotientAtLeast(x: nat, a: nat, bound: nat)
    requires a > 0 && x >= bound * a
    ensures x / a >= bound
  {
    QuotientBounds(x, a);
    if x / a < bound {
      ProductMonotone(x / a + 1, bound, a);
    }
  }

  lemma QuotientRounds(c: nat, a: nat)
    requires 0 < a && c <= a
    ensures (c * 255 + a / 2) / a <= 255 && 0 - a <= 2 * (((c * 255 + a / 2) / a) * a - 255 * c) <= a
  {
    QuotientBounds(c * 255 + a / 2, a);
    QuotientAtMost(c * 255 + a / 2, a, 255);
  }

  /** Unpremultiplying undoes the product to the nearest, and stops at white. */
  lemma UnpremultiplyRounds(channel: byte, alpha: byte)
    requires alpha > 0
    ensures var c: int, a: int, u: int := channel, alpha, Unpremultiply(channel, alpha);
            if c <= a then -a <= 2 * (u * a - 255 * c) <= a else u == 255
  {
    if channel <= alpha {
      QuotientRounds(channel, alpha);
    } else {
      QuotientAtLeast(channel as int * 255 + alpha as int / 2, alpha, 255);
    }
  }

  /** Exporting keeps alpha, and a transparent pixel loses its colour. */
  lemma ExportedAlpha(p: Argb)
    ensures Exported(p).alpha == p.alpha && (p.alpha == 0 ==> Exported(p) == ClearColor(0, 0, 0, 0))
  {
  }

  /** Exporting a pixel and drawing it again gives the same bytes exactly when it is premultiplied. */
  lemma ExportRoundTripIff(p: Argb)
    ensures ToArgb(Exported(p)) == p <==> Premultiplied(p)
  {
    if p.alpha > 0 {
      ChannelRoundTripIff(p.blue, p.alpha);
      ChannelRoundTripIff(p.green, p.alpha);
      ChannelRoundTripIff(p.red, p.alpha);
    }
  }

  // ---- The program

  /** The pixels of a byte buffer; its length is four times their number. */
  function Pixels(bytes: seq<byte>): seq<Argb> {
    seq(|bytes| / 4, k requires 0 <= k < |bytes| / 4 => PixelAt(bytes, k))
  }

  function PixelAt(bytes: seq<byte>, k: nat): Argb
    requires 4 * k + 3 < |bytes|
  {
    Argb(bytes[4 * k], bytes[4 * k + 1], bytes[4 * k + 2], bytes[4 * k + 3])
  }

  class SoftwareBuffer {
    const width: nat
    const height: nat
    const bytes: array<byte>

    ghost predicate Valid()
      reads this
    {
      bytes.Length == width * height * 4
    }

    /** `SoftwareBuffer::new`, for a size whose byte length fits. */
    constructor (w: nat, h: nat)
      ensures Valid() && width == w && height == h && fresh(bytes)
      ensures forall i | 0 <= i < bytes.Length :: bytes[i] == 0
      ensures forall p <- Pixels(bytes[..]) :: p == CLEAR
    {
      width, height := w, h;
      bytes := new byte[w * h * 4](_ => 0);
    }

    /** Four bytes at a time, as `chunks_exact_mut` hands them out. */
    method SetPixel(k: nat, p: Argb)
      requires 4 * k + 3 < bytes.Length
      modifies bytes
      ensures PixelAt(bytes[..], k) == p
      ensures forall j | 0 <= j < bytes.Length / 4 && j != k :: PixelAt(bytes[..], j) == PixelAt(old(bytes[..]), j)
      ensures forall i | 0 <= i < bytes.Length && !(4 * k <= i < 4 * k + 4) :: bytes[i] == old(bytes[i])
    {
      bytes[4 * k], bytes[4 * k + 1], bytes[4 * k + 2], bytes[4 * k + 3] := p.blue, p.green, p.red, p.alpha;
    }

    method ClearTo(color: ClearColor)
      requires Valid()
      modifies bytes
      ensures Pixels(bytes[..]) == Applied(Pixels(old(bytes[..])), Clear(color))
      ensures forall k | 0 <= k < width * height ::
        bytes[4 * k..4 * k + 4] == [Scaled(color.blue, color.alpha), Scaled(color.green, color.alpha),
                                    Scaled(color.red, color.alpha), color.alpha]
    {
      var pixel := ToArgb(color);
      for k := 0 to bytes.Length / 4
        invariant forall j | 0 <= j < k ::
          PixelAt(bytes[..], j) == pixel
          && bytes[4 * j..4 * j + 4] == [pixel.blue, pixel.green, pixel.red, pixel.alpha]
      {
        SetPixel(k, pixel);
      }
    }

    /** `blend_from`: false is the size mismatch error. */
    method Blend(overlay: SoftwareBuffer) returns (ok: bool)
      requires Valid() && overlay.Valid() && overlay.bytes != bytes
      modifies bytes
      ensures ok <==> width == overlay.width && height == overlay.height
      ensures Pixels(bytes[..]) == if ok then Applied(Pixels(old(bytes[..])), BlendFrom(Pixels(overlay.bytes[..])))
                                   else Pixels(old(bytes[..]))
    {
      if width != overlay.width || height != overlay.height {
        return false;
      }
      for k := 0 to bytes.Length / 4
        invariant forall j | 0 <= j < bytes.Length / 4 ::
          PixelAt(bytes[..], j) == if j < k then BlendPixel(PixelAt(old(bytes[..]), j), PixelAt(overlay.bytes[..], j))
                                   else PixelAt(old(bytes[..]), j)
      {
        SetPixel(k, BlendPixel(PixelAt(bytes[..], k), PixelAt(overlay.bytes[..], k)));
      }
      ok := true;
    }

    /** `apply_treatment`: dim, then tint; no tint is a transparent one. */
    method ApplyTreatment(dim: byte, tint: ClearColor)
      requires Valid()
      modifies bytes
      ensures Pixels(bytes[..]) == Applied(Applied(Pixels(old(bytes[..])), Dim(dim)), Tint(tint))
    {
      if dim > 0 {
        for k := 0 to bytes.Length / 4
          invariant forall j | 0 <= j < bytes.Length / 4 ::
            PixelAt(bytes[..], j) == if j < k then Dimmed(PixelAt(old(bytes[..]), j), dim)
                                        else PixelAt(old(bytes[..]), j)
        {
          SetPixel(k, Dimmed(PixelAt(bytes[..], k), dim));
        }
      }
      ghost var dimmed := bytes[..];
      if tint.alpha > 0 {
        for k := 0 to bytes.Length / 4
          invariant forall j | 0 <= j < bytes.Length / 4 ::
            PixelAt(bytes[..], j) == if j < k then Tinted(PixelAt(dimmed, j), tint) else PixelAt(dimmed, j)
        {
          SetPixel(k, Tinted(PixelAt(bytes[..], k), tint));
        }
      }
    }

    /** The pixel loop of `save_png`: drawing the exported colours again gives back the buffer exactly when
        it is premultiplied throughout. */
    method SavePng() returns (rgba: seq<ClearColor>)
      requires Valid()
      ensures |rgba| == bytes.Length / 4
      ensures (forall k | 0 <= k < |rgba| :: ToArgb(rgba[k]) == PixelAt(bytes[..], k))
         <==> AllPremultiplied(Pixels(bytes[..]))
    {
      rgba := [];
      for k := 0 to bytes.Length / 4
        invariant |rgba| == k && forall j | 0 <= j < k :: rgba[j] == Exported(PixelAt(bytes[..], j))
      {
        rgba := rgba + [Exported(PixelAt(bytes[..], k))];
      }
      forall k | 0 <= k < |rgba|
        ensures ToArgb(rgba[k]) == PixelAt(bytes[..], k) <==> Premultiplied(Pixels(bytes[..])[k]) {
        ExportRoundTripIff(PixelAt(bytes[..], k));
      }
    }
  }
}

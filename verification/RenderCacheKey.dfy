/** The file names of cached renders (crates/renderer/src/background/render_cache.rs:212-227 and 312-442):
    three printed keys, each hashed into the next. */
module RenderCacheKeys {
  import opened FrameSizes
  import opened Options
  import opened Printing

  datatype Color = Color(red: nat, green: nat, blue: nat, alpha: nat)

  datatype Gradient = Gradient(topLeft: Color, topRight: Color, bottomLeft: Color, bottomRight: Color)

  datatype Radial = Radial(center: Color, edge: Color, centerX: nat, centerY: nat, radius: nat)

  datatype Blob = Blob(color: Color, x: nat, y: nat, size: nat)

  datatype Base = SolidBase(color: Color) | GradientBase(gradient: Gradient) | RadialBase(radial: Radial)

  datatype Generated =
    | GradientBackground(gradient: Gradient)
    | RadialBackground(radial: Radial)
    | LayeredBackground(base: Base, first: Option<Blob>, second: Option<Blob>, third: Option<Blob>)

  /** An image file by path, length and modification second, or a generated background. */
  datatype Source = ImageFile(path: string, len: nat, modified: nat) | GeneratedSource(generated: Generated)

  datatype Scaling = Fill | Fit | Center | Tile | Stretch

  datatype Treatment = Treatment(blurRadius: nat, dimStrength: nat, tint: Option<Color>, scaling: Scaling)

  datatype Request = Request(source: Source, size: FrameSize, treatment: Treatment, variant: Option<string>)

  // ---- The first key: source and size

  function SizeText(size: FrameSize): string {
    Decimal(size.width) + "x" + Decimal(size.height)
  }

  function ColorFields(c: Color): seq<nat> {
    [c.red, c.green, c.blue, c.alpha]
  }

  function GradientFields(g: Gradient): seq<nat> {
    ColorFields(g.topLeft) + ColorFields(g.topRight) + ColorFields(g.bottomLeft) + ColorFields(g.bottomRight)
  }

  function RadialFields(r: Radial): seq<nat> {
    ColorFields(r.center) + ColorFields(r.edge) + [r.centerX, r.centerY, r.radius]
  }

  function BlobFields(b: Blob): seq<nat> {
    ColorFields(b.color) + [b.x, b.y, b.size]
  }

  function LayeredBaseKey(base: Base): string {
    match base
    case SolidBase(color) => "solid:" + Colons(ColorFields(color))
    case GradientBase(gradient) => "gradient:" + Colons(GradientFields(gradient))
    case RadialBase(radial) => "radial:" + Colons(RadialFields(radial))
  }

  function LayeredBlobKey(blob: Option<Blob>): string {
    match blob
    case Some(b) => "blob:" + Colons(BlobFields(b))
    case None => "none"
  }

  function SourceKey(source: Source, size: FrameSize): string {
    match source
    case ImageFile(path, len, modified) =>
      "image:v1:" + (path + ":" + Decimal(len) + ":" + Decimal(modified) + ":" + SizeText(size))
    case GeneratedSource(GradientBackground(gradient)) =>
      "gradient:v1:" + (Colons(GradientFields(gradient)) + ":" + SizeText(size))
    case GeneratedSource(RadialBackground(radial)) =>
      "radial:v1:" + (Colons(RadialFields(radial)) + ":" + SizeText(size))
    case GeneratedSource(LayeredBackground(base, first, second, third)) =>
      "layered:v1:" + (LayeredBaseKey(base) + ":"
                       + (LayeredBlobKey(first) + ":"
                          + (LayeredBlobKey(second) + ":" + (LayeredBlobKey(third) + ":" + SizeText(size)))))
  }

  lemma SizeTextInjective(a: FrameSize, b: FrameSize)
    requires SizeText(a) == SizeText(b)
    ensures a == b
  {
    assert 'x' !in DIGITS;
    SplitAtFirst(Decimal(a.width), Decimal(a.height), Decimal(b.width), Decimal(b.height), 'x');
    DecimalInjective(a.width, b.width);
    DecimalInjective(a.height, b.height);
  }

  lemma SizeTextHasNoColon(size: FrameSize)
    ensures ':' !in SizeText(size)
  {
    assert ':' !in DIGITS;
  }

  lemma BaseKeySplit(a: Base, s: string, b: Base, t: string)
    requires LayeredBaseKey(a) + ":" + s == LayeredBaseKey(b) + ":" + t
    ensures a == b && s == t
  {
    assert (LayeredBaseKey(a) + ":" + s)[0] == LayeredBaseKey(a)[0]
        && (LayeredBaseKey(b) + ":" + t)[0] == LayeredBaseKey(b)[0];
    match (a, b) {
      case (SolidBase(c), SolidBase(d)) => FieldsSplit("solid:", ColorFields(c), s, ColorFields(d), t);
      case (GradientBase(g), GradientBase(h)) =>
        FieldsSplit("gradient:", GradientFields(g), s, GradientFields(h), t);
        GradientFieldsInjective(g, h);
      case (RadialBase(q), RadialBase(r)) =>
        FieldsSplit("radial:", RadialFields(q), s, RadialFields(r), t);
        RadialFieldsInjective(q, r);
      case _ =>
    }
  }

  lemma BlobKeySplit(a: Option<Blob>, s: string, b: Option<Blob>, t: string)
    requires LayeredBlobKey(a) + ":" + s == LayeredBlobKey(b) + ":" + t
    ensures a == b && s == t
  {
    assert (LayeredBlobKey(a) + ":" + s)[0] == LayeredBlobKey(a)[0]
        && (LayeredBlobKey(b) + ":" + t)[0] == LayeredBlobKey(b)[0];
    match (a, b) {
      case (Some(c), Some(d)) =>
        FieldsSplit("blob:", BlobFields(c), s, BlobFields(d), t);
        assert BlobFields(c)[4] == BlobFields(d)[4] && BlobFields(c)[5] == BlobFields(d)[5]
               && BlobFields(c)[6] == BlobFields(d)[6];
        assert BlobFields(c)[..4] == BlobFields(d)[..4];
      case (None, None) =>
        assert "none" + ":" == "none:";
        SameAfterPrefix("none:", s, t);
      case _ =>
    }
  }

  lemma Regroup(prefix: string, middle: string, s: string)
    ensures prefix + middle + ":" + s == prefix + (middle + ":" + s)
  {
  }

  lemma FieldsSplit(prefix: string, fields: seq<nat>, s: string, others: seq<nat>, t: string)
    requires |fields| == |others| > 0
    requires prefix + Colons(fields) + ":" + s == prefix + Colons(others) + ":" + t
    ensures fields == others && s == t
  {
    Regroup(prefix, Colons(fields), s);
    Regroup(prefix, Colons(others), t);
    SameAfterPrefix(prefix, Colons(fields) + ":" + s, Colons(others) + ":" + t);
    ColonsSplit(fields, s, others, t);
  }

  lemma GradientFieldsInjective(g: Gradient, h: Gradient)
    requires GradientFields(g) == GradientFields(h)
    ensures g == h
  {
    var s, t := GradientFields(g), GradientFields(h);
    assert forall i | 0 <= i < 16 :: s[i] == t[i];
    assert s[0..4] == ColorFields(g.topLeft) && t[0..4] == ColorFields(h.topLeft);
    assert s[4..8] == ColorFields(g.topRight) && t[4..8] == ColorFields(h.topRight);
    assert s[8..12] == ColorFields(g.bottomLeft) && t[8..12] == ColorFields(h.bottomLeft);
    assert s[12..16] == ColorFields(g.bottomRight) && t[12..16] == ColorFields(h.bottomRight);
    ColorFieldsInjective(g.topLeft, h.topLeft);
    ColorFieldsInjective(g.topRight, h.topRight);
    ColorFieldsInjective(g.bottomLeft, h.bottomLeft);
    ColorFieldsInjective(g.bottomRight, h.bottomRight);
  }

  lemma ColorFieldsInjective(c: Color, d: Color)
    requires ColorFields(c) == ColorFields(d)
    ensures c == d
  {
    assert forall i | 0 <= i < 4 :: ColorFields(c)[i] == ColorFields(d)[i];
  }

  lemma RadialFieldsInjective(q: Radial, r: Radial)
    requires RadialFields(q) == RadialFields(r)
    ensures q == r
  {
    var s, t := RadialFields(q), RadialFields(r);
    assert s[0..4] == ColorFields(q.center) && t[0..4] == ColorFields(r.center);
    assert s[4..8] == ColorFields(q.edge) && t[4..8] == ColorFields(r.edge);
    assert s[8] == t[8] && s[9] == t[9] && s[10] == t[10];
    ColorFieldsInjective(q.center, r.center);
    ColorFieldsInjective(q.edge, r.edge);
  }

  lemma ImageKeyInjective(a: Source, sizeA: FrameSize, b: Source, sizeB: FrameSize)
    requires a.ImageFile? && b.ImageFile? && SourceKey(a, sizeA) == SourceKey(b, sizeB)
    ensures a == b && sizeA == sizeB
  {
    var timedA := a.path + ":" + Decimal(a.len) + ":" + Decimal(a.modified);
    var timedB := b.path + ":" + Decimal(b.len) + ":" + Decimal(b.modified);
    SameAfterPrefix("image:v1:", timedA + ":" + SizeText(sizeA), timedB + ":" + SizeText(sizeB));
    SizeTextHasNoColon(sizeA);
    SizeTextHasNoColon(sizeB);
    SplitAtLast(timedA, SizeText(sizeA), timedB, SizeText(sizeB), ':');
    SizeTextInjective(sizeA, sizeB);
    assert ':' !in DIGITS;
    SplitAtLast(a.path + ":" + Decimal(a.len), Decimal(a.modified),
                b.path + ":" + Decimal(b.len), Decimal(b.modified), ':');
    SplitAtLast(a.path, Decimal(a.len), b.path, Decimal(b.len), ':');
    DecimalInjective(a.modified, b.modified);
    DecimalInjective(a.len, b.len);
  }

  lemma LayeredKeyInjective(a: Generated, sizeA: FrameSize, b: Generated, sizeB: FrameSize)
    requires a.LayeredBackground? && b.LayeredBackground?
    requires SourceKey(GeneratedSource(a), sizeA) == SourceKey(GeneratedSource(b), sizeB)
    ensures a == b && sizeA == sizeB
  {
    var thirdA, thirdB := LayeredBlobKey(a.third) + ":" + SizeText(sizeA),
        LayeredBlobKey(b.third) + ":" + SizeText(sizeB);
    var secondA, secondB := LayeredBlobKey(a.second) + ":" + thirdA, LayeredBlobKey(b.second) + ":" + thirdB;
    var firstA, firstB := LayeredBlobKey(a.first) + ":" + secondA, LayeredBlobKey(b.first) + ":" + secondB;
    SameAfterPrefix("layered:v1:", LayeredBaseKey(a.base) + ":" + firstA, LayeredBaseKey(b.base) + ":" + firstB);
    BaseKeySplit(a.base, firstA, b.base, firstB);
    BlobKeySplit(a.first, secondA, b.first, secondB);
    BlobKeySplit(a.second, thirdA, b.second, thirdB);
    BlobKeySplit(a.third, SizeText(sizeA), b.third, SizeText(sizeB));
    SizeTextInjective(sizeA, sizeB);
  }

  lemma GeneratedKeyInjective(a: Generated, sizeA: FrameSize, b: Generated, sizeB: FrameSize)
    requires SourceKey(GeneratedSource(a), sizeA) == SourceKey(GeneratedSource(b), sizeB)
    ensures a == b && sizeA == sizeB
  {
    assert SourceKey(GeneratedSource(a), sizeA)[0] == SourceKey(GeneratedSource(b), sizeB)[0];
    match (a, b) {
      case (GradientBackground(g), GradientBackground(h)) =>
        SameAfterPrefix("gradient:v1:", Colons(GradientFields(g)) + ":" + SizeText(sizeA),
                        Colons(GradientFields(h)) + ":" + SizeText(sizeB));
        ColonsSplit(GradientFields(g), SizeText(sizeA), GradientFields(h), SizeText(sizeB));
        GradientFieldsInjective(g, h);
        SizeTextInjective(sizeA, sizeB);
      case (RadialBackground(q), RadialBackground(r)) =>
        SameAfterPrefix("radial:v1:", Colons(RadialFields(q)) + ":" + SizeText(sizeA),
                        Colons(RadialFields(r)) + ":" + SizeText(sizeB));
        ColonsSplit(RadialFields(q), SizeText(sizeA), RadialFields(r), SizeText(sizeB));
        RadialFieldsInjective(q, r);
        SizeTextInjective(sizeA, sizeB);
      case (LayeredBackground(_, _, _, _), LayeredBackground(_, _, _, _)) => LayeredKeyInjective(a, sizeA, b, sizeB);
      case _ =>
    }
  }

  /** The printed key names one source and one size, whatever colons and digits the path holds. */
  lemma SourceKeyInjective(a: Source, sizeA: FrameSize, b: Source, sizeB: FrameSize)
    requires SourceKey(a, sizeA) == SourceKey(b, sizeB)
    ensures a == b && sizeA == sizeB
  {
    assert SourceKey(a, sizeA)[0] == SourceKey(b, sizeB)[0];
    if a.ImageFile? && b.ImageFile? {
      ImageKeyInjective(a, sizeA, b, sizeB);
    } else if a.GeneratedSource? && b.GeneratedSource? {
      GeneratedKeyInjective(a.generated, sizeA, b.generated, sizeB);
    }
  }

  // ---- The second key: treatment

  /** As `{:?}` prints an `Option<ClearColor>`: `Some(ClearColor { red: 1, green: 2, blue: 3, alpha: 4 })`. */
  function TintText(tint: Option<Color>): string {
    match tint
    case None => "None"
    case Some(c) => "Some(ClearColor { red: " + FromRed(c)
  }

  function FromRed(c: Color): string {
    Decimal(c.red) + "," + (" green: " + FromGreen(c))
  }

  function FromGreen(c: Color): string {
    Decimal(c.green) + "," + (" blue: " + FromBlue(c))
  }

  function FromBlue(c: Color): string {
    Decimal(c.blue) + "," + (" alpha: " + (Decimal(c.alpha) + " " + "})"))
  }

  function ScalingText(scaling: Scaling): string {
    match scaling
    case Fill => "Fill"
    case Fit => "Fit"
    case Center => "Center"
    case Tile => "Tile"
    case Stretch => "Stretch"
  }

  function TreatmentKey(hashed: nat, t: Treatment): string {
    Decimal(hashed) + ":" + (Decimal(t.blurRadius) + ":" + (Decimal(t.dimStrength) + ":"
      + (TintText(t.tint) + ":" + ScalingText(t.scaling))))
  }

  lemma TintTextInjective(a: Option<Color>, b: Option<Color>)
    requires TintText(a) == TintText(b)
    ensures a == b
  {
    assert TintText(a)[0] == TintText(b)[0];
    if a.Some? && b.Some? {
      var c, d := a.value, b.value;
      SameAfterPrefix("Some(ClearColor { red: ", FromRed(c), FromRed(d));
      NumberSplit(c.red, " green: " + FromGreen(c), d.red, " green: " + FromGreen(d), ',');
      SameAfterPrefix(" green: ", FromGreen(c), FromGreen(d));
      NumberSplit(c.green, " blue: " + FromBlue(c), d.green, " blue: " + FromBlue(d), ',');
      SameAfterPrefix(" blue: ", FromBlue(c), FromBlue(d));
      FromBlueInjective(c, d);
    }
  }

  lemma FromBlueInjective(c: Color, d: Color)
    requires FromBlue(c) == FromBlue(d)
    ensures c.blue == d.blue && c.alpha == d.alpha
  {
    var endC, endD := Decimal(c.alpha) + " " + "})", Decimal(d.alpha) + " " + "})";
    NumberSplit(c.blue, " alpha: " + endC, d.blue, " alpha: " + endD, ',');
    SameAfterPrefix(" alpha: ", endC, endD);
    NumberSplit(c.alpha, "})", d.alpha, "})", ' ');
  }

  lemma NumberSplit(m: nat, s: string, n: nat, t: string, sep: char)
    requires Decimal(m) + [sep] + s == Decimal(n) + [sep] + t && sep !in DIGITS
    ensures m == n && s == t
  {
    SplitAtFirst(Decimal(m), s, Decimal(n), t, sep);
    DecimalInjective(m, n);
  }

  lemma ScalingTextInjective(a: Scaling, b: Scaling)
    requires ScalingText(a) == ScalingText(b)
    ensures a == b
  {
    assert |ScalingText(a)| == |ScalingText(b)| && ScalingText(a)[2] == ScalingText(b)[2];
  }

  lemma TreatmentKeyInjective(m: nat, a: Treatment, n: nat, b: Treatment)
    requires TreatmentKey(m, a) == TreatmentKey(n, b)
    ensures m == n && a == b
  {
    var tailA, tailB := TintText(a.tint) + ":" + ScalingText(a.scaling),
        TintText(b.tint) + ":" + ScalingText(b.scaling);
    var dimA, dimB := Decimal(a.dimStrength) + ":" + tailA, Decimal(b.dimStrength) + ":" + tailB;
    var blurA, blurB := Decimal(a.blurRadius) + ":" + dimA, Decimal(b.blurRadius) + ":" + dimB;
    NumberSplit(m, blurA, n, blurB, ':');
    NumberSplit(a.blurRadius, dimA, b.blurRadius, dimB, ':');
    NumberSplit(a.dimStrength, tailA, b.dimStrength, tailB, ':');
    SplitAtLast(TintText(a.tint), ScalingText(a.scaling), TintText(b.tint), ScalingText(b.scaling), ':');
    TintTextInjective(a.tint, b.tint);
    ScalingTextInjective(a.scaling, b.scaling);
  }

  // ---- The third key and the file name

  function VariantText(variant: Option<string>): string {
    if variant.Some? then variant.value else ""
  }

  function VariantKey(hashed: nat, variant: Option<string>): string {
    Decimal(hashed) + ":" + VariantText(variant)
  }

  /** `stable_hash`, as any function into 64 bits. */
  type Hash = string -> nat

  const U64_BOUND: nat := 0x1_0000_0000_0000_0000

  function SecondKey(hash: Hash, r: Request): string {
    TreatmentKey(hash(SourceKey(r.source, r.size)), r.treatment)
  }

  function ThirdKey(hash: Hash, r: Request): string {
    VariantKey(hash(SecondKey(hash, r)), r.variant)
  }

  /** `cache_path`, below the cache directory. */
  function CacheName(hash: Hash, r: Request): string {
    Hex(hash(ThirdKey(hash, r)), 16) + ".argb"
  }

  /** Sixteen hexadecimal digits and the extension. */
  lemma CacheNameParts(hash: Hash, r: Request)
    ensures |CacheName(hash, r)| == 21 && CacheName(hash, r)[16..] == ".argb"
    ensures forall i | 0 <= i < 16 :: CacheName(hash, r)[i] in DIGITS
  {
  }

  lemma CacheNameBeginsWithDigit(hash: Hash, r: Request)
    ensures CacheName(hash, r) != "" && CacheName(hash, r)[0] != '.'
  {
    DigitsBegin(Hex(hash(ThirdKey(hash, r)), 16), ".argb");
  }

  lemma DigitsBegin(digits: string, rest: string)
    requires digits != "" && forall c <- digits :: c in DIGITS
    ensures (digits + rest)[0] != '.'
  {
    assert (digits + rest)[0] == digits[0] && digits[0] in digits;
    assert '.' !in DIGITS;
  }

  /** The strings hashed on behalf of a request. */
  function HashedStrings(hash: Hash, r: Request): set<string> {
    {SourceKey(r.source, r.size), SecondKey(hash, r), ThirdKey(hash, r)}
  }

  ghost predicate NoCollision(hash: Hash, strings: set<string>) {
    && (forall s <- strings :: hash(s) < U64_BOUND)
    && (forall s, t | s in strings && t in strings && hash(s) == hash(t) :: s == t)
  }

  predicate NoVariant(variant: Option<string>) {
    variant == None || variant == Some("")
  }

  predicate SameVariant(a: Option<string>, b: Option<string>) {
    a == b || (NoVariant(a) && NoVariant(b))
  }

  lemma SameVariantIff(a: Option<string>, b: Option<string>)
    ensures VariantText(a) == VariantText(b) <==> SameVariant(a, b)
  {
  }

  /** The same picture is asked for; no variant and the empty variant are one. */
  ghost predicate SameRequest(a: Request, b: Request) {
    && a.source == b.source && a.size == b.size && a.treatment == b.treatment
    && SameVariant(a.variant, b.variant)
  }

  lemma SixteenHexDigits()
    ensures Power16(16) == U64_BOUND
  {
    assert Power16(4) == 0x1_0000;
    assert Power16(8) == 0x1_0000_0000;
    assert Power16(12) == 0x1_0000_0000_0000;
  }

  lemma SameNameSameThirdKey(hash: Hash, s: string, t: string)
    requires NoCollision(hash, {s, t})
    requires Hex(hash(s), 16) + ".argb" == Hex(hash(t), 16) + ".argb"
    ensures s == t
  {
    assert Hex(hash(s), 16) == (Hex(hash(s), 16) + ".argb")[..16]
        && Hex(hash(t), 16) == (Hex(hash(t), 16) + ".argb")[..16];
    SixteenHexDigits();
    HexInjective(hash(s), hash(t), 16);
  }

  lemma VariantKeyInjective(m: nat, a: Option<string>, n: nat, b: Option<string>)
    requires VariantKey(m, a) == VariantKey(n, b)
    ensures m == n && SameVariant(a, b)
  {
    NumberSplit(m, VariantText(a), n, VariantText(b), ':');
    SameVariantIff(a, b);
  }

  lemma SecondKeySame(m: nat, n: nat, hash: Hash, a: Request, b: Request)
    requires m == hash(SourceKey(a.source, a.size)) && n == hash(SourceKey(b.source, b.size))
    requires NoCollision(hash, {SourceKey(a.source, a.size), SourceKey(b.source, b.size)})
    requires TreatmentKey(m, a.treatment) == TreatmentKey(n, b.treatment)
    ensures a.source == b.source && a.size == b.size && a.treatment == b.treatment
  {
    TreatmentKeyInjective(m, a.treatment, n, b.treatment);
    SourceKeyInjective(a.source, a.size, b.source, b.size);
  }

  lemma HashedApart(hash: Hash, strings: set<string>, s: string, t: string)
    requires NoCollision(hash, strings) && s in strings && t in strings
    ensures NoCollision(hash, {s, t})
  {
  }

  /** Two requests share a cache file exactly when they ask for the same picture,
      as long as the hash keeps the six strings they print apart. */
  lemma SameNameIffSameRequest(hash: Hash, a: Request, b: Request)
    requires NoCollision(hash, HashedStrings(hash, a) + HashedStrings(hash, b))
    ensures CacheName(hash, a) == CacheName(hash, b) <==> SameRequest(a, b)
  {
    SameVariantIff(a.variant, b.variant);
    if CacheName(hash, a) == CacheName(hash, b) {
      var strings := HashedStrings(hash, a) + HashedStrings(hash, b);
      HashedApart(hash, strings, ThirdKey(hash, a), ThirdKey(hash, b));
      SameNameSameThirdKey(hash, ThirdKey(hash, a), ThirdKey(hash, b));
      VariantKeyInjective(hash(SecondKey(hash, a)), a.variant, hash(SecondKey(hash, b)), b.variant);
      HashedApart(hash, strings, SecondKey(hash, a), SecondKey(hash, b));
      HashedApart(hash, strings, SourceKey(a.source, a.size), SourceKey(b.source, b.size));
      SecondKeySame(hash(SourceKey(a.source, a.size)), hash(SourceKey(b.source, b.size)), hash, a, b);
    }
  }
}

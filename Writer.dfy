/**
 * The top of the lossless encoder (writer.go): Encode checks the image,
 * writes the 40-bit VP8L header, the transforms (the palette transform for
 * paletted images, otherwise subtract green and the predictor), the main
 * image data, pads the bit stream to an even number of bytes and frames it
 * in a RIFF container. Each framing step is paired with a parser, and the
 * transforms with the decoder-side reconstruction of the pixels.
 */
module Writer {
  import opened WebPTypes
  import opened Bits
  import opened BitWriter
  import opened Tokens
  import opened ImageWriter
  import opened Tiles
  import opened ColorTransforms
  import opened Predictor
  import opened Palette

  /** The colour-cache size Encode passes to every image-data section. */
  const CacheBits: nat := 4

  /** The largest width or height the 14-bit header fields carry. */
  const MaxDimension: nat := 16384

  /** 2^32: the RIFF size fields are uint32. */
  const Uint32Range: nat := 0x1_0000_0000

  /**
   * The image Encode receives, after conversion to non-premultiplied RGBA:
   * its bounds' width and height, its pixels row by row, and whether it was
   * a paletted image.
   */
  datatype Image = Image(dx: int, dy: int, pixels: seq<Pixel>, paletted: bool)

  /** A converted image holds exactly one pixel per position of its bounds. */
  predicate Drawn(img: Image) {
    img.dx >= 1 && img.dy >= 1 ==> |img.pixels| == img.dx * img.dy
  }

  /** Every pixel is fully opaque (the image library's Opaque). */
  predicate Opaque(ps: seq<Pixel>) {
    forall i :: 0 <= i < |ps| ==> ps[i].a == 255
  }

  /** Why Encode gives up. */
  datatype Failure =
    | NilImage
    | InvalidSize
      /** A dimension does not fit its 14-bit header field (the source panics). */
    | SizeTooLarge
    | TooManyColors
      /** A code table has no header the writer can send (the source panics). */
    | UnsendableTable
      /** A code is longer than the 56 bits one write can carry (outside the model). */
    | CodeTooLong

  datatype EncodeResult = Encoded(file: seq<byte>) | Failed(failure: Failure)

  /** The failure an unsuccessful image-data section stands for. */
  function FailureOf(o: Outcome): (f: Failure)
    requires o != Written
    ensures f == UnsendableTable <==> o.HeaderPanic?
    ensures f == CodeTooLong <==> o.DeepCode?
  {
    if o.HeaderPanic? then UnsendableTable else CodeTooLong
  }

  // ---------------------------------------------------------------------
  // The VP8L header
  // ---------------------------------------------------------------------

  /** writeBitStreamHeader: signature 0x2f, width - 1, height - 1, the alpha hint, version 0. */
  function HeaderBits(width: nat, height: nat, hasAlpha: bool): (bs: seq<bool>)
    requires width >= 1 && height >= 1
    ensures |bs| == 40
  {
    LsbBits(0x2f, 8) + LsbBits(width - 1, 14) + LsbBits(height - 1, 14) +
    LsbBits(if hasAlpha then 1 else 0, 1) + LsbBits(0, 3)
  }

  /** What a decoder reads from the first 40 bits: width, height and the alpha hint. */
  function ParseHeader(bs: seq<bool>): Option<(nat, nat, bool)> {
    if |bs| < 40 || FromBits(bs[..8]) != 0x2f || FromBits(bs[37..40]) != 0 then None
    else Some((FromBits(bs[8..22]) + 1, FromBits(bs[22..36]) + 1, bs[36]))
  }

  lemma Pow2Fields()
    ensures Pow2(1) == 2 && Pow2(3) == 8 && Pow2(8) == 256 && Pow2(14) == 16384
  {
    Pow2Byte();
    Pow2Add(8, 6);
  }

  /** Where the five header fields sit in a stream that starts with them. */
  lemma HeaderSlices<T>(a: seq<T>, b: seq<T>, c: seq<T>, d: seq<T>, e: seq<T>, rest: seq<T>)
    requires |a| == 8 && |b| == 14 && |c| == 14 && |d| == 1 && |e| == 3
    ensures var s := a + b + c + d + e + rest;
      |s| >= 40 && s[..8] == a && s[8..22] == b && s[22..36] == c && s[36] == d[0] && s[37..40] == e
  {
  }

  /** The five header fields read back from a stream that starts with them. */
  lemma ReadHeaderFields(sig: nat, w1: nat, h1: nat, alpha: bool, version: nat, rest: seq<bool>)
    requires sig < Pow2(8) && w1 < Pow2(14) && h1 < Pow2(14) && version < Pow2(3)
    ensures var s := LsbBits(sig, 8) + LsbBits(w1, 14) + LsbBits(h1, 14) + LsbBits(if alpha then 1 else 0, 1) +
                     LsbBits(version, 3) + rest;
      |s| >= 40 && FromBits(s[..8]) == sig && FromBits(s[8..22]) == w1 && FromBits(s[22..36]) == h1 &&
      s[36] == alpha && FromBits(s[37..40]) == version
  {
    var a, b, c, d, e := LsbBits(sig, 8), LsbBits(w1, 14), LsbBits(h1, 14), LsbBits(if alpha then 1 else 0, 1), LsbBits(version, 3);
    assert d[0] == alpha;
    HeaderSlices(a, b, c, d, e, rest);
    ReadBack(sig, 8);
    ReadBack(w1, 14);
    ReadBack(h1, 14);
    ReadBack(version, 3);
  }

  /** The header parser recovers the dimensions and the alpha hint, whatever follows. */
  lemma BitStreamHeaderRoundTrip(width: nat, height: nat, hasAlpha: bool, rest: seq<bool>)
    requires 1 <= width <= MaxDimension && 1 <= height <= MaxDimension
    ensures ParseHeader(HeaderBits(width, height, hasAlpha) + rest) == Some((width, height, hasAlpha))
  {
    Pow2Fields();
    ReadHeaderFields(0x2f, width - 1, height - 1, hasAlpha, 0, rest);
  }

  /** Conversely, whatever the parser accepts starts with the header of what it returns. */
  lemma HeaderParsed(bs: seq<bool>)
    requires ParseHeader(bs).Some?
    ensures var (width, height, hasAlpha) := ParseHeader(bs).value;
      1 <= width <= MaxDimension && 1 <= height <= MaxDimension && bs[..40] == HeaderBits(width, height, hasAlpha)
  {
    var (width, height, hasAlpha) := ParseHeader(bs).value;
    var a, b, c, e := bs[..8], bs[8..22], bs[22..36], bs[37..40];
    Pow2Fields();
    LsbBitsOfFromBits(a);
    LsbBitsOfFromBits(b);
    LsbBitsOfFromBits(c);
    LsbBitsOfFromBits(e);
    FortyBits(bs);
    assert LsbBits(if hasAlpha then 1 else 0, 1) == [bs[36]];
    HeaderBitsOf(width, height, hasAlpha, a, b, c, [bs[36]], e);
  }

  /** The header bits are their five fields, whichever sequences hold them. */
  lemma HeaderBitsOf(width: nat, height: nat, hasAlpha: bool, a: seq<bool>, b: seq<bool>, c: seq<bool>, d: seq<bool>, e: seq<bool>)
    requires width >= 1 && height >= 1
    requires a == LsbBits(0x2f, 8) && b == LsbBits(width - 1, 14) && c == LsbBits(height - 1, 14)
    requires d == LsbBits(if hasAlpha then 1 else 0, 1) && e == LsbBits(0, 3)
    ensures HeaderBits(width, height, hasAlpha) == a + b + c + d + e
  {
  }

  /** The first 40 elements of a sequence, cut where the header fields lie. */
  lemma FortyBits<T>(s: seq<T>)
    requires |s| >= 40
    ensures s[..40] == s[..8] + s[8..22] + s[22..36] + [s[36]] + s[37..40]
  {
  }

  /** writeBitStreamHeader: five writes of the header fields. */
  method WriteBitStreamHeader(w: BitWriter, width: nat, height: nat, hasAlpha: bool)
    requires w.Valid() && 1 <= width <= MaxDimension && 1 <= height <= MaxDimension
    modifies w
    ensures w.Valid() && w.Stream() == old(w.Stream()) + HeaderBits(width, height, hasAlpha)
  {
    Pow2Fields();
    ghost var s0 := w.Stream();
    w.WriteBits(0x2f, 8);
    w.WriteBits(width - 1, 14);
    w.WriteBits(height - 1, 14);
    var alpha := if hasAlpha then 1 else 0;
    w.WriteBits(alpha, 1);
    w.WriteBits(0, 3);
    AppendFive(s0, LsbBits(0x2f, 8), LsbBits(width - 1, 14), LsbBits(height - 1, 14), LsbBits(alpha, 1), LsbBits(0, 3));
  }

  // ---------------------------------------------------------------------
  // The RIFF container
  // ---------------------------------------------------------------------

  /** A uint32 in little-endian byte order (binary.LittleEndian.PutUint32). */
  function LE32(v: nat): (bs: seq<byte>)
    requires v < Uint32Range
    ensures |bs| == 4
  {
    [v % 256, v / 256 % 256, v / 65536 % 256, v / 16777216]
  }

  /** The value of four little-endian bytes. */
  function FromLE32(bs: seq<byte>): (v: nat)
    requires |bs| == 4
  {
    var b0, b1, b2, b3: int := bs[0], bs[1], bs[2], bs[3];
    b0 + 256 * b1 + 65536 * b2 + 16777216 * b3
  }

  /** Four bytes and a uint32 below 2^32 correspond one to one. */
  lemma LE32RoundTrip(v: nat, bs: seq<byte>)
    requires v < Uint32Range && |bs| == 4
    ensures FromLE32(LE32(v)) == v
    ensures FromLE32(bs) < Uint32Range && LE32(FromLE32(bs)) == bs
  {
    var q1, q2 := v / 256, v / 65536;
    assert q2 == q1 / 256;
    assert v == v % 256 + 256 * q1;
    assert q1 == q1 % 256 + 256 * q2;
    assert q2 == q2 % 256 + 256 * (v / 16777216);
    var b0, b1, b2, b3: int := bs[0], bs[1], bs[2], bs[3];
    var u := FromLE32(bs);
    var s := b2 + 256 * b3;
    var r := b1 + 256 * s;
    assert u == b0 + 256 * r;
    DivModUnique(u, 256, r, b0);
    DivModUnique(r, 256, s, b1);
    assert u / 65536 == r / 256;
    DivModUnique(s, 256, b3, b2);
    assert u / 16777216 == s / 256;
  }

  /** "RIFF", "WEBP" and "VP8L" in ASCII. */
  const RiffTag: seq<byte> := [0x52, 0x49, 0x46, 0x46]
  const WebpTag: seq<byte> := [0x57, 0x45, 0x42, 0x50]
  const LosslessTag: seq<byte> := [0x56, 0x50, 0x38, 0x4c]

  /**
   * writeWebPHeader for n bytes of data: the RIFF tag and file size 12 + n,
   * the WEBP form, the VP8L chunk tag and the chunk size n, both sizes
   * truncated to 32 bits.
   */
  function RiffHeader(n: nat): (bs: seq<byte>)
    ensures |bs| == 20
  {
    RiffTag + LE32((12 + n) % Uint32Range) + WebpTag + LosslessTag + LE32(n % Uint32Range)
  }

  /** What a reader takes from a RIFF file holding one VP8L chunk: the chunk's data. */
  function ParseRiff(file: seq<byte>): Option<seq<byte>> {
    if |file| < 20 then None
    else
      var header, body := file[..20], file[20..];
      var size := FromLE32(header[16..20]);
      if header[..4] != RiffTag || header[8..12] != WebpTag || header[12..16] != LosslessTag ||
         FromLE32(header[4..8]) != 12 + size || size > |body|
      then None
      else Some(body[..size])
  }

  /** A file framed by writeWebPHeader gives its data back, while the sizes fit in 32 bits. */
  lemma RiffRoundTrip(data: seq<byte>)
    requires 12 + |data| < Uint32Range
    ensures ParseRiff(RiffHeader(|data|) + data) == Some(data)
  {
    var n := |data|;
    var total, size := LE32(12 + n), LE32(n);
    assert RiffHeader(n) == RiffTag + total + WebpTag + LosslessTag + size by {
      assert (12 + n) % Uint32Range == 12 + n && n % Uint32Range == n;
    }
    LE32RoundTrip(12 + n, total);
    LE32RoundTrip(n, size);
    RiffRead(total, size, data);
  }

  /** A file that starts with the three tags and two consistent sizes parses to the data the inner size counts. */
  lemma RiffRead(total: seq<byte>, size: seq<byte>, data: seq<byte>)
    requires |total| == 4 && |size| == 4
    requires FromLE32(size) == |data| && FromLE32(total) == 12 + |data|
    ensures ParseRiff(RiffTag + total + WebpTag + LosslessTag + size + data) == Some(data)
  {
    var header := RiffTag + total + WebpTag + LosslessTag + size;
    assert RiffTag + total + WebpTag + LosslessTag + size + data == header + data;
    PrefixAndRest(header, data);
    Quads(RiffTag, total, WebpTag, LosslessTag, size);
  }

  // ---------------------------------------------------------------------
  // The transforms and the image data
  // ---------------------------------------------------------------------

  /**
   * What writeBitStreamData wrote: for a paletted image the palette transform
   * (its output, the palette's section and the packed image's section);
   * otherwise the predictor's tile entries, their section and the section of
   * the residuals.
   */
  datatype Plan =
    | Indexed(paletted: Paletted, paletteSec: Section, mainSec: Section)
    | Predicted(blocks: seq<Pixel>, blockSec: Section, mainSec: Section)

  /** The transform's section can be sent, and a palette has at least one colour. */
  ghost predicate TransformFramed(plan: Plan) {
    match plan
    case Indexed(out, ps, _) => Sendable(ps) && 1 <= |out.palette| <= MaxColors
    case Predicted(_, bs, _) => Sendable(bs)
  }

  /** Every section of a plan can be sent. */
  ghost predicate Framed(plan: Plan) {
    TransformFramed(plan) && Sendable(plan.mainSec)
  }

  /** The palette transform's fields: transform present, type 3, and the palette size - 1. */
  function PaletteHead(n: nat): (bs: seq<bool>)
    requires n >= 1
    ensures |bs| == 11
  {
    LsbBits(1, 1) + LsbBits(3, 2) + LsbBits(n - 1, 8)
  }

  /** Subtract green (type 2), then the predictor (type 0) and its tile bits - 2. */
  function PredictHead(): (bs: seq<bool>)
    ensures |bs| == 9
  {
    LsbBits(1, 1) + LsbBits(2, 2) + LsbBits(1, 1) + LsbBits(0, 2) + LsbBits(TileBits - 2, 3)
  }

  /** The palette transform: its fields, then the palette. */
  ghost function PaletteBits(out: Paletted, sec: Section): seq<bool>
    requires Sendable(sec) && |out.palette| >= 1
  {
    PaletteHead(|out.palette|) + SectionBits(sec, CacheBits, false)
  }

  /** The predictor's fields, then its tile entries. */
  ghost function PredictBits(sec: Section): seq<bool>
    requires Sendable(sec)
  {
    PredictHead() + SectionBits(sec, CacheBits, false)
  }

  /** The bits of a plan's transform. */
  ghost function TransformBits(plan: Plan): seq<bool>
    requires TransformFramed(plan)
  {
    match plan
    case Indexed(out, ps, _) => PaletteBits(out, ps)
    case Predicted(_, bs, _) => PredictBits(bs)
  }

  /** The transform bits of a plan, the end-of-transforms bit and the main image. */
  ghost function PlanBits(plan: Plan): seq<bool>
    requires Framed(plan)
  {
    TransformBits(plan) + LsbBits(0, 1) + SectionBits(plan.mainSec, CacheBits, true)
  }

  /** One predictor entry per tile, each naming one of the 14 predictors. */
  predicate ModesFit(blocks: seq<Pixel>, width: nat, height: nat) {
    |blocks| == TileCount(width) * TileCount(height) &&
    forall k :: 0 <= k < |blocks| ==> blocks[k].g < PredictorCount
  }

  /** The predictor's tile entries: one per tile, each the first mode of least cost. */
  predicate BlocksOk(cost: (nat, nat, nat) -> real, blocks: seq<Pixel>, width: nat, height: nat) {
    ModesFit(blocks, width, height) &&
    forall k :: 0 <= k < |blocks| ==> BlockOk(cost, blocks, TileCount(width), k)
  }

  /**
   * The transform the image's kind selects, applied to its pixels, with a
   * section that codes exactly the transform's own data (the palette or the
   * tile entries).
   */
  ghost predicate TransformOk(plan: Plan, pixels: seq<Pixel>, width: nat, height: nat, paletted: bool, cost: (nat, nat, nat) -> real)
    requires |pixels| == width * height
  {
    match plan
    case Indexed(out, ps, _) =>
      paletted && PalettedOk(pixels, width, height, out) && SectionOk(ps, out.palette, |out.palette|, CacheBits)
    case Predicted(blocks, bs, _) =>
      !paletted && BlocksOk(cost, blocks, width, height) && SectionOk(bs, blocks, TileCount(width), CacheBits)
  }

  /** The main image a transform leaves: the packed indexes, or the residuals of the green-subtracted pixels. */
  function MainImage(plan: Plan, pixels: seq<Pixel>, width: nat, height: nat): seq<Pixel>
    requires |pixels| == width * height && (plan.Predicted? ==> ModesFit(plan.blocks, width, height))
  {
    match plan
    case Indexed(out, _, _) => out.packed
    case Predicted(blocks, _, _) => Residuals(SubtractGreenImage(pixels), width, Modes(blocks, width, height))
  }

  /** The main image's width: the packed width, or the image width. */
  function MainWidth(plan: Plan, width: nat): nat {
    match plan
    case Indexed(out, _, _) => out.width
    case Predicted(_, _, _) => width
  }

  /** The plan encodes the image: its transform, and a main section that codes exactly the transform's output. */
  ghost predicate PlanOk(plan: Plan, pixels: seq<Pixel>, width: nat, height: nat, paletted: bool, cost: (nat, nat, nat) -> real)
    requires |pixels| == width * height
  {
    TransformOk(plan, pixels, width, height, paletted, cost) &&
    SectionOk(plan.mainSec, MainImage(plan, pixels, width, height), MainWidth(plan, width), CacheBits)
  }

  /** The palette of an image of at least one pixel has between 1 and 256 colours. */
  lemma PaletteSize(pixels: seq<Pixel>, width: nat, height: nat, out: Paletted)
    requires width >= 1 && height >= 1 && |pixels| == width * height && PalettedOk(pixels, width, height, out)
    ensures 1 <= |out.palette| <= MaxColors
  {
    MulAtLeast(width, height);
    DistinctColours(pixels);
    assert pixels[0] in Distinct(pixels);
  }

  /**
   * writeImageData for one section, its two panics read as failures: a
   * table whose header cannot be sent, or a code deeper than a single
   * write can carry.
   */
  method WriteSection(w: BitWriter, pixels: seq<Pixel>, width: nat, recursive: bool)
    returns (err: Option<Failure>, ghost sec: Section)
    requires w.Valid() && width >= 1
    modifies w
    ensures w.Valid()
    ensures err.None? ==> SectionOk(sec, pixels, width, CacheBits) && w.Stream() == old(w.Stream()) + SectionBits(sec, CacheBits, recursive)
    ensures err == Some(UnsendableTable) <==> Panicked(sec, pixels, width, CacheBits)
    ensures err == Some(CodeTooLong) <==> TooDeep(sec, pixels, width, CacheBits)
    ensures err.Some? ==> err.value in {UnsendableTable, CodeTooLong}
  {
    var outcome;
    outcome, sec := WriteImageData(w, pixels, width, CacheBits, recursive);
    err := if outcome == Written then None else Some(FailureOf(outcome));
  }

  /**
   * The start of the palette branch of writeBitStreamData: the transform
   * header, then applyPaletteTransform, then the palette size.
   */
  method WritePaletteHead(w: BitWriter, pixels: seq<Pixel>, width: nat, height: nat) returns (t: Option<Paletted>)
    requires w.Valid() && width >= 1 && height >= 1 && |pixels| == width * height
    modifies w
    ensures w.Valid()
    ensures t.None? <==> |Distinct(pixels)| > MaxColors
    ensures t.Some? ==> (PalettedOk(pixels, width, height, t.value) && 1 <= |t.value.palette| <= MaxColors &&
                         w.Stream() == old(w.Stream()) + PaletteHead(|t.value.palette|))
  {
    ghost var s0 := w.Stream();
    w.WriteBits(1, 1);
    ghost var s1 := w.Stream();
    w.WriteBits(3, 2);
    ghost var s2 := w.Stream();
    t := PaletteTransform(pixels, width, height);
    if t.Some? {
      var n := |t.value.palette|;
      PaletteSize(pixels, width, height, t.value);
      Pow2Fields();
      w.WriteBits(n - 1, 8);
      PaletteHeadAfter(s0, s1, s2, w.Stream(), n);
    }
  }

  /** Three writes in a row leave the palette transform's fields. */
  lemma PaletteHeadAfter(s0: seq<bool>, s1: seq<bool>, s2: seq<bool>, s3: seq<bool>, n: nat)
    requires n >= 1
    requires s1 == s0 + LsbBits(1, 1) && s2 == s1 + LsbBits(3, 2) && s3 == s2 + LsbBits(n - 1, 8)
    ensures s3 == s0 + PaletteHead(n)
  {
    AppendThree(s0, LsbBits(1, 1), LsbBits(3, 2), LsbBits(n - 1, 8));
  }

  /** The palette branch of writeBitStreamData: the head, then the palette's section. */
  method WritePaletteTransform(w: BitWriter, pixels: seq<Pixel>, width: nat, height: nat)
    returns (err: Option<Failure>, out: Paletted, ghost sec: Section)
    requires w.Valid() && width >= 1 && height >= 1 && |pixels| == width * height
    modifies w
    ensures w.Valid()
    ensures err == Some(TooManyColors) <==> |Distinct(pixels)| > MaxColors
    ensures err != Some(TooManyColors) ==> PalettedOk(pixels, width, height, out) && 1 <= |out.palette| <= MaxColors
    ensures err.None? ==> SectionOk(sec, out.palette, |out.palette|, CacheBits) && w.Stream() == old(w.Stream()) + PaletteBits(out, sec)
    ensures err == Some(UnsendableTable) <==> Panicked(sec, out.palette, |out.palette|, CacheBits)
    ensures err == Some(CodeTooLong) <==> TooDeep(sec, out.palette, |out.palette|, CacheBits)
    ensures err.Some? ==> err.value in {TooManyColors, UnsendableTable, CodeTooLong}
  {
    ghost var s0 := w.Stream();
    var t := WritePaletteHead(w, pixels, width, height);
    if t.None? {
      err, out, sec := Some(TooManyColors), Paletted([], [], 0), Section([], [], []);
    } else {
      out := t.value;
      err, sec := WriteSection(w, out.palette, |out.palette|, false);
      if err.None? {
        ConcatAssoc(s0, PaletteHead(|out.palette|), SectionBits(sec, CacheBits, false));
      }
    }
  }

  /**
   * The start of the other branch: subtract green and the predictor, both
   * in place on a copy of the pixels, each after its transform header, then
   * the predictor's tile bits. Returns the residuals that make up the main
   * image, and the predictor's tile entries with their width.
   */
  method WritePredictHead(w: BitWriter, pixels: seq<Pixel>, width: nat, height: nat, cost: (nat, nat, nat) -> real)
    returns (residuals: seq<Pixel>, blocks: seq<Pixel>, bw: nat)
    requires w.Valid() && |pixels| == width * height
    modifies w
    ensures w.Valid()
    ensures BlocksOk(cost, blocks, width, height) && bw == TileCount(width)
    ensures residuals == Residuals(SubtractGreenImage(pixels), width, Modes(blocks, width, height))
    ensures w.Stream() == old(w.Stream()) + PredictHead()
  {
    Pow2Fields();
    ghost var s0 := w.Stream();
    w.WriteBits(1, 1);
    ghost var s1 := w.Stream();
    w.WriteBits(2, 2);
    ghost var s2 := w.Stream();
    var a := CopyPixels(pixels);
    SubtractGreen(a);
    ghost var green := a[..];
    w.WriteBits(1, 1);
    ghost var s3 := w.Stream();
    w.WriteBits(0, 2);
    ghost var s4 := w.Stream();
    assert green == SubtractGreenImage(pixels) == a[..];
    var tileBits, bh;
    tileBits, bw, bh, blocks := PredictTransform(a, width, height, cost);
    residuals := a[..];
    w.WriteBits(tileBits - 2, 3);
    PredictHeadAfter(s0, s1, s2, s3, s4, w.Stream());
  }

  /** A fresh array holding the pixels, for the transforms that work in place. */
  method CopyPixels(pixels: seq<Pixel>) returns (a: array<Pixel>)
    ensures fresh(a) && a[..] == pixels
  {
    a := new Pixel[|pixels|](i requires 0 <= i < |pixels| => pixels[i]);
  }

  /** Five writes in a row leave the two transforms' fields. */
  lemma PredictHeadAfter(s0: seq<bool>, s1: seq<bool>, s2: seq<bool>, s3: seq<bool>, s4: seq<bool>, s5: seq<bool>)
    requires s1 == s0 + LsbBits(1, 1) && s2 == s1 + LsbBits(2, 2) && s3 == s2 + LsbBits(1, 1)
    requires s4 == s3 + LsbBits(0, 2) && s5 == s4 + LsbBits(TileBits - 2, 3)
    ensures s5 == s0 + PredictHead()
  {
    AppendFive(s0, LsbBits(1, 1), LsbBits(2, 2), LsbBits(1, 1), LsbBits(0, 2), LsbBits(TileBits - 2, 3));
  }

  /** The other branch of writeBitStreamData: the head, then the tile entries' section. */
  method WritePredictTransforms(w: BitWriter, pixels: seq<Pixel>, width: nat, height: nat, cost: (nat, nat, nat) -> real)
    returns (err: Option<Failure>, residuals: seq<Pixel>, blocks: seq<Pixel>, ghost sec: Section)
    requires w.Valid() && width >= 1 && height >= 1 && |pixels| == width * height
    modifies w
    ensures w.Valid()
    ensures BlocksOk(cost, blocks, width, height)
    ensures residuals == Residuals(SubtractGreenImage(pixels), width, Modes(blocks, width, height))
    ensures err.None? ==> SectionOk(sec, blocks, TileCount(width), CacheBits) && w.Stream() == old(w.Stream()) + PredictBits(sec)
    ensures err == Some(UnsendableTable) <==> Panicked(sec, blocks, TileCount(width), CacheBits)
    ensures err == Some(CodeTooLong) <==> TooDeep(sec, blocks, TileCount(width), CacheBits)
    ensures err.Some? ==> err.value in {UnsendableTable, CodeTooLong}
  {
    ghost var s0 := w.Stream();
    var bw;
    residuals, blocks, bw := WritePredictHead(w, pixels, width, height, cost);
    assert bw >= 1;
    err, sec := WriteSection(w, blocks, bw, false);
    if err.None? {
      ConcatAssoc(s0, PredictHead(), SectionBits(sec, CacheBits, false));
    }
  }

  /**
   * The transforms of writeBitStreamData that Encode selects: the palette
   * transform for a paletted image, otherwise subtract green and the
   * predictor. The plan's main section is left empty; the main image and
   * its width are returned.
   */
  method WriteTransforms(w: BitWriter, pixels: seq<Pixel>, width: nat, height: nat, paletted: bool, cost: (nat, nat, nat) -> real)
    returns (err: Option<Failure>, ghost plan: Plan, main: seq<Pixel>, mainWidth: nat)
    requires w.Valid() && width >= 1 && height >= 1 && |pixels| == width * height
    modifies w
    ensures w.Valid()
    ensures err.None? ==> (TransformOk(plan, pixels, width, height, paletted, cost) && TransformFramed(plan) &&
                           main == MainImage(plan, pixels, width, height) && mainWidth == MainWidth(plan, width) &&
                           mainWidth >= 1 && w.Stream() == old(w.Stream()) + TransformBits(plan))
    ensures err == Some(TooManyColors) <==> paletted && |Distinct(pixels)| > MaxColors
    ensures err != Some(TooManyColors) ==> TransformChosen(plan, pixels, width, height, paletted, cost)
    ensures err == Some(UnsendableTable) <==> Panicked(Failing(plan), TransformImage(plan), TransformWidth(plan, width), CacheBits)
    ensures err == Some(CodeTooLong) <==> TooDeep(Failing(plan), TransformImage(plan), TransformWidth(plan, width), CacheBits)
    ensures err.Some? ==> err.value in {TooManyColors, UnsendableTable, CodeTooLong}
  {
    ghost var before := w.Stream();
    if paletted {
      var out;
      ghost var sec;
      err, out, sec := WritePaletteTransform(w, pixels, width, height);
      plan := Indexed(out, sec, Section([], [], []));
      main, mainWidth := out.packed, out.width;
      if err.None? {
        IndexedPlan(plan, pixels, width, height, cost);
      }
    } else {
      var blocks;
      ghost var sec;
      err, main, blocks, sec := WritePredictTransforms(w, pixels, width, height, cost);
      plan := Predicted(blocks, sec, Section([], [], []));
      mainWidth := width;
      if err.None? {
        PredictedPlan(plan, pixels, width, height, cost);
      }
    }
  }

  /** What the palette branch leaves, read as a plan. */
  lemma IndexedPlan(plan: Plan, pixels: seq<Pixel>, width: nat, height: nat, cost: (nat, nat, nat) -> real)
    requires plan.Indexed? && width >= 1 && |pixels| == width * height
    requires PalettedOk(pixels, width, height, plan.paletted) && 1 <= |plan.paletted.palette| <= MaxColors
    requires SectionOk(plan.paletteSec, plan.paletted.palette, |plan.paletted.palette|, CacheBits)
    ensures TransformOk(plan, pixels, width, height, true, cost) && TransformFramed(plan)
    ensures MainImage(plan, pixels, width, height) == plan.paletted.packed
    ensures MainWidth(plan, width) == plan.paletted.width >= 1
    ensures TransformBits(plan) == PaletteBits(plan.paletted, plan.paletteSec)
  {
    PackedWidthPositive(width, PackSize(|Distinct(pixels)|));
  }

  /** A packed row of a non-empty row is not empty. */
  lemma PackedWidthPositive(width: nat, size: nat)
    requires width >= 1 && size > 0
    ensures PackedWidth(width, size) >= 1
  {
  }

  /** What the predictor branch leaves, read as a plan. */
  lemma PredictedPlan(plan: Plan, pixels: seq<Pixel>, width: nat, height: nat, cost: (nat, nat, nat) -> real)
    requires plan.Predicted? && |pixels| == width * height
    requires BlocksOk(cost, plan.blocks, width, height)
    requires SectionOk(plan.blockSec, plan.blocks, TileCount(width), CacheBits)
    ensures TransformOk(plan, pixels, width, height, false, cost) && TransformFramed(plan)
    ensures MainImage(plan, pixels, width, height) == Residuals(SubtractGreenImage(pixels), width, Modes(plan.blocks, width, height))
    ensures MainWidth(plan, width) == width
    ensures TransformBits(plan) == PredictBits(plan.blockSec)
  {
  }

  /** The section a plan's transform was writing. */
  function Failing(plan: Plan): Section {
    match plan
    case Indexed(_, ps, _) => ps
    case Predicted(_, bs, _) => bs
  }

  /** The image the transform's section codes: the palette, or the tile entries. */
  function TransformImage(plan: Plan): seq<Pixel> {
    match plan
    case Indexed(out, _, _) => out.palette
    case Predicted(blocks, _, _) => blocks
  }

  /** That image's width: the palette's size, or the number of tiles across. */
  function TransformWidth(plan: Plan, width: nat): nat {
    match plan
    case Indexed(out, _, _) => |out.palette|
    case Predicted(_, _, _) => TileCount(width)
  }

  /**
   * The transform the image selects, whatever became of its section: the
   * palette and packed indexes of a paletted image, or the tile modes.
   */
  ghost predicate TransformChosen(plan: Plan, pixels: seq<Pixel>, width: nat, height: nat, paletted: bool, cost: (nat, nat, nat) -> real)
    requires |pixels| == width * height
  {
    match plan
    case Indexed(out, _, _) => paletted && PalettedOk(pixels, width, height, out) && 1 <= |out.palette| <= MaxColors
    case Predicted(blocks, _, _) => !paletted && BlocksOk(cost, blocks, width, height)
  }

  /**
   * Where a run that failed on a table stopped: in the transform's section,
   * which then was to code the transform's image; or, the transform sent,
   * in the main section, which then was to code the main image.
   */
  ghost predicate StoppedIn(plan: Plan, failed: Section, image: seq<Pixel>, imageWidth: nat,
                            pixels: seq<Pixel>, width: nat, height: nat, paletted: bool, cost: (nat, nat, nat) -> real)
    requires |pixels| == width * height
  {
    TransformChosen(plan, pixels, width, height, paletted, cost) &&
    ((failed == Failing(plan) && image == TransformImage(plan) && imageWidth == TransformWidth(plan, width)) ||
     (TransformOk(plan, pixels, width, height, paletted, cost) && TransformFramed(plan) && failed == plan.mainSec &&
      image == MainImage(plan, pixels, width, height) && imageWidth == MainWidth(plan, width)))
  }

  /**
   * writeBitStreamData with the transforms Encode selects, then the
   * end-of-transforms bit and the main image.
   */
  method WriteBitStreamData(w: BitWriter, pixels: seq<Pixel>, width: nat, height: nat, paletted: bool, cost: (nat, nat, nat) -> real)
    returns (err: Option<Failure>, ghost plan: Plan, ghost failed: Section, ghost image: seq<Pixel>, ghost imageWidth: nat)
    requires w.Valid() && width >= 1 && height >= 1 && |pixels| == width * height
    modifies w
    ensures w.Valid()
    ensures err.None? ==> (PlanOk(plan, pixels, width, height, paletted, cost) && Framed(plan) &&
                           w.Stream() == old(w.Stream()) + PlanBits(plan))
    ensures err == Some(TooManyColors) <==> paletted && |Distinct(pixels)| > MaxColors
    ensures err.None? ==> failed == plan.mainSec
    ensures err == Some(UnsendableTable) <==> Panicked(failed, image, imageWidth, CacheBits)
    ensures err == Some(CodeTooLong) <==> TooDeep(failed, image, imageWidth, CacheBits)
    ensures err.Some? && err.value != TooManyColors ==>
      StoppedIn(plan, failed, image, imageWidth, pixels, width, height, paletted, cost)
    ensures err.Some? ==> err.value in {TooManyColors, UnsendableTable, CodeTooLong}
  {
    ghost var before := w.Stream();
    var main, mainWidth;
    err, plan, main, mainWidth := WriteTransforms(w, pixels, width, height, paletted, cost);
    failed, image, imageWidth := Failing(plan), TransformImage(plan), TransformWidth(plan, width);
    if err.Some? {
      return;
    }
    ghost var transforms := w.Stream();
    w.WriteBits(0, 1);
    var outcome, sec := WriteImageData(w, main, mainWidth, CacheBits, true);
    ghost var sent := plan;
    plan := plan.(mainSec := sec);
    failed, image, imageWidth := sec, main, mainWidth;
    MainSectionKept(sent, sec, pixels, width, height, paletted, cost);
    if outcome != Written {
      return Some(FailureOf(outcome)), plan, failed, image, imageWidth;
    }
    MainSectionOk(sent, sec, pixels, width, height, paletted, cost);
    AppendThree(before, TransformBits(plan), LsbBits(0, 1), SectionBits(sec, CacheBits, true));
  }

  /** Replacing a plan's main section keeps its transform, its transform section and the main image. */
  lemma MainSectionKept(plan: Plan, sec: Section, pixels: seq<Pixel>, width: nat, height: nat, paletted: bool, cost: (nat, nat, nat) -> real)
    requires |pixels| == width * height && TransformOk(plan, pixels, width, height, paletted, cost) && TransformFramed(plan)
    requires TransformChosen(plan, pixels, width, height, paletted, cost)
    ensures var p := plan.(mainSec := sec);
      TransformOk(p, pixels, width, height, paletted, cost) && TransformFramed(p) &&
      TransformChosen(p, pixels, width, height, paletted, cost) && p.mainSec == sec &&
      MainImage(p, pixels, width, height) == MainImage(plan, pixels, width, height) && MainWidth(p, width) == MainWidth(plan, width)
  {
  }

  /** Replacing a plan's main section keeps its transform and its transform bits. */
  lemma MainSectionOk(plan: Plan, sec: Section, pixels: seq<Pixel>, width: nat, height: nat, paletted: bool, cost: (nat, nat, nat) -> real)
    requires |pixels| == width * height && TransformOk(plan, pixels, width, height, paletted, cost) && TransformFramed(plan)
    requires SectionOk(sec, MainImage(plan, pixels, width, height), MainWidth(plan, width), CacheBits)
    ensures var p := plan.(mainSec := sec);
      PlanOk(p, pixels, width, height, paletted, cost) && Framed(p) && TransformBits(p) == TransformBits(plan)
  {
  }

  // ---------------------------------------------------------------------
  // The decoder's side
  // ---------------------------------------------------------------------

  /**
   * The pixels a decoder rebuilds from a plan's sections: for the palette
   * transform, every pixel looked up through the packed indexes in the
   * un-delta-coded palette; otherwise the residuals un-predicted under the
   * tile modes, with green added back.
   */
  ghost function Decoded(plan: Plan, width: nat, height: nat): Option<seq<Pixel>> {
    match plan
    case Indexed(out, ps, ms) => DecodeIndexed(ps.groups, ms.groups, |out.palette|, width, height)
    case Predicted(_, bs, ms) => DecodePredicted(bs.groups, ms.groups, width, height)
  }

  /**
   * The palette transform undone: the palette of n colours and the packed
   * image, whose width follows from the image width and n, are expanded;
   * every pixel is its packed index looked up in the un-delta-coded palette.
   */
  ghost function DecodeIndexed(palette: seq<Group>, packed: seq<Group>, n: nat, width: nat, height: nat): Option<seq<Pixel>> {
    var pw := PackedWidth(width, PackSize(n));
    var pal := Expand(palette, n, CacheBits);
    var idx := Expand(packed, pw, CacheBits);
    if pal.None? || idx.None? then None
    else
      UnpackAll(Paletted(pal.value.out, idx.value.out, pw), width, width * height)
  }

  /** The first n pixels of a palette-transformed image, or None if one of them cannot be unpacked. */
  function UnpackAll(img: Paletted, width: nat, n: nat): Option<seq<Pixel>> {
    if n == 0 then Some([])
    else
      match UnpackAll(img, width, n - 1)
      case None => None
      case Some(prev) =>
        match Unpack(img, width, n - 1)
        case None => None
        case Some(p) => Some(prev + [p])
  }

  /** Unpacking every pixel gives the image when each pixel unpacks to itself. */
  lemma {:induction false} UnpackAllOf(img: Paletted, width: nat, pixels: seq<Pixel>, n: nat)
    requires n <= |pixels| && forall i :: 0 <= i < n ==> Unpack(img, width, i) == Some(pixels[i])
    ensures UnpackAll(img, width, n) == Some(pixels[..n])
  {
    if n > 0 {
      UnpackAllOf(img, width, pixels, n - 1);
      var last := Unpack(img, width, n - 1);
      assert last == Some(pixels[n - 1]);
      assert UnpackAll(img, width, n) == Some(pixels[..n - 1] + [pixels[n - 1]]);
      assert pixels[..n] == pixels[..n - 1] + [pixels[n - 1]];
    }
  }

  /**
   * Subtract green and the predictor undone: the tile entries and the
   * residuals are expanded, the residuals un-predicted under the tiles'
   * modes, and green added back.
   */
  ghost function DecodePredicted(blocks: seq<Group>, residuals: seq<Group>, width: nat, height: nat): Option<seq<Pixel>> {
    var entries := Expand(blocks, TileCount(width), CacheBits);
    var res := Expand(residuals, width, CacheBits);
    if entries.None? || res.None? then None
    else
      var es, rs := entries.value.out, res.value.out;
      if |rs| != width * height || |es| != TileCount(width) * TileCount(height) ||
         !(forall k :: 0 <= k < |es| ==> es[k].g < PredictorCount)
      then None
      else Some(AddGreenImage(Unpredict(rs, width, Modes(es, width, height), width * height)))
  }

  /** The encoding is lossless: a plan that encodes an image decodes to its pixels. */
  lemma Lossless(plan: Plan, pixels: seq<Pixel>, width: nat, height: nat, paletted: bool, cost: (nat, nat, nat) -> real)
    requires |pixels| == width * height && PlanOk(plan, pixels, width, height, paletted, cost)
    ensures Decoded(plan, width, height) == Some(pixels)
  {
    match plan
    case Indexed(out, ps, ms) =>
      IndexedLossless(pixels, width, height, out, ps, ms);
    case Predicted(blocks, bs, ms) =>
      PredictedLossless(pixels, width, height, cost, blocks, bs, ms);
  }

  /** The palette branch of Lossless. */
  lemma IndexedLossless(pixels: seq<Pixel>, width: nat, height: nat, out: Paletted, ps: Section, ms: Section)
    requires |pixels| == width * height && PalettedOk(pixels, width, height, out)
    requires SectionOk(ps, out.palette, |out.palette|, CacheBits) && SectionOk(ms, out.packed, out.width, CacheBits)
    ensures DecodeIndexed(ps.groups, ms.groups, |out.palette|, width, height) == Some(pixels)
  {
    DistinctColours(pixels);
    assert out.width == PackedWidth(width, PackSize(|out.palette|));
    forall i | 0 <= i < |pixels|
      ensures Unpack(out, width, i) == Some(pixels[i])
    {
      PaletteRoundTrip(pixels, width, height, out, i);
    }
    UnpackAllOf(out, width, pixels, |pixels|);
    assert pixels[..|pixels|] == pixels;
  }

  /** The predictor branch of Lossless. */
  lemma PredictedLossless(pixels: seq<Pixel>, width: nat, height: nat, cost: (nat, nat, nat) -> real,
                          blocks: seq<Pixel>, bs: Section, ms: Section)
    requires |pixels| == width * height && BlocksOk(cost, blocks, width, height)
    requires SectionOk(bs, blocks, TileCount(width), CacheBits)
    requires SectionOk(ms, Residuals(SubtractGreenImage(pixels), width, Modes(blocks, width, height)), width, CacheBits)
    ensures DecodePredicted(bs.groups, ms.groups, width, height) == Some(pixels)
  {
    var p := SubtractGreenImage(pixels);
    var modes := Modes(blocks, width, height);
    UnpredictRoundTrip(p, width, modes);
    GreenImageRoundTrip(pixels);
  }

  // ---------------------------------------------------------------------
  // Encode
  // ---------------------------------------------------------------------

  /** The bit stream Encode writes for an image before padding. */
  ghost function StreamBits(img: Image, plan: Plan): (bs: seq<bool>)
    requires 1 <= img.dx && 1 <= img.dy && Framed(plan)
  {
    HeaderBits(img.dx, img.dy, !Opaque(img.pixels)) + PlanBits(plan)
  }

  /** The padded stream, an even number of bytes that end in fewer than 16 zero bits of padding. */
  ghost predicate PaddedStream(data: seq<byte>, bs: seq<bool>) {
    |data| % 2 == 0 && |bs| <= 8 * |data| < |bs| + 16 &&
    BytesToBits(data) == bs + Zeros(8 * |data| - |bs|)
  }

  /** Bytes that hold a stream and fewer than 8 zero bits, padded to an even length, are a padded stream. */
  lemma EvenPadding(bytes: seq<byte>, bs: seq<bool>, k: nat)
    requires k < 8 && BytesToBits(bytes) == bs + Zeros(k)
    ensures PaddedStream(if |bytes| % 2 != 0 then bytes + [0] else bytes, bs)
  {
    assert 8 * |bytes| == |bs| + k;
    if |bytes| % 2 != 0 {
      var padded := bytes + [0];
      BytesToBitsAppend(bytes, 0);
      LsbBitsOfZero(8);
      ConcatAssoc(bs, Zeros(k), Zeros(8));
      ZerosAdd(k, 8);
      assert BytesToBits(padded) == bs + Zeros(k + 8);
      assert 8 * |padded| - |bs| == k + 8;
      DivModUnique(|padded|, 2, |bytes| / 2 + 1, 0);
    } else {
      assert 8 * |bytes| - |bs| == k;
    }
  }

  /**
   * Encode: rejects a nil or empty image and, since the 14-bit header
   * fields make the source panic beyond them, a dimension over 16384;
   * the rest is EncodeImage. The ghost results are the plan written, the
   * last section the run wrote (the one it stopped in, if it stopped), and
   * the data inside the RIFF frame. It stops with UnsendableTable exactly
   * where the source panics on a header, and with CodeTooLong exactly where
   * every header is sent but a code is deeper than a single write.
   */
  method Encode(img: Option<Image>, cost: (nat, nat, nat) -> real)
    returns (r: EncodeResult, ghost plan: Plan, ghost failed: Section, ghost image: seq<Pixel>, ghost imageWidth: nat, ghost data: seq<byte>)
    requires img.Some? ==> Drawn(img.value)
    ensures r == Failed(NilImage) <==> img.None?
    ensures r == Failed(InvalidSize) <==> img.Some? && (img.value.dx < 1 || img.value.dy < 1)
    ensures r == Failed(SizeTooLarge) <==> (img.Some? && 1 <= img.value.dx && 1 <= img.value.dy &&
                                            (img.value.dx > MaxDimension || img.value.dy > MaxDimension))
    ensures r == Failed(TooManyColors) <==> (img.Some? && Encodable(img.value) && img.value.paletted &&
                                             |Distinct(img.value.pixels)| > MaxColors)
    ensures r == Failed(UnsendableTable) <==> (img.Some? && Encodable(img.value) &&
                                               !(img.value.paletted && |Distinct(img.value.pixels)| > MaxColors) &&
                                               Panicked(failed, image, imageWidth, CacheBits))
    ensures r == Failed(CodeTooLong) <==> (img.Some? && Encodable(img.value) &&
                                           !(img.value.paletted && |Distinct(img.value.pixels)| > MaxColors) &&
                                           TooDeep(failed, image, imageWidth, CacheBits))
    ensures r.Failed? && r.failure in {UnsendableTable, CodeTooLong} ==>
      img.Some? && Encodable(img.value) &&
      StoppedIn(plan, failed, image, imageWidth, img.value.pixels, img.value.dx, img.value.dy, img.value.paletted, cost)
    ensures r.Encoded? ==> img.Some? && Encodable(img.value) && EncodedAs(img.value, cost, r.file, plan, data)
  {
    failed := Section([], [], []);
    plan := Predicted([], failed, failed);
    image, imageWidth := [], 0;
    data := [];
    if img.None? {
      return Failed(NilImage), plan, failed, image, imageWidth, data;
    }
    var im := img.value;
    if im.dx < 1 || im.dy < 1 {
      return Failed(InvalidSize), plan, failed, image, imageWidth, data;
    }
    if im.dx > MaxDimension || im.dy > MaxDimension {
      return Failed(SizeTooLarge), plan, failed, image, imageWidth, data;
    }
    r, plan, failed, image, imageWidth, data := EncodeImage(im, cost);
  }

  /** An image within the header's limits, with one pixel per position. */
  predicate Encodable(img: Image) {
    1 <= img.dx <= MaxDimension && 1 <= img.dy <= MaxDimension && |img.pixels| == img.dx * img.dy
  }

  /**
   * The file encodes the image: the plan encodes its pixels, and the file is
   * the RIFF frame around the header and the plan's bits, padded.
   */
  ghost predicate EncodedAs(img: Image, cost: (nat, nat, nat) -> real, file: seq<byte>, plan: Plan, data: seq<byte>)
    requires Encodable(img)
  {
    PlanOk(plan, img.pixels, img.dx, img.dy, img.paletted, cost) && Framed(plan) &&
    file == RiffHeader(|data|) + data && PaddedStream(data, StreamBits(img, plan))
  }

  /**
   * The body of Encode for an image it accepts: the header, the transforms
   * and the image data, alignment to a byte, padding to an even length and
   * the RIFF frame.
   */
  method EncodeImage(im: Image, cost: (nat, nat, nat) -> real)
    returns (r: EncodeResult, ghost plan: Plan, ghost failed: Section, ghost image: seq<Pixel>, ghost imageWidth: nat, ghost data: seq<byte>)
    requires Encodable(im)
    ensures r.Failed? ==> r.failure in {TooManyColors, UnsendableTable, CodeTooLong}
    ensures r == Failed(TooManyColors) <==> im.paletted && |Distinct(im.pixels)| > MaxColors
    ensures r == Failed(UnsendableTable) <==> !(im.paletted && |Distinct(im.pixels)| > MaxColors) && Panicked(failed, image, imageWidth, CacheBits)
    ensures r == Failed(CodeTooLong) <==> !(im.paletted && |Distinct(im.pixels)| > MaxColors) && TooDeep(failed, image, imageWidth, CacheBits)
    ensures r.Failed? && r.failure in {UnsendableTable, CodeTooLong} ==>
      StoppedIn(plan, failed, image, imageWidth, im.pixels, im.dx, im.dy, im.paletted, cost)
    ensures r.Encoded? ==> failed == plan.mainSec && EncodedAs(im, cost, r.file, plan, data)
  {
    data := [];
    var w := new BitWriter();
    WriteBitStreamHeader(w, im.dx, im.dy, !Opaque(im.pixels));
    assert w.Stream() == HeaderBits(im.dx, im.dy, !Opaque(im.pixels));
    var err;
    err, plan, failed, image, imageWidth := WriteBitStreamData(w, im.pixels, im.dx, im.dy, im.paletted, cost);
    if err.Some? {
      return Failed(err.value), plan, failed, image, imageWidth, data;
    }
    assert w.Stream() == StreamBits(im, plan);
    var bytes := FinishStream(w, StreamBits(im, plan));
    data := bytes;
    r := Encoded(RiffHeader(|bytes|) + bytes);
  }

  /**
   * The end of Encode: the last bits flushed to a whole byte, and one zero
   * byte more when the byte count is odd, as the RIFF chunk requires.
   */
  method FinishStream(w: BitWriter, ghost bs: seq<bool>) returns (data: seq<byte>)
    requires w.Valid() && w.Stream() == bs
    modifies w
    ensures PaddedStream(data, bs)
  {
    ghost var k := (8 - w.bitBufferSize) % 8;
    w.AlignByte();
    data := w.buffer;
    assert BytesToBits(data) == w.Stream() == bs + Zeros(k);
    EvenPadding(data, bs, k);
    if |data| % 2 != 0 {
      data := data + [0];
    }
  }

  /**
   * An encoded file, end to end: the RIFF frame gives the data back, the
   * data starts with the header of the image's dimensions and alpha hint,
   * and the sections decode to the image's pixels.
   */
  lemma EncodedFileDecodes(img: Image, cost: (nat, nat, nat) -> real, file: seq<byte>, plan: Plan, data: seq<byte>)
    requires Encodable(img) && EncodedAs(img, cost, file, plan, data) && 12 + |data| < Uint32Range
    ensures ParseRiff(file) == Some(data)
    ensures ParseHeader(BytesToBits(data)) == Some((img.dx, img.dy, !Opaque(img.pixels)))
    ensures Decoded(plan, img.dx, img.dy) == Some(img.pixels)
  {
    RiffRoundTrip(data);
    PaddedHeader(img, plan, data);
    Lossless(plan, img.pixels, img.dx, img.dy, img.paletted, cost);
  }

  /** The padded stream of an image starts with the image's header. */
  lemma PaddedHeader(img: Image, plan: Plan, data: seq<byte>)
    requires Encodable(img) && Framed(plan) && PaddedStream(data, StreamBits(img, plan))
    ensures ParseHeader(BytesToBits(data)) == Some((img.dx, img.dy, !Opaque(img.pixels)))
  {
    var bs := StreamBits(img, plan);
    var header := HeaderBits(img.dx, img.dy, !Opaque(img.pixels));
    ConcatAssoc(header, PlanBits(plan), Zeros(8 * |data| - |bs|));
    BitStreamHeaderRoundTrip(img.dx, img.dy, !Opaque(img.pixels), PlanBits(plan) + Zeros(8 * |data| - |bs|));
  }
}

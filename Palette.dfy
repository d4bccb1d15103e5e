/**
 * The colour-indexing (palette) transform of transform.go. The distinct
 * colours of the image, in order of first appearance, form the palette (at
 * most 256 of them). Every pixel is replaced by its palette index, and 8, 4,
 * 2 or 1 indexes (by palette size) are packed into the green channel of one
 * output pixel, the first index in the lowest bits. The palette itself is
 * then delta-coded, each entry minus the one before it. The partners are the
 * decoder's digit extraction and its prefix sum over the palette.
 */
module Palette {
  import opened WebPTypes
  import opened Bits
  import opened Pixels
  import opened Tiles

  const MaxColors: nat := 256

  /** The distinct colours of s in order of first appearance. */
  function Distinct(s: seq<Pixel>): seq<Pixel> {
    if |s| == 0 then []
    else
      var d := Distinct(s[..|s| - 1]);
      if s[|s| - 1] in d then d else d + [s[|s| - 1]]
  }

  predicate NoDuplicates(s: seq<Pixel>) {
    forall i, j :: 0 <= i < j < |s| ==> s[i] != s[j]
  }

  /** The palette lists every colour of the image, each once, and nothing else. */
  lemma {:induction false} DistinctColours(s: seq<Pixel>)
    ensures NoDuplicates(Distinct(s))
    ensures forall p :: p in Distinct(s) <==> p in s
  {
    if |s| > 0 {
      var init := s[..|s| - 1];
      DistinctColours(init);
      assert s == init + [s[|s| - 1]];
    }
  }

  /** The palette of a prefix is no longer than the palette of the whole. */
  lemma {:induction false} DistinctGrows(s: seq<Pixel>, n: nat)
    requires n <= |s|
    ensures |Distinct(s[..n])| <= |Distinct(s)|
  {
    if n < |s| {
      DistinctGrows(s[..|s| - 1], n);
      assert s[..|s| - 1][..n] == s[..n];
    } else {
      assert s[..n] == s;
    }
  }

  /**
   * The palette scan: a colour not yet listed is appended, and the scan
   * fails as soon as the palette holds more than 256 colours.
   */
  method CollectPalette(pixels: seq<Pixel>) returns (r: Option<seq<Pixel>>)
    ensures r.None? <==> |Distinct(pixels)| > MaxColors
    ensures r.Some? ==> r.value == Distinct(pixels)
  {
    var pal: seq<Pixel> := [];
    for i := 0 to |pixels|
      invariant pal == Distinct(pixels[..i]) && |pal| <= MaxColors
    {
      assert pixels[..i + 1][..i] == pixels[..i];
      if pixels[i] !in pal {
        pal := pal + [pixels[i]];
      }
      if |pal| > MaxColors {
        DistinctGrows(pixels, i + 1);
        return None;
      }
    }
    assert pixels[..|pixels|] == pixels;
    return Some(pal);
  }

  /** slices.Index: the first position of p in pal. */
  function IndexOf(pal: seq<Pixel>, p: Pixel): (k: nat)
    requires p in pal
    ensures k < |pal| && pal[k] == p
    ensures forall j :: 0 <= j < k ==> pal[j] != p
  {
    if pal[0] == p then 0 else 1 + IndexOf(pal[1..], p)
  }

  /** How many indexes share one output pixel: 8, 4, 2 or 1 for palettes of up to 2, 4, 16 or more colours. */
  function PackSize(n: nat): (size: nat)
    ensures size in {1, 2, 4, 8}
  {
    if n <= 2 then 8 else if n <= 4 then 4 else if n <= 16 then 2 else 1
  }

  /** The bits of one index: 8 / size. */
  function IndexBits(n: nat): (bits: nat)
    ensures bits in {1, 2, 4, 8}
  {
    8 / PackSize(n)
  }

  /** Every index of a palette of at most 256 colours fits in its field. */
  lemma IndexFits(n: nat, k: nat)
    requires n <= MaxColors && k < n
    ensures k < Pow2(IndexBits(n))
  {
    assert Pow2(1) == 2 && Pow2(2) == 4 && Pow2(4) == 16;
    Pow2Byte();
  }

  /** The width of the packed image: (width + size - 1) / size, the fewest pixels that hold width indexes. */
  function PackedWidth(width: nat, size: nat): (pw: nat)
    requires size > 0
    ensures width <= pw * size
    ensures pw > 0 ==> (pw - 1) * size < width
  {
    var pw := (width + size - 1) / size;
    assert width + size - 1 == pw * size + (width + size - 1) % size;
    assert (pw - 1) * size == pw * size - size;
    pw
  }

  /** Indexes packed least significant first, bits bits each. */
  function Pack(ds: seq<nat>, bits: nat): nat {
    if |ds| == 0 then 0 else ds[0] + Pow2(bits) * Pack(ds[1..], bits)
  }

  /** The decoder's extraction of field i of v: (v >> (i * bits)) & (2^bits - 1). */
  function Digit(v: nat, i: nat, bits: nat): nat {
    if i == 0 then v % Pow2(bits) else Digit(Quot(v, Pow2(bits)), i - 1, bits)
  }

  lemma Spread(p: nat, q: nat, r: nat, d: nat)
    ensures p * (r + d * q) == p * r + d * (p * q)
  {
    assert p * (r + d * q) == p * r + p * (d * q);
  }

  /** Adding one more index at the top is what one step of the packing loop does. */
  lemma {:induction false} PackSnoc(ds: seq<nat>, d: nat, bits: nat)
    ensures Pack(ds + [d], bits) == Pack(ds, bits) + Shl(d, |ds| * bits)
  {
    if |ds| > 0 {
      assert (ds + [d])[1..] == ds[1..] + [d];
      PackSnoc(ds[1..], d, bits);
      Pow2Add(bits, (|ds| - 1) * bits);
      assert bits + bits * (|ds| - 1) == |ds| * bits;
      var p, q, r := Pow2(bits), Pow2((|ds| - 1) * bits), Pack(ds[1..], bits);
      Spread(p, q, r, d);
      assert Pack(ds + [d], bits) == ds[0] + p * (r + d * q);
    }
  }

  predicate Fits(ds: seq<nat>, bits: nat) {
    forall j :: 0 <= j < |ds| ==> ds[j] < Pow2(bits)
  }

  /** Field i of the packed value is the i-th index. */
  lemma {:induction false} DigitPack(ds: seq<nat>, bits: nat, i: nat)
    requires Fits(ds, bits) && i < |ds|
    ensures Digit(Pack(ds, bits), i, bits) == ds[i]
  {
    var v, p, rest := Pack(ds, bits), Pow2(bits), Pack(ds[1..], bits);
    assert ds[0] < p;
    assert v == rest * p + ds[0];
    DivModUnique(v, p, rest, ds[0]);
    if i > 0 {
      var tail := ds[1..];
      assert Fits(tail, bits) by {
        forall j | 0 <= j < |tail|
          ensures tail[j] < p
        {
          assert tail[j] == ds[j + 1];
        }
      }
      DigitPack(tail, bits, i - 1);
      assert Digit(v, i, bits) == Digit(rest, i - 1, bits);
    }
  }

  /** n fields of bits bits stay below 2^(bits * n). */
  lemma {:induction false} PackBound(ds: seq<nat>, bits: nat)
    requires Fits(ds, bits)
    ensures Pack(ds, bits) < Pow2(bits * |ds|)
  {
    if |ds| > 0 {
      PackBound(ds[1..], bits);
      ShiftedBelow(ds[0], Pack(ds[1..], bits), bits, bits * (|ds| - 1));
      assert bits + bits * (|ds| - 1) == bits * |ds|;
    }
  }

  /** Every colour of the image is in the palette. */
  predicate Covers(pixels: seq<Pixel>, pal: seq<Pixel>) {
    forall i :: 0 <= i < |pixels| ==> pixels[i] in pal
  }

  /**
   * The palette indexes of the n pixels from offset start on: for packed pixel
   * x of row y, start is y * width + x * size and n is size, or fewer at the
   * row's end.
   */
  function Indexes(pixels: seq<Pixel>, pal: seq<Pixel>, start: nat, n: nat): (ds: seq<nat>)
    requires start + n <= |pixels| && Covers(pixels, pal)
    ensures |ds| == n
    ensures forall i :: 0 <= i < n ==> ds[i] < |pal| && pal[ds[i]] == pixels[start + i]
  {
    var ds := seq<nat>(n, i requires 0 <= i < n => IndexOf(pal, pixels[start + i]));
    assert forall i :: 0 <= i < n ==> ds[i] == IndexOf(pal, pixels[start + i]);
    ds
  }

  /** The offset of the first image pixel that goes into packed pixel x of row y: y * width + x * size. */
  function RunStart(width: nat, size: nat, x: nat, y: nat): nat {
    y * width + x * size
  }

  /** How many pixels of a row of the given width packed pixel x takes: size, or fewer at the row's end. */
  function Take(width: nat, size: nat, x: nat): nat
    requires x * size < width
  {
    if width - x * size < size then width - x * size else size
  }

  /** A run of c pixels from the start of row y lies inside the image. */
  lemma WithinRow(y: nat, width: nat, height: nat, c: nat)
    requires y < height && c <= width
    ensures y * width + c <= width * height
  {
    MulLeft(y + 1, height, width);
  }

  /** Indexes below the palette size fit their fields, so the packed value is a byte. */
  lemma PackedByte(ds: seq<nat>, n: nat)
    requires n <= MaxColors && |ds| <= PackSize(n)
    requires forall i :: 0 <= i < |ds| ==> ds[i] < n
    ensures Fits(ds, IndexBits(n)) && Pack(ds, IndexBits(n)) < 256
  {
    var bits := IndexBits(n);
    forall i | 0 <= i < |ds|
      ensures ds[i] < Pow2(bits)
    {
      IndexFits(n, ds[i]);
    }
    PackBound(ds, bits);
    assert bits * |ds| <= 8 by {
      if n <= 2 {
        assert bits == 1;
      } else if n <= 4 {
        assert bits == 2;
      } else if n <= 16 {
        assert bits == 4;
      } else {
        assert bits == 8;
      }
    }
    Pow2Monotone(bits * |ds|, 8);
    Pow2Byte();
  }

  /** Packed pixel k of the transformed image: the indexes in green, R = B = 0, A = 255. */
  function PackedAt(pixels: seq<Pixel>, pal: seq<Pixel>, width: nat, height: nat, k: nat): (q: Pixel)
    requires |pixels| == width * height && Covers(pixels, pal) && |pal| <= MaxColors
    requires k < PackedWidth(width, PackSize(|pal|)) * height
    ensures q.r == 0 && q.b == 0 && q.a == 255
  {
    var size := PackSize(|pal|);
    var pw := PackedWidth(width, size);
    var x, y := Col(k, pw), Row(k, pw);
    RowBound(k, pw, height);
    Offset(k, pw);
    MulLeft(x, pw - 1, size);
    WithinRow(y, width, height, x * size + Take(width, size, x));
    var ds := Indexes(pixels, pal, RunStart(width, size, x, y), Take(width, size, x));
    PackedByte(ds, |pal|);
    Pixel(0, Pack(ds, IndexBits(|pal|)), 0, 255)
  }

  /** Packed pixel x of row y holds the indexes of the pixels from x * size on in row y. */
  lemma PackedAtPixel(pixels: seq<Pixel>, pal: seq<Pixel>, width: nat, height: nat, x: nat, y: nat)
    requires |pixels| == width * height && Covers(pixels, pal) && |pal| <= MaxColors
    requires x < PackedWidth(width, PackSize(|pal|)) && y < height
    ensures x * PackSize(|pal|) < width
    ensures RunStart(width, PackSize(|pal|), x, y) + Take(width, PackSize(|pal|), x) <= |pixels|
    ensures var pw := PackedWidth(width, PackSize(|pal|));
      y * pw + x < pw * height &&
      PackedAt(pixels, pal, width, height, y * pw + x).g ==
        Pack(Indexes(pixels, pal, RunStart(width, PackSize(|pal|), x, y), Take(width, PackSize(|pal|), x)), IndexBits(|pal|))
  {
    var size := PackSize(|pal|);
    var pw := PackedWidth(width, size);
    MulLeft(x, pw - 1, size);
    WithinRow(y, width, height, x * size + Take(width, size, x));
    OffsetBound(x, y, pw, height);
    Coords(x, y, pw);
  }

  /** The palette delta-coded: each entry but the first minus the one before it, per channel modulo 256. */
  function DeltaPalette(pal: seq<Pixel>): (d: seq<Pixel>)
    ensures |d| == |pal|
  {
    seq(|pal|, i requires 0 <= i < |pal| => if i == 0 then pal[0] else Minus(pal[i], pal[i - 1]))
  }

  /** The decoder's prefix sum, which restores the palette. */
  function UndeltaPalette(d: seq<Pixel>): (pal: seq<Pixel>)
    ensures |pal| == |d|
  {
    if |d| == 0 then []
    else
      var u := UndeltaPalette(d[..|d| - 1]);
      u + [if |d| == 1 then d[0] else Plus(d[|d| - 1], u[|d| - 2])]
  }

  /** The prefix sum undoes the delta coding. */
  lemma UndeltaDelta(pal: seq<Pixel>)
    ensures UndeltaPalette(DeltaPalette(pal)) == pal
  {
    forall i | 0 <= i < |pal|
      ensures UndeltaPalette(DeltaPalette(pal))[i] == pal[i]
    {
      UndeltaDeltaAt(pal, i);
    }
  }

  /** Entry i of the prefix sum of the deltas is entry i of the palette. */
  lemma {:induction false} UndeltaDeltaAt(pal: seq<Pixel>, i: nat)
    requires i < |pal|
    ensures UndeltaPalette(DeltaPalette(pal))[i] == pal[i]
  {
    var d := DeltaPalette(pal);
    if i == 0 {
      UndeltaHead(d);
    } else {
      UndeltaDeltaAt(pal, i - 1);
      UndeltaStep(d, i);
      assert d[i] == Minus(pal[i], pal[i - 1]);
      PlusMinus(pal[i], pal[i - 1]);
    }
  }

  /** Each entry of the prefix sum is the delta plus the entry before it. */
  lemma {:induction false} UndeltaStep(d: seq<Pixel>, i: nat)
    requires 0 < i < |d|
    ensures UndeltaPalette(d)[i] == Plus(d[i], UndeltaPalette(d)[i - 1])
  {
    var n := |d|;
    if i < n - 1 {
      UndeltaStep(d[..n - 1], i);
      assert d[..n - 1][i] == d[i];
    }
  }

  /** The delta coding undoes the prefix sum. */
  lemma DeltaUndelta(d: seq<Pixel>)
    ensures DeltaPalette(UndeltaPalette(d)) == d
  {
    var u := UndeltaPalette(d);
    forall i | 0 <= i < |d|
      ensures DeltaPalette(u)[i] == d[i]
    {
      if i == 0 {
        UndeltaHead(d);
      } else {
        UndeltaStep(d, i);
        PlusMinus(d[i], u[i - 1]);
      }
    }
  }

  /** The first entry of the prefix sum is the first delta. */
  lemma {:induction false} UndeltaHead(d: seq<Pixel>)
    requires |d| > 0
    ensures UndeltaPalette(d)[0] == d[0]
  {
    if |d| > 1 {
      UndeltaHead(d[..|d| - 1]);
    }
  }

  /** The delta coding in place, from the last entry down to the second. */
  method DeltaCode(pal: array<Pixel>)
    modifies pal
    ensures pal[..] == DeltaPalette(old(pal[..]))
  {
    ghost var orig := pal[..];
    var i := pal.Length - 1;
    while i > 0
      invariant -1 <= i < pal.Length && (pal.Length > 0 ==> i >= 0)
      invariant forall j :: 0 <= j < pal.Length && j <= i ==> pal[j] == orig[j]
      invariant forall j :: 0 <= j < pal.Length && j > i && j > 0 ==> pal[j] == Minus(orig[j], orig[j - 1])
    {
      pal[i] := Minus(pal[i], pal[i - 1]);
      i := i - 1;
    }
    assert forall j :: 0 <= j < pal.Length ==> pal[j] == DeltaPalette(orig)[j];
  }

  /** The result of the palette transform: the delta-coded palette, the packed pixels and their width. */
  datatype Paletted = Paletted(palette: seq<Pixel>, packed: seq<Pixel>, width: nat)

  /** What the palette transform produces from an image of at most 256 colours. */
  predicate PalettedOk(pixels: seq<Pixel>, width: nat, height: nat, out: Paletted)
    requires |pixels| == width * height
  {
    var pal := Distinct(pixels);
    DistinctColours(pixels);
    |pal| <= MaxColors &&
    out.palette == DeltaPalette(pal) &&
    out.width == PackedWidth(width, PackSize(|pal|)) &&
    |out.packed| == out.width * height &&
    forall k :: 0 <= k < |out.packed| ==> out.packed[k] == PackedAt(pixels, pal, width, height, k)
  }

  /**
   * The innermost loop of applyPaletteTransform: the indexes of the pixels
   * x * size, x * size + 1, ... of row y, each shifted to its field, stopping
   * at the row's end.
   */
  method PackPixel(pixels: seq<Pixel>, pal: seq<Pixel>, width: nat, height: nat, size: nat, bits: nat, x: nat, y: nat)
    returns (pack: nat)
    requires |pixels| == width * height && Covers(pixels, pal) && |pal| <= MaxColors
    requires size == PackSize(|pal|) && bits == IndexBits(|pal|) && x * size < width && y < height
    requires RunStart(width, size, x, y) + Take(width, size, x) <= |pixels|
    ensures pack == Pack(Indexes(pixels, pal, RunStart(width, size, x, y), Take(width, size, x)), bits)
  {
    ghost var ds := Indexes(pixels, pal, RunStart(width, size, x, y), Take(width, size, x));
    pack := 0;
    for i := 0 to size
      invariant i <= |ds| && pack == Pack(ds[..i], bits)
    {
      var px := x * size + i;
      if px >= width {
        break;
      }
      var idx := IndexOf(pal, pixels[y * width + px]);
      assert idx == ds[i];
      PackSnoc(ds[..i], idx, bits);
      assert |ds[..i]| == i;
      assert ds[..i + 1] == ds[..i] + [idx];
      pack := pack + Shl(idx, i * bits);
    }
    assert ds[..|ds|] == ds;
  }

  /** The middle loop of applyPaletteTransform: packed pixels row * pw .. row * pw + pw - 1 of row y. */
  method PackRow(pixels: seq<Pixel>, pal: seq<Pixel>, width: nat, height: nat, y: nat, row: nat, packed: seq<Pixel>)
    returns (next: seq<Pixel>)
    requires |pixels| == width * height && Covers(pixels, pal) && |pal| <= MaxColors && y < height
    requires row == y * PackedWidth(width, PackSize(|pal|))
    requires |packed| == PackedWidth(width, PackSize(|pal|)) * height
    requires row + PackedWidth(width, PackSize(|pal|)) <= |packed|
    requires forall k :: 0 <= k < row ==> packed[k] == PackedAt(pixels, pal, width, height, k)
    ensures |next| == |packed|
    ensures forall k :: 0 <= k < row + PackedWidth(width, PackSize(|pal|)) ==> k < |next| && next[k] == PackedAt(pixels, pal, width, height, k)
  {
    var size := PackSize(|pal|);
    var bits := IndexBits(|pal|);
    var pw := PackedWidth(width, size);
    next := packed;
    var x := 0;
    while x < pw
      invariant x <= pw && |next| == |packed| && row + x <= |next|
      invariant forall k :: 0 <= k < row + x ==> next[k] == PackedAt(pixels, pal, width, height, k)
    {
      assert x * size < width && RunStart(width, size, x, y) + Take(width, size, x) <= |pixels| by {
        PackedAtPixel(pixels, pal, width, height, x, y);
      }
      var pack := PackPixel(pixels, pal, width, height, size, bits, x, y);
      var k := row + x;
      assert pack < 256 && PackedAt(pixels, pal, width, height, k) == Pixel(0, pack, 0, 255) by {
        PackedAtPixel(pixels, pal, width, height, x, y);
        PackedByte(Indexes(pixels, pal, RunStart(width, size, x, y), Take(width, size, x)), |pal|);
      }
      next := next[k := Pixel(0, pack, 0, 255)];
      x := x + 1;
    }
  }

  /** After the last row, the rows written cover the packed image (kept apart from the loop's context). */
  lemma AllRows(y: nat, pw: nat, height: nat, row: nat)
    requires y == height && row == y * pw
    ensures row == pw * height
  {
  }

  /** The outer loop of applyPaletteTransform: the packed image, row by row. */
  method PackImage(pixels: seq<Pixel>, pal: seq<Pixel>, width: nat, height: nat, size: nat, pw: nat)
    returns (packed: seq<Pixel>)
    requires |pixels| == width * height && Covers(pixels, pal) && |pal| <= MaxColors
    requires size == PackSize(|pal|) && pw == PackedWidth(width, size)
    ensures |packed| == pw * height
    ensures forall k :: 0 <= k < |packed| ==> packed[k] == PackedAt(pixels, pal, width, height, k)
  {
    packed := seq(pw * height, _ => Pixel(0, 0, 0, 0));
    var y := 0;
    var row: nat := 0;
    while y < height
      invariant y <= height && row == y * pw && |packed| == pw * height && row <= |packed|
      invariant forall k :: 0 <= k < row ==> packed[k] == PackedAt(pixels, pal, width, height, k)
    {
      NextRow(y, pw, height);
      packed := PackRow(pixels, pal, width, height, y, row, packed);
      row := row + pw;
      y := y + 1;
    }
    AllRows(y, pw, height, row);
  }

  /**
   * applyPaletteTransform: fails when the image has more than 256 colours;
   * otherwise returns the delta-coded palette, the packed image and its width.
   */
  method PaletteTransform(pixels: seq<Pixel>, width: nat, height: nat) returns (r: Option<Paletted>)
    requires |pixels| == width * height
    ensures r.None? <==> |Distinct(pixels)| > MaxColors
    ensures r.Some? ==> PalettedOk(pixels, width, height, r.value)
  {
    var found := CollectPalette(pixels);
    if found.None? {
      return None;
    }
    var pal := found.value;
    DistinctColours(pixels);
    var size := 1;
    if |pal| <= 2 {
      size := 8;
    } else if |pal| <= 4 {
      size := 4;
    } else if |pal| <= 16 {
      size := 2;
    }
    assert size == PackSize(|pal|);
    var pw := (width + size - 1) / size;
    assert pw == PackedWidth(width, size);
    var packed := PackImage(pixels, pal, width, height, size, pw);
    var arr := new Pixel[|pal|](i requires 0 <= i < |pal| => pal[i]);
    DeltaCode(arr);
    return Some(Paletted(arr[..], packed, pw));
  }

  // ---------------------------------------------------------------------
  // The decoder's side
  // ---------------------------------------------------------------------

  /** The packed pixel that holds image pixel i: row Row(i) and column Col(i) / size of the packed image. */
  function Holder(width: nat, size: nat, pw: nat, i: nat): nat
    requires size > 0
  {
    Row(i, width) * pw + Col(i, width) / size
  }

  /**
   * How a decoder reads pixel i back: it restores the palette by prefix sums,
   * finds the packed pixel holding pixel i and extracts its field.
   */
  function Unpack(out: Paletted, width: nat, i: nat): Option<Pixel> {
    var pal := UndeltaPalette(out.palette);
    var size := PackSize(|pal|);
    var k := Holder(width, size, out.width, i);
    if k < |out.packed| then
      var idx := Digit(out.packed[k].g, Col(i, width) % size, IndexBits(|pal|));
      if idx < |pal| then Some(pal[idx]) else None
    else None
  }

  /** Pixel x of a row lies in field x % size of packed pixel x / size, inside that pixel's run. */
  lemma FieldOf(width: nat, size: nat, pw: nat, x: nat)
    requires size > 0 && x < width && width <= pw * size
    ensures x / size < pw && (x / size) * size < width
    ensures x % size < Take(width, size, x / size)
    ensures (x / size) * size + x % size == x
  {
    DivBelow(x, size, pw);
    assert x == (x / size) * size + x % size;
  }

  /** The packed pixel holding pixel (x, y), and the run it packs. */
  lemma PackedOf(width: nat, height: nat, size: nat, pw: nat, x: nat, y: nat)
    requires size > 0 && x < width && y < height && width <= pw * size
    ensures y * pw + x / size < pw * height
    ensures Col(y * pw + x / size, pw) == x / size && Row(y * pw + x / size, pw) == y
    ensures RunStart(width, size, x / size, y) + x % size == y * width + x
  {
    FieldOf(width, size, pw, x);
    OffsetBound(x / size, y, pw, height);
    Coords(x / size, y, pw);
  }

  /** Field x % size of the packed pixel holding pixel i is the palette index of pixel i. */
  lemma IndexInPacked(pixels: seq<Pixel>, pal: seq<Pixel>, width: nat, height: nat, i: nat)
    requires |pixels| == width * height && Covers(pixels, pal) && |pal| <= MaxColors && i < |pixels|
    ensures var size := PackSize(|pal|);
      var pw := PackedWidth(width, size);
      var k := Holder(width, size, pw, i);
      var f := Col(i, width) % size;
      k < pw * height &&
      Digit(PackedAt(pixels, pal, width, height, k).g, f, IndexBits(|pal|)) < |pal| &&
      pal[Digit(PackedAt(pixels, pal, width, height, k).g, f, IndexBits(|pal|))] == pixels[i]
  {
    var size := PackSize(|pal|);
    var bits := IndexBits(|pal|);
    var pw := PackedWidth(width, size);
    var x, y := Col(i, width), Row(i, width);
    assert x < width && y < height && i == y * width + x by {
      RowBound(i, width, height);
      Offset(i, width);
    }
    PackedOf(width, height, size, pw, x, y);
    FieldOf(width, size, pw, x);
    var start := RunStart(width, size, x / size, y);
    PackedAtPixel(pixels, pal, width, height, x / size, y);
    var ds := Indexes(pixels, pal, start, Take(width, size, x / size));
    PackedByte(ds, |pal|);
    DigitPack(ds, bits, x % size);
  }

  /** A decoder reads every pixel back from the palette transform's output. */
  lemma PaletteRoundTrip(pixels: seq<Pixel>, width: nat, height: nat, out: Paletted, i: nat)
    requires |pixels| == width * height && PalettedOk(pixels, width, height, out) && i < |pixels|
    ensures Unpack(out, width, i) == Some(pixels[i])
  {
    var pal := Distinct(pixels);
    DistinctColours(pixels);
    UndeltaDelta(pal);
    assert UndeltaPalette(out.palette) == pal;
    var size := PackSize(|pal|);
    var k := Holder(width, size, out.width, i);
    IndexInPacked(pixels, pal, width, height, i);
    assert out.packed[k] == PackedAt(pixels, pal, width, height, k);
  }
}

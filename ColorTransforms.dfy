/**
 * The two colour-decorrelating transforms of transform.go: subtract green,
 * and the colour transform with fixed multipliers. Both rewrite the pixels in
 * place. Each is paired with the inverse a decoder applies, and the round
 * trips are proved in both directions.
 */
module ColorTransforms {
  import opened WebPTypes
  import opened Bits
  import opened Pixels
  import opened Tiles

  // ---------------------------------------------------------------------
  // Subtract green
  // ---------------------------------------------------------------------

  /** Red and blue lose the green value modulo 256; green and alpha stay. */
  function SubtractGreenPixel(p: Pixel): Pixel {
    Pixel(Sub8(p.r, p.g), p.g, Sub8(p.b, p.g), p.a)
  }

  /** What a decoder does: add green back to red and blue. */
  function AddGreenPixel(p: Pixel): Pixel {
    Pixel(Add8(p.r, p.g), p.g, Add8(p.b, p.g), p.a)
  }

  /** Subtracting green and adding it back are inverse to each other. */
  lemma GreenRoundTrip(p: Pixel)
    ensures AddGreenPixel(SubtractGreenPixel(p)) == p
    ensures SubtractGreenPixel(AddGreenPixel(p)) == p
  {
    AddSub8(p.r, p.g);
    AddSub8(p.b, p.g);
  }

  function SubtractGreenImage(ps: seq<Pixel>): (qs: seq<Pixel>)
    ensures |qs| == |ps|
  {
    seq(|ps|, i requires 0 <= i < |ps| => SubtractGreenPixel(ps[i]))
  }

  function AddGreenImage(ps: seq<Pixel>): (qs: seq<Pixel>)
    ensures |qs| == |ps|
  {
    seq(|ps|, i requires 0 <= i < |ps| => AddGreenPixel(ps[i]))
  }

  /** Adding green back to the transformed image restores the image. */
  lemma GreenImageRoundTrip(ps: seq<Pixel>)
    ensures AddGreenImage(SubtractGreenImage(ps)) == ps
  {
    forall i | 0 <= i < |ps|
      ensures AddGreenImage(SubtractGreenImage(ps))[i] == ps[i]
    {
      GreenRoundTrip(ps[i]);
    }
  }

  /** applySubtractGreenTransform: every pixel, in place. */
  method SubtractGreen(a: array<Pixel>)
    modifies a
    ensures a[..] == SubtractGreenImage(old(a[..]))
  {
    for i := 0 to a.Length
      invariant forall k :: 0 <= k < i ==> a[k] == SubtractGreenPixel(old(a[k]))
      invariant forall k :: i <= k < a.Length ==> a[k] == old(a[k])
    {
      var p := a[i];
      a[i] := p.(r := Sub8(p.r, p.g));
      a[i] := a[i].(b := Sub8(a[i].b, a[i].g));
    }
  }

  // ---------------------------------------------------------------------
  // Colour transform
  // ---------------------------------------------------------------------

  /**
   * The colour transform element the encoder uses for every tile, stored as a
   * pixel: red_to_blue in R (1), green_to_blue in G (2), green_to_red in B (3),
   * and A = 255.
   */
  const FixedElement := Pixel(1, 2, 3, 255)

  /**
   * ColorTransformDelta: int8((int16(int8(t)) * int16(int8(c))) >> 5). The
   * product of two int8 values lies within int16, so the int16 multiplication
   * never wraps; an arithmetic right shift by 5 is floor division by 32, which
   * is what Dafny's / does for a positive divisor.
   */
  function ColorDelta(t: byte, c: byte): int {
    Signed(Wrap((Signed(t) * Signed(c)) / 32))
  }

  /**
   * The forward transform of one pixel under element m and delta function d:
   * red loses the green-to-red delta, blue loses the green-to-blue and
   * red-to-blue deltas, all on int8 values, and the results keep their low 8
   * bits.
   */
  function ForwardWith(d: (byte, byte) -> int, m: Pixel, p: Pixel): Pixel {
    Pixel(Wrap(Signed(p.r) - d(m.b, p.g)), p.g, Wrap(Signed(p.b) - (d(m.g, p.g) + d(m.r, p.r))), p.a)
  }

  /**
   * What a decoder does: red gets the green-to-red delta back, then blue gets
   * the green-to-blue delta and the red-to-blue delta of the restored red back.
   */
  function InverseWith(d: (byte, byte) -> int, m: Pixel, p: Pixel): Pixel {
    var r := Wrap(Signed(p.r) + d(m.b, p.g));
    Pixel(r, p.g, Wrap(Signed(p.b) + (d(m.g, p.g) + d(m.r, r))), p.a)
  }

  /** Undoing a wrapped subtraction of k from a signed byte. */
  lemma UndoSub(v: byte, k: int)
    ensures Wrap(Signed(Wrap(Signed(v) - k)) + k) == v
  {
    var w := Wrap(Signed(v) - k);
    WrapSignedAdd(w, k);
    WrapAdd(Signed(v) - k, k);
    WrapSigned(v);
  }

  /** Undoing a wrapped addition of k to a signed byte. */
  lemma UndoAdd(v: byte, k: int)
    ensures Wrap(Signed(Wrap(Signed(v) + k)) - k) == v
  {
    UndoSub(v, -k);
  }

  /** For any delta function, the inverse undoes the forward transform and the other way round. */
  lemma RoundTripWith(d: (byte, byte) -> int, m: Pixel, p: Pixel)
    ensures InverseWith(d, m, ForwardWith(d, m, p)) == p
    ensures ForwardWith(d, m, InverseWith(d, m, p)) == p
  {
    UndoSub(p.r, d(m.b, p.g));
    UndoSub(p.b, d(m.g, p.g) + d(m.r, p.r));
    UndoAdd(p.r, d(m.b, p.g));
    var r := Wrap(Signed(p.r) + d(m.b, p.g));
    UndoAdd(p.b, d(m.g, p.g) + d(m.r, r));
  }

  /** The colour transform the encoder applies. */
  function ForwardColor(m: Pixel, p: Pixel): Pixel {
    ForwardWith(ColorDelta, m, p)
  }

  /** The inverse colour transform of a decoder. */
  function InverseColor(m: Pixel, p: Pixel): Pixel {
    InverseWith(ColorDelta, m, p)
  }

  /** The inverse colour transform restores the pixel, and the transform is a bijection. */
  lemma ColorRoundTrip(m: Pixel, p: Pixel)
    ensures InverseColor(m, ForwardColor(m, p)) == p
    ensures ForwardColor(m, InverseColor(m, p)) == p
  {
    RoundTripWith(ColorDelta, m, p);
  }

  function ColorImage(m: Pixel, ps: seq<Pixel>): (qs: seq<Pixel>)
    ensures |qs| == |ps|
  {
    seq(|ps|, i requires 0 <= i < |ps| => ForwardColor(m, ps[i]))
  }

  function InverseColorImage(m: Pixel, ps: seq<Pixel>): (qs: seq<Pixel>)
    ensures |qs| == |ps|
  {
    seq(|ps|, i requires 0 <= i < |ps| => InverseColor(m, ps[i]))
  }

  /** Inverting the colour transform of an image restores it. */
  lemma ColorImageRoundTrip(m: Pixel, ps: seq<Pixel>)
    ensures InverseColorImage(m, ColorImage(m, ps)) == ps
  {
    forall i | 0 <= i < |ps|
      ensures InverseColorImage(m, ColorImage(m, ps))[i] == ps[i]
    {
      ColorRoundTrip(m, ps[i]);
    }
  }

  /** The loop body of applyColorTransform for one pixel, on int8 values. */
  method TransformPixel(p: Pixel) returns (q: Pixel)
    ensures q == ForwardColor(FixedElement, p)
  {
    var r, b := Signed(p.r), Signed(p.b);
    b := b - ColorDelta(FixedElement.g, p.g);
    b := b - ColorDelta(FixedElement.r, p.r);
    r := r - ColorDelta(FixedElement.b, p.g);
    q := p.(r := Wrap(r), b := Wrap(b));
  }

  /**
   * The pixels of tile (bcol, brow), column by column, each transformed in
   * place and copied to deltas.
   */
  method ColorTile(a: array<Pixel>, deltas: array<Pixel>, width: nat, height: nat, bcol: nat, brow: nat)
    requires a != deltas && a.Length == width * height && deltas.Length == a.Length
    requires bcol < TileCount(width) && brow < TileCount(height)
    modifies a, deltas
    ensures forall i :: 0 <= i < a.Length ==>
      a[i] == (if InTile(i, width, bcol, brow) then ForwardColor(FixedElement, old(a[i])) else old(a[i]))
    ensures forall i :: 0 <= i < a.Length ==>
      deltas[i] == (if InTile(i, width, bcol, brow) then a[i] else old(deltas[i]))
  {
    var mx := TileEnd(bcol, width);
    TileStart(bcol, width);
    ghost var orig, origDeltas := a[..], deltas[..];
    var tx := bcol * TileSize;
    while tx < mx
      invariant bcol * TileSize <= tx <= mx
      invariant forall i :: 0 <= i < a.Length ==>
        a[i] == (if TileDone(i, width, bcol, brow, tx, brow * TileSize) then ForwardColor(FixedElement, orig[i]) else orig[i])
      invariant forall i :: 0 <= i < a.Length ==>
        deltas[i] == (if TileDone(i, width, bcol, brow, tx, brow * TileSize) then a[i] else origDeltas[i])
    {
      ColorColumn(a, deltas, width, height, bcol, brow, tx, orig, origDeltas);
      tx := tx + 1;
    }
    TileFinished(width, height, bcol, brow);
  }

  /** Column tx of tile (bcol, brow), top to bottom: each pixel is transformed and copied to deltas. */
  method ColorColumn(a: array<Pixel>, deltas: array<Pixel>, width: nat, height: nat, bcol: nat, brow: nat, tx: nat,
                     ghost orig: seq<Pixel>, ghost origDeltas: seq<Pixel>)
    requires a != deltas && a.Length == width * height && deltas.Length == a.Length
    requires |orig| == a.Length && |origDeltas| == a.Length
    requires bcol * TileSize <= tx < TileEnd(bcol, width) && brow < TileCount(height)
    requires forall i :: 0 <= i < a.Length ==>
      a[i] == (if TileDone(i, width, bcol, brow, tx, brow * TileSize) then ForwardColor(FixedElement, orig[i]) else orig[i])
    requires forall i :: 0 <= i < a.Length ==>
      deltas[i] == (if TileDone(i, width, bcol, brow, tx, brow * TileSize) then a[i] else origDeltas[i])
    modifies a, deltas
    ensures forall i :: 0 <= i < a.Length ==>
      a[i] == (if TileDone(i, width, bcol, brow, tx + 1, brow * TileSize) then ForwardColor(FixedElement, orig[i]) else orig[i])
    ensures forall i :: 0 <= i < a.Length ==>
      deltas[i] == (if TileDone(i, width, bcol, brow, tx + 1, brow * TileSize) then a[i] else origDeltas[i])
  {
    var my := TileEnd(brow, height);
    TileStart(brow, height);
    var ty := brow * TileSize;
    while ty < my
      invariant brow * TileSize <= ty <= my
      invariant forall i :: 0 <= i < a.Length ==>
        a[i] == (if TileDone(i, width, bcol, brow, tx, ty) then ForwardColor(FixedElement, orig[i]) else orig[i])
      invariant forall i :: 0 <= i < a.Length ==>
        deltas[i] == (if TileDone(i, width, bcol, brow, tx, ty) then a[i] else origDeltas[i])
    {
      VisitPixel(width, height, bcol, brow, tx, ty);
      var off := ty * width + tx;
      a[off] := TransformPixel(a[off]);
      deltas[off] := a[off];
      ty := ty + 1;
    }
    NextColumn(width, height, bcol, brow, tx);
  }

  /**
   * applyColorTransform: every 16x16 tile gets the fixed element, and every
   * pixel is transformed under it. Returns the tile bits, the tile grid size
   * and the element of each tile, row by row.
   */
  method ColorTransform(a: array<Pixel>, width: nat, height: nat) returns (tileBits: nat, bw: nat, bh: nat, blocks: seq<Pixel>)
    requires a.Length == width * height
    modifies a
    ensures tileBits == TileBits && bw == TileCount(width) && bh == TileCount(height)
    ensures |blocks| == bw * bh && forall k :: 0 <= k < |blocks| ==> blocks[k] == FixedElement
    ensures a[..] == ColorImage(FixedElement, old(a[..]))
  {
    tileBits := TileBits;
    bw := (width + TileSize - 1) / TileSize;
    bh := (height + TileSize - 1) / TileSize;
    var blk := seq(bw * bh, _ => Pixel(0, 0, 0, 0));
    var deltas := new Pixel[width * height](_ => Pixel(0, 0, 0, 0));
    ghost var orig := a[..];
    var y := 0;
    var row: nat := 0;
    while y < bh
      invariant 0 <= y <= bh && row == y * bw && |blk| == bw * bh && row <= bw * bh
      invariant forall k :: 0 <= k < row ==> blk[k] == FixedElement
      invariant forall i :: 0 <= i < a.Length ==>
        a[i] == (if TileBefore(i, width, 0, y) then ForwardColor(FixedElement, orig[i]) else orig[i])
      invariant forall i :: 0 <= i < a.Length && TileBefore(i, width, 0, y) ==> deltas[i] == a[i]
    {
      assert row + bw == (y + 1) * bw;
      MulLeft(y + 1, bh, bw);
      blk := ColorTileRow(a, deltas, width, height, y, blk, row, orig);
      row := row + bw;
      y := y + 1;
    }
    AllTiles(width, height);
    forall i | 0 <= i < a.Length {
      a[i] := deltas[i];
    }
    blocks := blk;
  }

  /** Row y of tiles, left to right: each tile is transformed and its element recorded. */
  method ColorTileRow(a: array<Pixel>, deltas: array<Pixel>, width: nat, height: nat, y: nat, blk: seq<Pixel>, row: nat,
                      ghost orig: seq<Pixel>)
    returns (blk': seq<Pixel>)
    requires a != deltas && a.Length == width * height && deltas.Length == a.Length && |orig| == a.Length
    requires y < TileCount(height) && row == y * TileCount(width) && |blk| == TileCount(width) * TileCount(height)
    requires row + TileCount(width) <= |blk|
    requires forall k :: 0 <= k < row ==> blk[k] == FixedElement
    requires forall i :: 0 <= i < a.Length ==>
      a[i] == (if TileBefore(i, width, 0, y) then ForwardColor(FixedElement, orig[i]) else orig[i])
    requires forall i :: 0 <= i < a.Length && TileBefore(i, width, 0, y) ==> deltas[i] == a[i]
    modifies a, deltas
    ensures |blk'| == |blk| && forall k :: 0 <= k < row + TileCount(width) ==> blk'[k] == FixedElement
    ensures forall i :: 0 <= i < a.Length ==>
      a[i] == (if TileBefore(i, width, 0, y + 1) then ForwardColor(FixedElement, orig[i]) else orig[i])
    ensures forall i :: 0 <= i < a.Length && TileBefore(i, width, 0, y + 1) ==> deltas[i] == a[i]
  {
    var bw, bh := TileCount(width), TileCount(height);
    blk' := blk;
    var x := 0;
    while x < bw
      invariant 0 <= x <= bw && |blk'| == bw * bh
      invariant forall k :: 0 <= k < row + x ==> blk'[k] == FixedElement
      invariant forall i :: 0 <= i < a.Length ==>
        a[i] == (if TileBefore(i, width, x, y) then ForwardColor(FixedElement, orig[i]) else orig[i])
      invariant forall i :: 0 <= i < a.Length && TileBefore(i, width, x, y) ==> deltas[i] == a[i]
    {
      ColorTile(a, deltas, width, height, x, y);
      blk' := blk'[row + x := FixedElement];
      x := x + 1;
    }
    NextTileRow(width, height, y);
  }
}

/**
 * The predictor transform of transform.go. Every pixel is replaced by its
 * difference (modulo 256 per channel) from a prediction made from its
 * already-coded neighbours: top, left, top-left and top-right. Each 16x16 tile
 * picks one of 14 predictors. The partner is the decoder's reconstruction,
 * which restores pixels in raster order from the residuals; it is proved to
 * give back the original image.
 */
module Predictor {
  import opened WebPTypes
  import opened Bits
  import opened Pixels
  import opened Tiles

  const PredictorCount: nat := 14

  /** The channel-wise average, truncated: uint8((int(a.C) + int(b.C)) / 2). */
  function Average2(a: Pixel, b: Pixel): Pixel {
    Pixel((a.r + b.r) / 2, (a.g + b.g) / 2, (a.b + b.b) / 2, (a.a + b.a) / 2)
  }

  /** max(min(v, 255), 0). */
  function Clamp(v: int): byte {
    if v > 255 then 255 else if v < 0 then 0 else v
  }

  /** Go's v / 2 on an int, which truncates toward zero (Dafny's / rounds down). */
  function TruncHalf(v: int): int {
    if v >= 0 then v / 2 else -((-v) / 2)
  }

  function Abs(v: int): nat {
    if v < 0 then -v else v
  }

  /**
   * Predictor 11 (Select): the one of left and top that is closer, in
   * Manhattan distance over the four channels, to l + t - tl. The source
   * computes in float64, which holds these small integers exactly.
   */
  function Select(t: Pixel, l: Pixel, tl: Pixel): Pixel {
    var pr, pg, pb, pa := l.r + t.r - tl.r, l.g + t.g - tl.g, l.b + t.b - tl.b, l.a + t.a - tl.a;
    var pl := Abs(pa - l.a) + Abs(pr - l.r) + Abs(pg - l.g) + Abs(pb - l.b);
    var pt := Abs(pa - t.a) + Abs(pr - t.r) + Abs(pg - t.g) + Abs(pb - t.b);
    if pl < pt then l else t
  }

  /** Predictor 12: l + t - tl per channel, clamped to [0, 255]. */
  function ClampAddSubtractFull(t: Pixel, l: Pixel, tl: Pixel): Pixel {
    Pixel(Clamp(l.r + t.r - tl.r), Clamp(l.g + t.g - tl.g), Clamp(l.b + t.b - tl.b), Clamp(l.a + t.a - tl.a))
  }

  /** Predictor 13: a = avg(l, t), then a + (a - tl) / 2 per channel, clamped, with Go's truncating /. */
  function ClampAddSubtractHalf(t: Pixel, l: Pixel, tl: Pixel): Pixel {
    var a := Average2(l, t);
    Pixel(Clamp(a.r + TruncHalf(a.r - tl.r)), Clamp(a.g + TruncHalf(a.g - tl.g)),
          Clamp(a.b + TruncHalf(a.b - tl.b)), Clamp(a.a + TruncHalf(a.a - tl.a)))
  }

  /** The 14 predictors, by number, from the top, left, top-left and top-right neighbours. */
  function Predict(mode: nat, t: Pixel, l: Pixel, tl: Pixel, tr: Pixel): Pixel
    requires mode < PredictorCount
  {
    match mode
    case 0 => OpaqueBlack
    case 1 => l
    case 2 => t
    case 3 => tr
    case 4 => tl
    case 5 => Average2(Average2(l, tr), t)
    case 6 => Average2(l, tl)
    case 7 => Average2(l, t)
    case 8 => Average2(tl, t)
    case 9 => Average2(t, tr)
    case 10 => Average2(Average2(l, tl), Average2(t, tr))
    case 11 => Select(t, l, tl)
    case 12 => ClampAddSubtractFull(t, l, tl)
    case 13 => ClampAddSubtractHalf(t, l, tl)
  }

  /** The neighbours of a pixel off the top row and the left column come before it. */
  lemma Neighbours(i: nat, width: nat)
    requires width > 0
    ensures Row(i, width) >= 1 ==> i >= width
    ensures Row(i, width) >= 1 && Col(i, width) >= 1 ==> i >= width + 1 && width >= 2
  {
    Offset(i, width);
    if Row(i, width) >= 1 {
      MulAtLeast(Row(i, width), width);
    }
  }

  /**
   * applyFilter: the prediction for offset i, which reads only pixels before
   * it. The top-left pixel gets opaque black, the rest of the left column its
   * top neighbour, the rest of the top row its left neighbour.
   */
  function Filter(p: seq<Pixel>, width: nat, i: nat, mode: nat): Pixel
    requires i <= |p| && mode < PredictorCount
  {
    var x, y := Col(i, width), Row(i, width);
    if x == 0 && y == 0 then OpaqueBlack
    else
      Neighbours(i, width);
      if x == 0 then p[i - width]
      else if y == 0 then p[i - 1]
      else Predict(mode, p[i - width], p[i - 1], p[i - width - 1], p[i - width + 1])
  }

  /**
   * In the last column the top-right neighbour, one past the top neighbour,
   * is the first pixel of the current row.
   */
  lemma TopRightOfLastColumn(i: nat, width: nat)
    requires width > 0 && Col(i, width) == width - 1 && Row(i, width) >= 1
    ensures i - width + 1 == Row(i, width) * width
  {
    Offset(i, width);
  }

  /** The prediction depends only on the pixels before offset i. */
  lemma FilterPrefix(p: seq<Pixel>, q: seq<Pixel>, width: nat, i: nat, mode: nat)
    requires i <= |p| && i <= |q| && mode < PredictorCount
    requires p[..i] == q[..i]
    ensures Filter(p, width, i, mode) == Filter(q, width, i, mode)
  {
    if width > 0 {
      Neighbours(i, width);
      var x, y := Col(i, width), Row(i, width);
      if y >= 1 {
        assert p[i - width] == p[..i][i - width];
      }
      if x >= 1 {
        assert p[i - 1] == p[..i][i - 1];
      }
      if x >= 1 && y >= 1 {
        assert p[i - width - 1] == p[..i][i - width - 1];
        assert p[i - width + 1] == p[..i][i - width + 1];
      }
    }
  }

  /** The residual the encoder stores for offset i. */
  function Residual(p: seq<Pixel>, width: nat, i: nat, mode: nat): Pixel
    requires i < |p| && mode < PredictorCount
  {
    Minus(p[i], Filter(p, width, i, mode))
  }

  predicate ModesOk(modes: seq<nat>) {
    forall k :: 0 <= k < |modes| ==> modes[k] < PredictorCount
  }

  /** The residual image, given the predictor used at each pixel. */
  function Residuals(p: seq<Pixel>, width: nat, modes: seq<nat>): (res: seq<Pixel>)
    requires |modes| == |p| && ModesOk(modes)
    ensures |res| == |p|
  {
    seq(|p|, i requires 0 <= i < |p| => Residual(p, width, i, modes[i]))
  }

  /**
   * What a decoder does: it restores the first n pixels in raster order, each
   * as its residual plus the prediction from the pixels already restored.
   */
  function Unpredict(res: seq<Pixel>, width: nat, modes: seq<nat>, n: nat): (out: seq<Pixel>)
    requires n <= |res| && |modes| == |res| && ModesOk(modes)
    ensures |out| == n
  {
    if n == 0 then []
    else
      var prev := Unpredict(res, width, modes, n - 1);
      prev + [Plus(res[n - 1], Filter(prev, width, n - 1, modes[n - 1]))]
  }

  /** Reconstructing from the residuals gives back the image, prefix by prefix. */
  lemma {:induction false} UnpredictResiduals(p: seq<Pixel>, width: nat, modes: seq<nat>, n: nat)
    requires |modes| == |p| && ModesOk(modes) && n <= |p|
    ensures Unpredict(Residuals(p, width, modes), width, modes, n) == p[..n]
  {
    if n > 0 {
      var res := Residuals(p, width, modes);
      UnpredictResiduals(p, width, modes, n - 1);
      var prev := Unpredict(res, width, modes, n - 1);
      assert prev[..n - 1] == p[..n - 1];
      FilterPrefix(prev, p, width, n - 1, modes[n - 1]);
      PlusMinus(p[n - 1], Filter(p, width, n - 1, modes[n - 1]));
      assert p[..n - 1] + [p[n - 1]] == p[..n];
    }
  }

  /** The decoder restores the whole image from the encoder's residuals. */
  lemma UnpredictRoundTrip(p: seq<Pixel>, width: nat, modes: seq<nat>)
    requires |modes| == |p| && ModesOk(modes)
    ensures Unpredict(Residuals(p, width, modes), width, modes, |p|) == p
  {
    UnpredictResiduals(p, width, modes, |p|);
  }

  // ---------------------------------------------------------------------
  // Choosing a predictor per tile
  // ---------------------------------------------------------------------

  /**
   * best is the first predictor of least cost for tile (bcol, brow): no other
   * costs less, and every earlier one costs more.
   */
  predicate FirstLeast(cost: (nat, nat, nat) -> real, bcol: nat, brow: nat, best: nat) {
    best < PredictorCount &&
    (forall j :: 0 <= j < PredictorCount ==> cost(bcol, brow, best) <= cost(bcol, brow, j)) &&
    (forall j :: 0 <= j < best ==> cost(bcol, brow, j) > cost(bcol, brow, best))
  }

  /**
   * The predictor search of one tile: try all 14 and keep a new one only when
   * it is strictly cheaper.
   */
  method ChoosePredictor(cost: (nat, nat, nat) -> real, bcol: nat, brow: nat) returns (best: nat)
    ensures FirstLeast(cost, bcol, brow, best)
  {
    best := 0;
    var bestCost: real := 0.0;
    for i := 0 to PredictorCount
      invariant best < PredictorCount && (i > 0 ==> best < i && bestCost == cost(bcol, brow, best))
      invariant forall j :: 0 <= j < i ==> bestCost <= cost(bcol, brow, j)
      invariant forall j :: 0 <= j < best ==> cost(bcol, brow, j) > cost(bcol, brow, best)
    {
      var total := cost(bcol, brow, i);
      if i == 0 || total < bestCost {
        bestCost := total;
        best := i;
      }
    }
  }

  /** The predictor of offset i: the green channel of its tile's entry. */
  function ModeAt(blocks: seq<Pixel>, width: nat, height: nat, i: nat): (m: nat)
    requires i < width * height && |blocks| == TileCount(width) * TileCount(height)
    requires forall k :: 0 <= k < |blocks| ==> blocks[k].g < PredictorCount
    ensures m < PredictorCount
  {
    TileIndexBound(i, width, height);
    blocks[TileIndex(i, width)].g
  }

  /** The predictor of each pixel. */
  function Modes(blocks: seq<Pixel>, width: nat, height: nat): (modes: seq<nat>)
    requires |blocks| == TileCount(width) * TileCount(height)
    requires forall k :: 0 <= k < |blocks| ==> blocks[k].g < PredictorCount
    ensures |modes| == width * height && ModesOk(modes)
  {
    seq(width * height, i requires 0 <= i < width * height => ModeAt(blocks, width, height, i))
  }

  /** The residuals of tile (bcol, brow) under one predictor, written to deltas. */
  method PredictTile(a: array<Pixel>, deltas: array<Pixel>, width: nat, height: nat, bcol: nat, brow: nat, mode: nat)
    requires a != deltas && a.Length == width * height && deltas.Length == a.Length
    requires bcol < TileCount(width) && brow < TileCount(height) && mode < PredictorCount
    modifies deltas
    ensures forall i :: 0 <= i < a.Length ==>
      deltas[i] == (if InTile(i, width, bcol, brow) then Residual(a[..], width, i, mode) else old(deltas[i]))
  {
    var mx := TileEnd(bcol, width);
    TileStart(bcol, width);
    ghost var origDeltas := deltas[..];
    var tx := bcol * TileSize;
    while tx < mx
      invariant bcol * TileSize <= tx <= mx
      invariant forall i :: 0 <= i < a.Length ==>
        deltas[i] == (if TileDone(i, width, bcol, brow, tx, brow * TileSize) then Residual(a[..], width, i, mode) else origDeltas[i])
    {
      PredictColumn(a, deltas, width, height, bcol, brow, mode, tx, origDeltas);
      tx := tx + 1;
    }
    TileFinished(width, height, bcol, brow);
  }

  /** Column tx of tile (bcol, brow), top to bottom: each pixel's residual goes to deltas. */
  method PredictColumn(a: array<Pixel>, deltas: array<Pixel>, width: nat, height: nat, bcol: nat, brow: nat, mode: nat,
                       tx: nat, ghost origDeltas: seq<Pixel>)
    requires a != deltas && a.Length == width * height && deltas.Length == a.Length && |origDeltas| == a.Length
    requires bcol * TileSize <= tx < TileEnd(bcol, width) && brow < TileCount(height) && mode < PredictorCount
    requires forall i :: 0 <= i < a.Length ==>
      deltas[i] == (if TileDone(i, width, bcol, brow, tx, brow * TileSize) then Residual(a[..], width, i, mode) else origDeltas[i])
    modifies deltas
    ensures forall i :: 0 <= i < a.Length ==>
      deltas[i] == (if TileDone(i, width, bcol, brow, tx + 1, brow * TileSize) then Residual(a[..], width, i, mode) else origDeltas[i])
  {
    var my := TileEnd(brow, height);
    TileStart(brow, height);
    var ty := brow * TileSize;
    while ty < my
      invariant brow * TileSize <= ty <= my
      invariant forall i :: 0 <= i < a.Length ==>
        deltas[i] == (if TileDone(i, width, bcol, brow, tx, ty) then Residual(a[..], width, i, mode) else origDeltas[i])
    {
      VisitPixel(width, height, bcol, brow, tx, ty);
      var off := ty * width + tx;
      var d := Filter(a[..], width, off, mode);
      deltas[off] := Minus(a[off], d);
      ty := ty + 1;
    }
    NextColumn(width, height, bcol, brow, tx);
  }

  /** What the entry of tile k holds: predictor number in green, R = B = 0, A = 255. */
  predicate BlockOk(cost: (nat, nat, nat) -> real, blocks: seq<Pixel>, bw: nat, k: nat)
    requires k < |blocks|
  {
    blocks[k].r == 0 && blocks[k].b == 0 && blocks[k].a == 255 &&
    FirstLeast(cost, Col(k, bw), Row(k, bw), blocks[k].g)
  }

  /**
   * One row of tiles of applyPredictTransform: tile (x, brow) takes the first
   * predictor of least cost, its entry goes to index row + x, and its residuals
   * to deltas.
   */
  method PredictRow(a: array<Pixel>, deltas: array<Pixel>, width: nat, height: nat, brow: nat, row: nat,
                    blk: seq<Pixel>, cost: (nat, nat, nat) -> real)
    returns (next: seq<Pixel>)
    requires a != deltas && a.Length == width * height && deltas.Length == a.Length
    requires brow < TileCount(height) && row == brow * TileCount(width)
    requires |blk| == TileCount(width) * TileCount(height) && row + TileCount(width) <= |blk|
    requires forall k :: 0 <= k < |blk| ==> blk[k].g < PredictorCount
    requires forall k :: 0 <= k < row ==> BlockOk(cost, blk, TileCount(width), k)
    requires forall i :: 0 <= i < a.Length && TileBefore(i, width, 0, brow) ==>
      TileIndex(i, width) < row && deltas[i] == Residual(a[..], width, i, blk[TileIndex(i, width)].g)
    modifies deltas
    ensures |next| == |blk| && forall k :: 0 <= k < |next| ==> next[k].g < PredictorCount
    ensures forall k :: 0 <= k < row + TileCount(width) ==> BlockOk(cost, next, TileCount(width), k)
    ensures forall i :: 0 <= i < a.Length && TileBefore(i, width, 0, brow + 1) ==>
      TileIndex(i, width) < row + TileCount(width) && deltas[i] == Residual(a[..], width, i, next[TileIndex(i, width)].g)
  {
    var bw := TileCount(width);
    ghost var bh := TileCount(height);
    next := blk;
    var x := 0;
    while x < bw
      invariant 0 <= x <= bw && |next| == bw * bh && row + x <= bw * bh
      invariant forall k :: 0 <= k < |next| ==> next[k].g < PredictorCount
      invariant forall k :: 0 <= k < row + x ==> BlockOk(cost, next, bw, k)
      invariant forall i :: 0 <= i < a.Length && TileBefore(i, width, x, brow) ==>
        TileIndex(i, width) < row + x && deltas[i] == Residual(a[..], width, i, next[TileIndex(i, width)].g)
    {
      var best := ChoosePredictor(cost, x, brow);
      PredictTile(a, deltas, width, height, x, brow, best);
      Coords(x, brow, bw);
      ghost var before := next;
      next := next[row + x := Pixel(0, best, 0, 255)];
      forall k | 0 <= k < row + x + 1
        ensures BlockOk(cost, next, bw, k)
      {
        if k < row + x {
          assert BlockOk(cost, before, bw, k);
        }
      }
      forall i | 0 <= i < a.Length && TileBefore(i, width, x + 1, brow)
        ensures TileIndex(i, width) < row + x + 1
        ensures deltas[i] == Residual(a[..], width, i, next[TileIndex(i, width)].g)
      {
        if InTile(i, width, x, brow) {
          TileIndexIn(i, width, x, brow);
        } else {
          TileIndexBefore(i, width, height, x, brow);
        }
      }
      x := x + 1;
    }
    NextTileRow(width, height, brow);
  }

  /**
   * applyPredictTransform: each tile takes the first predictor of least cost,
   * and every pixel becomes its residual under its tile's predictor, computed
   * from the original pixels. Returns the tile bits, the tile grid size and the
   * entry of each tile, row by row.
   */
  method PredictTransform(a: array<Pixel>, width: nat, height: nat, cost: (nat, nat, nat) -> real)
    returns (tileBits: nat, bw: nat, bh: nat, blocks: seq<Pixel>)
    requires a.Length == width * height
    modifies a
    ensures tileBits == TileBits && bw == TileCount(width) && bh == TileCount(height)
    ensures |blocks| == bw * bh && forall k :: 0 <= k < |blocks| ==> BlockOk(cost, blocks, bw, k)
    ensures forall k :: 0 <= k < |blocks| ==> blocks[k].g < PredictorCount
    ensures a[..] == Residuals(old(a[..]), width, Modes(blocks, width, height))
  {
    tileBits := TileBits;
    bw := TileCount(width);
    bh := TileCount(height);
    var blk := seq(bw * bh, _ => Pixel(0, 0, 0, 0));
    var deltas := new Pixel[width * height](_ => Pixel(0, 0, 0, 0));
    ghost var orig := a[..];
    var y := 0;
    var row: nat := 0;
    while y < bh
      invariant 0 <= y <= bh && row == y * bw && |blk| == bw * bh && row <= bw * bh
      invariant forall k :: 0 <= k < |blk| ==> blk[k].g < PredictorCount
      invariant a[..] == orig
      invariant forall k :: 0 <= k < row ==> BlockOk(cost, blk, bw, k)
      invariant forall i :: 0 <= i < a.Length && TileBefore(i, width, 0, y) ==>
        TileIndex(i, width) < row && deltas[i] == Residual(orig, width, i, blk[TileIndex(i, width)].g)
    {
      MulLeft(y + 1, bh, bw);
      blk := PredictRow(a, deltas, width, height, y, row, blk, cost);
      assert row + bw == (y + 1) * bw;
      row := row + bw;
      y := y + 1;
    }
    AllTiles(width, height);
    forall i | 0 <= i < a.Length {
      a[i] := deltas[i];
    }
    blocks := blk;
    forall i | 0 <= i < a.Length
      ensures a[i] == Residual(orig, width, i, ModeAt(blocks, width, height, i))
    {
      assert TileBefore(i, width, 0, bh);
    }
  }
}

/**
 * The tile grid walked by the colour and predictor transforms. The image is
 * cut into tiles of 16x16 pixels (tile bits 4). Tiles are visited row of tiles
 * by row of tiles; inside a tile, column by column and, in a column, top to
 * bottom. Offsets are row-major: pixel (x, y) sits at y * width + x.
 */
module Tiles {
  import opened Bits

  const TileBits: nat := 4
  const TileSize: nat := 16

  /** The number of tiles that cover n pixels: (n + 16 - 1) / 16. */
  function TileCount(n: nat): (c: nat)
    ensures n <= c * TileSize
    ensures c > 0 ==> (c - 1) * TileSize < n
  {
    var c := (n + TileSize - 1) / TileSize;
    assert n + TileSize - 1 == c * TileSize + (n + TileSize - 1) % TileSize;
    c
  }

  /** The column of offset i. */
  function Col(i: nat, width: nat): nat {
    if width == 0 then 0 else i % width
  }

  /** The row of offset i. */
  function Row(i: nat, width: nat): nat {
    if width == 0 then 0 else i / width
  }

  /** The offset of pixel (x, y) has column x and row y. */
  lemma Coords(x: nat, y: nat, width: nat)
    requires x < width
    ensures Col(y * width + x, width) == x && Row(y * width + x, width) == y
  {
    DivModUnique(y * width + x, width, y, x);
  }

  /** An offset is its row times the width plus its column. */
  lemma Offset(i: nat, width: nat)
    requires width > 0
    ensures i == Row(i, width) * width + Col(i, width) && Col(i, width) < width
  {
  }

  /** The pixel (x, y) of a width x height image lies inside it. */
  lemma OffsetBound(x: nat, y: nat, width: nat, height: nat)
    requires x < width && y < height
    ensures y * width + x < width * height
  {
    MulLeft(y + 1, height, width);
  }

  /** Row y + 1 of a width x height grid starts width after row y and ends inside the grid. */
  lemma NextRow(y: nat, width: nat, height: nat)
    requires y < height
    ensures y * width + width == (y + 1) * width <= width * height
  {
    MulLeft(y + 1, height, width);
  }

  /** Every offset of a width x height image has a row below height. */
  lemma RowBound(i: nat, width: nat, height: nat)
    requires i < width * height
    ensures width > 0 && Row(i, width) < height
  {
    if width > 0 {
      DivBelow(i, width, height);
    }
  }

  /** The tile column and tile row of offset i. */
  function TileX(i: nat, width: nat): nat {
    Col(i, width) / TileSize
  }

  function TileY(i: nat, width: nat): nat {
    Row(i, width) / TileSize
  }

  /** Offset i lies in a tile visited before tile (bcol, brow). */
  predicate TileBefore(i: nat, width: nat, bcol: nat, brow: nat) {
    TileY(i, width) < brow || (TileY(i, width) == brow && TileX(i, width) < bcol)
  }

  /** Offset i lies in tile (bcol, brow). */
  predicate InTile(i: nat, width: nat, bcol: nat, brow: nat) {
    TileX(i, width) == bcol && TileY(i, width) == brow
  }

  /**
   * Offset i has been visited by the walk through tile (bcol, brow) when it is
   * at column tx, row ty: it lies in the tile left of column tx, or in column
   * tx above row ty.
   */
  predicate TileDone(i: nat, width: nat, bcol: nat, brow: nat, tx: nat, ty: nat) {
    InTile(i, width, bcol, brow) && (Col(i, width) < tx || (Col(i, width) == tx && Row(i, width) < ty))
  }

  /** The end (exclusive) of tile b across n pixels: min((b + 1) * 16, n). */
  function TileEnd(b: nat, n: nat): nat {
    if (b + 1) * TileSize < n then (b + 1) * TileSize else n
  }

  /** The tiles of the grid start inside the image. */
  lemma TileStart(b: nat, n: nat)
    requires b < TileCount(n)
    ensures b * TileSize < TileEnd(b, n)
  {
  }

  /** Visiting pixel (tx, ty) of tile (bcol, brow) adds exactly its offset to the visited ones. */
  lemma VisitPixel(width: nat, height: nat, bcol: nat, brow: nat, tx: nat, ty: nat)
    requires bcol * TileSize <= tx < TileEnd(bcol, width) && brow * TileSize <= ty < TileEnd(brow, height)
    ensures ty * width + tx < width * height
    ensures forall i :: 0 <= i < width * height ==>
      (TileDone(i, width, bcol, brow, tx, ty + 1) <==> TileDone(i, width, bcol, brow, tx, ty) || i == ty * width + tx)
    ensures InTile(ty * width + tx, width, bcol, brow)
    ensures !TileDone(ty * width + tx, width, bcol, brow, tx, ty)
  {
    OffsetBound(tx, ty, width, height);
    Coords(tx, ty, width);
    forall i | 0 <= i < width * height
      ensures TileDone(i, width, bcol, brow, tx, ty + 1) <==> TileDone(i, width, bcol, brow, tx, ty) || i == ty * width + tx
    {
      Offset(i, width);
    }
  }

  /** Finishing column tx of a tile moves the walk to the top of column tx + 1. */
  lemma NextColumn(width: nat, height: nat, bcol: nat, brow: nat, tx: nat)
    ensures forall i :: 0 <= i < width * height ==>
      (TileDone(i, width, bcol, brow, tx, TileEnd(brow, height)) <==> TileDone(i, width, bcol, brow, tx + 1, brow * TileSize))
  {
    forall i | 0 <= i < width * height
      ensures TileDone(i, width, bcol, brow, tx, TileEnd(brow, height)) <==> TileDone(i, width, bcol, brow, tx + 1, brow * TileSize)
    {
      RowBound(i, width, height);
    }
  }

  /** Finishing the last column of a tile has visited the whole tile. */
  lemma TileFinished(width: nat, height: nat, bcol: nat, brow: nat)
    ensures forall i :: 0 <= i < width * height ==>
      (TileDone(i, width, bcol, brow, TileEnd(bcol, width), brow * TileSize) <==> InTile(i, width, bcol, brow))
  {
    forall i | 0 <= i < width * height
      ensures TileDone(i, width, bcol, brow, TileEnd(bcol, width), brow * TileSize) <==> InTile(i, width, bcol, brow)
    {
      RowBound(i, width, height);
    }
  }

  /** Finishing a row of tiles moves the walk to the first tile of the next row. */
  lemma NextTileRow(width: nat, height: nat, brow: nat)
    ensures forall i :: 0 <= i < width * height ==>
      (TileBefore(i, width, TileCount(width), brow) <==> TileBefore(i, width, 0, brow + 1))
  {
    forall i | 0 <= i < width * height
      ensures TileBefore(i, width, TileCount(width), brow) <==> TileBefore(i, width, 0, brow + 1)
    {
      RowBound(i, width, height);
    }
  }

  /** After the last row of tiles every pixel has been visited. */
  lemma AllTiles(width: nat, height: nat)
    ensures forall i :: 0 <= i < width * height ==> TileBefore(i, width, 0, TileCount(height))
  {
    forall i | 0 <= i < width * height
      ensures TileBefore(i, width, 0, TileCount(height))
    {
      RowBound(i, width, height);
    }
  }

  /** The tile index of a pixel, y * bw + x for its tile (x, y), lies in the bw x bh grid of tiles. */
  lemma TileIndexBound(i: nat, width: nat, height: nat)
    requires i < width * height
    ensures TileY(i, width) * TileCount(width) + TileX(i, width) < TileCount(width) * TileCount(height)
  {
    RowBound(i, width, height);
    OffsetBound(TileX(i, width), TileY(i, width), TileCount(width), TileCount(height));
  }

  /** The index of the tile holding offset i, in the row-by-row list of tiles. */
  function TileIndex(i: nat, width: nat): nat {
    TileY(i, width) * TileCount(width) + TileX(i, width)
  }

  /** A pixel of a tile visited before tile (bcol, brow) has a smaller tile index. */
  lemma TileIndexBefore(i: nat, width: nat, height: nat, bcol: nat, brow: nat)
    requires i < width * height && bcol < TileCount(width)
    requires TileBefore(i, width, bcol, brow)
    ensures TileIndex(i, width) < brow * TileCount(width) + bcol
  {
    RowBound(i, width, height);
    TileXBound(i, width);
    GridBefore(TileX(i, width), TileY(i, width), TileCount(width), bcol, brow);
  }

  /** The tile column of a pixel lies in the grid. */
  lemma TileXBound(i: nat, width: nat)
    requires width > 0
    ensures TileX(i, width) < TileCount(width)
  {
    var c := Col(i, width);
    assert c < width <= TileSize * TileCount(width);
    DivBelow(c, TileSize, TileCount(width));
  }

  /** In a grid bw tiles wide, a tile visited before (bcol, brow) has a smaller row-by-row index. */
  lemma GridBefore(x: nat, y: nat, bw: nat, bcol: nat, brow: nat)
    requires x < bw && (y < brow || (y == brow && x < bcol))
    ensures y * bw + x < brow * bw + bcol
  {
    if y < brow {
      MulLeft(y + 1, brow, bw);
      assert (y + 1) * bw == y * bw + bw;
    }
  }

  /** The tile index of a pixel of tile (bcol, brow). */
  lemma TileIndexIn(i: nat, width: nat, bcol: nat, brow: nat)
    requires InTile(i, width, bcol, brow)
    ensures TileIndex(i, width) == brow * TileCount(width) + bcol
  {
  }
}

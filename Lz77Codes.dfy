/**
 * The small codes of writer.go's backward-reference coder: the prefix code
 * (a short code plus extra bits) used for match lengths and distances, the
 * colour hash used by the colour cache and the hash chain, and the 120
 * "plane codes" that name short two-dimensional distances. Each is paired
 * with the decoding rule of the WebP lossless bitstream format.
 */
module Lz77Codes {
  import opened WebPTypes
  import opened Bits

  // ---------------------------------------------------------------------
  // Prefix coding of lengths and distances
  // ---------------------------------------------------------------------

  /** A prefix code and the value of its extra bits. */
  datatype Prefixed = Prefixed(code: nat, extra: nat)

  /** How many times the halving loop of prefixEncodeCode halves rem before it is at most 3. */
  function PrefixShift(rem: nat): nat {
    if rem > 3 then 1 + PrefixShift(rem / 2) else 0
  }

  /** What the halving loop leaves of rem. */
  function PrefixTop(rem: nat): nat {
    if rem > 3 then PrefixTop(rem / 2) else rem
  }

  /** The halving loop leaves 2 or 3, the top two bits of rem, and rem lies in that bucket. */
  lemma {:induction false} PrefixTopBounds(rem: nat)
    requires rem >= 2
    ensures 2 <= PrefixTop(rem) <= 3
    ensures PrefixTop(rem) * Pow2(PrefixShift(rem)) <= rem < (PrefixTop(rem) + 1) * Pow2(PrefixShift(rem))
  {
    if rem > 3 {
      PrefixTopBounds(rem / 2);
      var t, p := PrefixTop(rem / 2), Pow2(PrefixShift(rem / 2));
      assert Pow2(PrefixShift(rem)) == 2 * p;
      assert t * (2 * p) == 2 * (t * p);
      assert (t + 1) * (2 * p) == 2 * ((t + 1) * p);
    }
  }

  /**
   * prefixEncodeCode: values up to 5 are sent as value - 1 with no extra
   * bits; larger ones as 2 + 2 * shift or 3 + 2 * shift, by the top two bits
   * of value - 1, with the rest of value - 1 in shift extra bits.
   */
  function PrefixEncodeCode(n: nat): Prefixed {
    if n <= 5 then Prefixed(if n >= 1 then n - 1 else 0, 0)
    else
      var shift, rem := PrefixShift(n - 1), PrefixTop(n - 1);
      PrefixTopBounds(n - 1);
      if rem == 2 then Prefixed(2 + 2 * shift, n - Shl(2, shift) - 1)
      else Prefixed(3 + 2 * shift, n - Shl(3, shift) - 1)
  }

  /** prefixEncodeBits: the number of extra bits that follow a prefix code. */
  function PrefixEncodeBits(prefix: nat): nat {
    if prefix < 4 then 0 else (prefix - 2) / 2
  }

  /** The decoder's rule for a prefix code and its extra bits. */
  function PrefixDecode(code: nat, extra: nat): (n: nat)
    ensures n >= 1
  {
    if code < 4 then code + 1
    else Shl(2 + code % 2, PrefixEncodeBits(code)) + extra + 1
  }

  /** Every positive value is sent as a code whose extra bits fit, and decodes back to itself. */
  lemma PrefixRoundTrip(n: nat)
    requires n >= 1
    ensures PrefixEncodeCode(n).extra < Pow2(PrefixEncodeBits(PrefixEncodeCode(n).code))
    ensures PrefixDecode(PrefixEncodeCode(n).code, PrefixEncodeCode(n).extra) == n
  {
    if n > 5 {
      PrefixTopBounds(n - 1);
      var shift, rem := PrefixShift(n - 1), PrefixTop(n - 1);
      assert shift >= 1;
      var c := rem + 2 * shift;
      assert PrefixEncodeCode(n).code == c;
      assert PrefixEncodeBits(c) == shift;
      assert c % 2 == rem % 2;
      assert (rem + 1) * Pow2(shift) == rem * Pow2(shift) + Pow2(shift);
    }
  }

  /** Below 2^k the halving loop halves at most k - 2 times. */
  lemma {:induction false} PrefixShiftBound(rem: nat, k: nat)
    requires k >= 2 && rem < Pow2(k)
    ensures PrefixShift(rem) <= k - 2
  {
    if rem > 3 {
      if k > 2 {
        PrefixShiftBound(rem / 2, k - 1);
      }
    }
  }

  /** A value n with n - 1 below 2^k gets a prefix code below 2 * k. */
  lemma PrefixCodeBound(n: nat, k: nat)
    requires n >= 1 && k >= 2 && n - 1 < Pow2(k)
    ensures PrefixEncodeCode(n).code < 2 * k
  {
    assert Pow2(2) == 4;
    if n > 5 {
      PrefixShiftBound(n - 1, k);
    } else if k == 2 {
      assert n - 1 < 4;
    }
  }

  /** A match of at most 4096 pixels has a length prefix below 24, the size of the length part of the green alphabet. */
  lemma LengthPrefixBound(n: nat)
    requires 1 <= n <= 4096
    ensures PrefixEncodeCode(n).code < 24
  {
    Pow2Add(8, 4);
    Pow2Byte();
    assert Pow2(4) == 16;
    PrefixCodeBound(n, 12);
  }

  /** A distance code up to 2^20 has a prefix below 40, the size of the distance alphabet. */
  lemma DistancePrefixBound(n: nat)
    requires 1 <= n <= Pow2(20)
    ensures PrefixEncodeCode(n).code < 40
  {
    PrefixCodeBound(n, 20);
  }

  // ---------------------------------------------------------------------
  // The colour hash
  // ---------------------------------------------------------------------

  const HashMultiplier: nat := 0x1e35a7bd
  const Two32: nat := 0x1_0000_0000

  lemma Pow2Of32()
    ensures Pow2(32) == Two32 && Pow2(16) == 0x1_0000
  {
    Pow2Byte();
    Pow2Add(8, 8);
    Pow2Add(16, 16);
  }

  function Min(a: nat, b: nat): nat {
    if a < b then a else b
  }

  /** uint32(A) << 24 | uint32(R) << 16 | uint32(G) << 8 | uint32(B): the fields do not overlap, so | is +. */
  function ColorKey(c: Pixel): (k: nat)
    ensures k < Two32
  {
    c.a * 0x100_0000 + c.r * 0x1_0000 + c.g * 0x100 + c.b
  }

  /** uint32 multiplication, which wraps modulo 2^32. */
  function Mul32(a: nat, b: nat): (r: nat)
    ensures r < Two32
  {
    (a * b) % Two32
  }

  /**
   * hash: the key times 0x1e35a7bd modulo 2^32, keeping the top
   * min(shifts, 32) bits. A shift by 32, for shifts = 0, gives 0 in Go.
   */
  function Hash(c: Pixel, shifts: nat): nat {
    Quot(Mul32(ColorKey(c), HashMultiplier), Pow2(32 - Min(shifts, 32)))
  }

  /** hash(c, k) < 2^k (for k <= 32): it indexes a table of 2^k entries. */
  lemma HashBound(c: Pixel, k: nat)
    ensures Hash(c, k) < Pow2(Min(k, 32))
  {
    var m := Min(k, 32);
    Pow2Of32();
    Pow2Add(32 - m, m);
    DivBelow(Mul32(ColorKey(c), HashMultiplier), Pow2(32 - m), Pow2(m));
  }

  /** Without a colour cache (shifts = 0) every colour hashes to 0. */
  lemma HashOfZeroBits(c: Pixel)
    ensures Hash(c, 0) == 0
  {
    HashBound(c, 0);
  }

  const ChainBits: nat := 14
  const ChainMultiplier1: nat := 0x9e3779b9
  const ChainMultiplier2: nat := 0x85ebca6b

  /**
   * The hash-chain bucket of the three pixels from position i: the 14-bit
   * hashes of the three combined by XOR with two odd multipliers, modulo 2^14.
   */
  function ChainHash(p0: Pixel, p1: Pixel, p2: Pixel): (h: nat)
    ensures h < Pow2(ChainBits)
  {
    HashBound(p0, ChainBits);
    Pow2Of32();
    Pow2Monotone(ChainBits, 32);
    var a := Hash(p0, ChainBits) as bv32;
    var b := Mul32(Hash(p1, ChainBits), ChainMultiplier1) as bv32;
    var c := Mul32(Hash(p2, ChainBits), ChainMultiplier2) as bv32;
    assert Pow2(ChainBits) == 0x4000 by {
      Pow2Byte();
      Pow2Add(8, 6);
      assert Pow2(6) == 64;
    }
    ((a ^ b ^ c) as int) % 0x4000
  }

  // ---------------------------------------------------------------------
  // Plane codes for two-dimensional distances
  // ---------------------------------------------------------------------

  /**
   * The encoder's inverse of the distance map, a flat table of 8 rows of 16:
   * entry y * 16 + 8 - x holds the index of the plane code for column offset
   * x and row offset y, and 255 where there is none. (The last case is entry
   * 127.)
   */
  function Distances(idx: nat): nat
    requires idx < 128
  {
    match idx
      case 0 => 96 case 1 => 73 case 2 => 55 case 3 => 39 case 4 => 23 case 5 => 13 case 6 => 5 case 7 => 1
      case 8 => 255 case 9 => 255 case 10 => 255 case 11 => 255 case 12 => 255 case 13 => 255 case 14 => 255 case 15 => 255
      case 16 => 101 case 17 => 78 case 18 => 58 case 19 => 42 case 20 => 26 case 21 => 16 case 22 => 8 case 23 => 2
      case 24 => 0 case 25 => 3 case 26 => 9 case 27 => 17 case 28 => 27 case 29 => 43 case 30 => 59 case 31 => 79
      case 32 => 102 case 33 => 86 case 34 => 62 case 35 => 46 case 36 => 32 case 37 => 20 case 38 => 10 case 39 => 6
      case 40 => 4 case 41 => 7 case 42 => 11 case 43 => 21 case 44 => 33 case 45 => 47 case 46 => 63 case 47 => 87
      case 48 => 105 case 49 => 90 case 50 => 70 case 51 => 52 case 52 => 37 case 53 => 28 case 54 => 18 case 55 => 14
      case 56 => 12 case 57 => 15 case 58 => 19 case 59 => 29 case 60 => 38 case 61 => 53 case 62 => 71 case 63 => 91
      case 64 => 110 case 65 => 99 case 66 => 82 case 67 => 66 case 68 => 48 case 69 => 35 case 70 => 30 case 71 => 24
      case 72 => 22 case 73 => 25 case 74 => 31 case 75 => 36 case 76 => 49 case 77 => 67 case 78 => 83 case 79 => 100
      case 80 => 115 case 81 => 108 case 82 => 94 case 83 => 76 case 84 => 64 case 85 => 50 case 86 => 44 case 87 => 40
      case 88 => 34 case 89 => 41 case 90 => 45 case 91 => 51 case 92 => 65 case 93 => 77 case 94 => 95 case 95 => 109
      case 96 => 118 case 97 => 113 case 98 => 103 case 99 => 92 case 100 => 80 case 101 => 68 case 102 => 60 case 103 => 56
      case 104 => 54 case 105 => 57 case 106 => 61 case 107 => 69 case 108 => 81 case 109 => 93 case 110 => 104 case 111 => 114
      case 112 => 119 case 113 => 116 case 114 => 111 case 115 => 106 case 116 => 97 case 117 => 88 case 118 => 84 case 119 => 74
      case 120 => 72 case 121 => 75 case 122 => 85 case 123 => 89 case 124 => 98 case 125 => 107 case 126 => 112 case _ => 117
  }

  /** A column offset and a row offset. */
  datatype Offset2 = Offset2(dx: int, dy: int)

  /**
   * The distance map of the WebP lossless bitstream format (section 5.2.2 of
   * the WebP Lossless Bitstream Specification): plane code c + 1, for c below
   * 120, stands for the pixel dx columns back and dy rows up. (The last case
   * is entry 119.)
   */
  function DistanceMap(c: nat): Offset2
    requires c < 120
  {
    match c
      case 0 => Offset2(0, 1) case 1 => Offset2(1, 0) case 2 => Offset2(1, 1) case 3 => Offset2(-1, 1) case 4 => Offset2(0, 2) case 5 => Offset2(2, 0)
      case 6 => Offset2(1, 2) case 7 => Offset2(-1, 2) case 8 => Offset2(2, 1) case 9 => Offset2(-2, 1) case 10 => Offset2(2, 2) case 11 => Offset2(-2, 2)
      case 12 => Offset2(0, 3) case 13 => Offset2(3, 0) case 14 => Offset2(1, 3) case 15 => Offset2(-1, 3) case 16 => Offset2(3, 1) case 17 => Offset2(-3, 1)
      case 18 => Offset2(2, 3) case 19 => Offset2(-2, 3) case 20 => Offset2(3, 2) case 21 => Offset2(-3, 2) case 22 => Offset2(0, 4) case 23 => Offset2(4, 0)
      case 24 => Offset2(1, 4) case 25 => Offset2(-1, 4) case 26 => Offset2(4, 1) case 27 => Offset2(-4, 1) case 28 => Offset2(3, 3) case 29 => Offset2(-3, 3)
      case 30 => Offset2(2, 4) case 31 => Offset2(-2, 4) case 32 => Offset2(4, 2) case 33 => Offset2(-4, 2) case 34 => Offset2(0, 5) case 35 => Offset2(3, 4)
      case 36 => Offset2(-3, 4) case 37 => Offset2(4, 3) case 38 => Offset2(-4, 3) case 39 => Offset2(5, 0) case 40 => Offset2(1, 5) case 41 => Offset2(-1, 5)
      case 42 => Offset2(5, 1) case 43 => Offset2(-5, 1) case 44 => Offset2(2, 5) case 45 => Offset2(-2, 5) case 46 => Offset2(5, 2) case 47 => Offset2(-5, 2)
      case 48 => Offset2(4, 4) case 49 => Offset2(-4, 4) case 50 => Offset2(3, 5) case 51 => Offset2(-3, 5) case 52 => Offset2(5, 3) case 53 => Offset2(-5, 3)
      case 54 => Offset2(0, 6) case 55 => Offset2(6, 0) case 56 => Offset2(1, 6) case 57 => Offset2(-1, 6) case 58 => Offset2(6, 1) case 59 => Offset2(-6, 1)
      case 60 => Offset2(2, 6) case 61 => Offset2(-2, 6) case 62 => Offset2(6, 2) case 63 => Offset2(-6, 2) case 64 => Offset2(4, 5) case 65 => Offset2(-4, 5)
      case 66 => Offset2(5, 4) case 67 => Offset2(-5, 4) case 68 => Offset2(3, 6) case 69 => Offset2(-3, 6) case 70 => Offset2(6, 3) case 71 => Offset2(-6, 3)
      case 72 => Offset2(0, 7) case 73 => Offset2(7, 0) case 74 => Offset2(1, 7) case 75 => Offset2(-1, 7) case 76 => Offset2(5, 5) case 77 => Offset2(-5, 5)
      case 78 => Offset2(7, 1) case 79 => Offset2(-7, 1) case 80 => Offset2(4, 6) case 81 => Offset2(-4, 6) case 82 => Offset2(6, 4) case 83 => Offset2(-6, 4)
      case 84 => Offset2(2, 7) case 85 => Offset2(-2, 7) case 86 => Offset2(7, 2) case 87 => Offset2(-7, 2) case 88 => Offset2(3, 7) case 89 => Offset2(-3, 7)
      case 90 => Offset2(7, 3) case 91 => Offset2(-7, 3) case 92 => Offset2(5, 6) case 93 => Offset2(-5, 6) case 94 => Offset2(6, 5) case 95 => Offset2(-6, 5)
      case 96 => Offset2(8, 0) case 97 => Offset2(4, 7) case 98 => Offset2(-4, 7) case 99 => Offset2(7, 4) case 100 => Offset2(-7, 4) case 101 => Offset2(8, 1)
      case 102 => Offset2(8, 2) case 103 => Offset2(6, 6) case 104 => Offset2(-6, 6) case 105 => Offset2(8, 3) case 106 => Offset2(5, 7) case 107 => Offset2(-5, 7)
      case 108 => Offset2(7, 5) case 109 => Offset2(-7, 5) case 110 => Offset2(8, 4) case 111 => Offset2(6, 7) case 112 => Offset2(-6, 7) case 113 => Offset2(7, 6)
      case 114 => Offset2(-7, 6) case 115 => Offset2(8, 5) case 116 => Offset2(7, 7) case 117 => Offset2(-7, 7) case 118 => Offset2(8, 6) case _ => Offset2(8, 7)
  }

  /** Plane code d stands for column offset dx and row offset dy. */
  predicate Names(d: nat, dx: int, dy: int) {
    d < 120 && DistanceMap(d) == Offset2(dx, dy)
  }

  /** Entry c of row y of the encoder's table names the plane code of its own offsets. */
  predicate CellAgrees(y: nat, c: nat)
    requires y < 8 && c < 16
  {
    Names(Distances(y * 16 + c), 8 - c, y)
  }

  /** Row 0 has entries only for column offsets 8 down to 1; the other eight are 255. */
  lemma Row0Agrees()
    ensures forall c :: 0 <= c < 8 ==> CellAgrees(0, c)
    ensures forall c :: 8 <= c < 16 ==> Distances(c) == 255
  {
  }

  lemma Row1Agrees()
    ensures forall c :: 0 <= c < 16 ==> CellAgrees(1, c)
  {
  }

  lemma Row2Agrees()
    ensures forall c :: 0 <= c < 16 ==> CellAgrees(2, c)
  {
  }

  lemma Row3Agrees()
    ensures forall c :: 0 <= c < 16 ==> CellAgrees(3, c)
  {
  }

  lemma Row4Agrees()
    ensures forall c :: 0 <= c < 16 ==> CellAgrees(4, c)
  {
  }

  lemma Row5Agrees()
    ensures forall c :: 0 <= c < 16 ==> CellAgrees(5, c)
  {
  }

  lemma Row6Agrees()
    ensures forall c :: 0 <= c < 16 ==> CellAgrees(6, c)
  {
  }

  lemma Row7Agrees()
    ensures forall c :: 0 <= c < 16 ==> CellAgrees(7, c)
  {
  }

  /** The entry of row y for column c agrees with the distance map. */
  lemma CellOf(y: nat, c: nat)
    requires y < 8 && c < 16 && (y > 0 || c < 8)
    ensures CellAgrees(y, c)
  {
    if y == 0 {
      Row0Agrees();
    } else if y == 1 {
      Row1Agrees();
    } else if y == 2 {
      Row2Agrees();
    } else if y == 3 {
      Row3Agrees();
    } else if y == 4 {
      Row4Agrees();
    } else if y == 5 {
      Row5Agrees();
    } else if y == 6 {
      Row6Agrees();
    } else {
      Row7Agrees();
    }
  }

  /**
   * The decoder's rule for a distance code: codes above 120 are the distance
   * plus 120; the others name an offset of the distance map, whose distance
   * dx + dy * width is taken to be at least 1.
   */
  function PlaneDecode(code: nat, width: nat): int
    requires code >= 1
  {
    if code > 120 then code - 120
    else
      var o := DistanceMap(code - 1);
      var d := o.dx + o.dy * width;
      if d >= 1 then d else 1
  }

  /** The plane code d + 1 of an entry naming offset (dx, dy) decodes to dx + dy * width, or 1 when that is smaller. */
  lemma DecodeNamed(d: nat, width: nat, dx: int, dy: int)
    requires Names(d, dx, dy)
    ensures PlaneDecode(d + 1, width) == if dx + dy * width >= 1 then dx + dy * width else 1
  {
  }

  /** The code for x columns back and y rows up, other than (0, 0), is a plane code that decodes to x + y * width. */
  lemma NearDecodes(x: nat, y: nat, width: nat)
    requires x <= 8 && y < 8 && (x > 0 || y > 0) && width >= 1
    ensures Distances(y * 16 + (8 - x)) < 120
    ensures PlaneDecode(Distances(y * 16 + (8 - x)) + 1, width) == x + y * width
  {
    CellOf(y, 8 - x);
    DecodeNamed(Distances(y * 16 + (8 - x)), width, 8 - (8 - x), y);
    MulLeft(if y > 0 then 1 else 0, y, width);
  }

  /** The code for k columns right and y rows up is a plane code that decodes to y * width - k. */
  lemma RightDecodes(k: nat, y: nat, width: nat)
    requires 1 <= k < 8 && 1 <= y < 8 && k < width
    ensures Distances(y * 16 + (8 + k)) < 120
    ensures PlaneDecode(Distances(y * 16 + (8 + k)) + 1, width) == y * width - k
  {
    CellOf(y, 8 + k);
    DecodeNamed(Distances(y * 16 + (8 + k)), width, 8 - (8 + k), y);
    MulLeft(1, y, width);
  }

  /** NearDecodes, for the code held apart from the table lookup it came from. */
  lemma NearCode(x: nat, y: nat, width: nat, code: nat)
    requires x <= 8 && y < 8 && (x > 0 || y > 0) && width >= 1
    requires code == Distances(y * 16 + (8 - x)) + 1
    ensures 1 <= code <= 120
    ensures PlaneDecode(code, width) == x + y * width
  {
    NearDecodes(x, y, width);
  }

  /** RightDecodes, for the code held apart from the table lookup it came from. */
  lemma RightCode(k: nat, y: nat, width: nat, code: nat)
    requires 1 <= k < 8 && 1 <= y < 8 && k < width
    requires code == Distances(y * 16 + (8 + k)) + 1
    ensures 1 <= code <= 120
    ensures PlaneDecode(code, width) == y * width - k
  {
    RightDecodes(k, y, width);
  }

  /** The column offset writer.go computes for a distance, dis - (dis / width) * width, lies in 0 .. width - 1. */
  lemma SplitDistance(dis: nat, width: nat)
    requires width >= 1
    ensures 0 <= dis - (dis / width) * width < width
  {
  }

  /** (y + 1) rows of width pixels are y rows and one more row. */
  lemma MulSucc(y: int, width: int)
    ensures (y + 1) * width == y * width + width
  {
  }

  /**
   * The distance code writer.go sends for a backward distance dis in an image
   * width pixels wide: when the source pixel lies at most 8 columns left and 7
   * rows up, or 1 to 7 columns right and 1 to 7 rows up, the plane code the
   * distance table gives for that offset; otherwise dis + 120. Whichever it
   * is, the decoder's rule turns it back into dis.
   */
  method DistanceCode(dis: nat, width: nat) returns (code: nat)
    requires dis >= 1 && width >= 1
    ensures 1 <= code <= dis + 120
    ensures PlaneDecode(code, width) == dis
  {
    var y := dis / width;
    var x := dis - y * width;
    SplitDistance(dis, width);
    code := DistanceCodeAt(x, y, width, dis);
  }

  /** DistanceCode for the distance dis == y * width + x, split into rows y and columns x. */
  method DistanceCodeAt(x: nat, y: nat, width: nat, dis: nat) returns (code: nat)
    requires x < width && dis == y * width + x && dis >= 1
    ensures 1 <= code <= dis + 120
    ensures PlaneDecode(code, width) == dis
  {
    if x <= 8 && y < 8 {
      code := Distances(y * 16 + (8 - x)) + 1;
      NearCode(x, y, width, code);
    } else if x > width - 8 && y < 7 {
      var k, up := width - x, y + 1;
      code := Distances(up * 16 + (8 + k)) + 1;
      RightCode(k, up, width, code);
      MulSucc(y, width);
    } else {
      code := dis + 120;
    }
  }
}

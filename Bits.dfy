/**
 * Bit lists and the arithmetic facts the bit writer and the Huffman coder rely on.
 * A bit list is read least significant bit first, the order in which VP8L
 * packs values into bytes.
 */
module Bits {
  import opened WebPTypes

  function Pow2(n: nat): (r: nat)
    ensures r >= 1
  {
    if n == 0 then 1 else 2 * Pow2(n - 1)
  }

  lemma {:induction false} Pow2Add(a: nat, b: nat)
    ensures Pow2(a + b) == Pow2(a) * Pow2(b)
  {
    if a > 0 {
      Pow2Add(a - 1, b);
      assert Pow2(a + b) == 2 * Pow2(a - 1 + b);
    }
  }

  lemma {:induction false} Pow2Monotone(a: nat, b: nat)
    requires a <= b
    ensures Pow2(a) <= Pow2(b)
  {
    if a < b {
      Pow2Monotone(a, b - 1);
    }
  }

  lemma MulAtLeast(k: int, d: int)
    requires k >= 1 && d > 0
    ensures k * d >= d
  {
    assert k * d == (k - 1) * d + d;
    assert (k - 1) * d >= 0;
  }

  /** Euclidean division is determined by any quotient/remainder pair. */
  lemma DivModUnique(x: int, d: int, q: int, r: int)
    requires d > 0 && 0 <= r < d && x == q * d + r
    ensures x / d == q && x % d == r
  {
    var q0, r0 := x / d, x % d;
    var k := q - q0;
    assert k * d == r0 - r by {
      assert q * d + r == q0 * d + r0;
      assert q * d - q0 * d == (q - q0) * d;
    }
    if k >= 1 {
      MulAtLeast(k, d);
    } else if k <= -1 {
      assert (-k) * d == r - r0;
      MulAtLeast(-k, d);
    }
  }

  /** The low n bits of v, least significant first. */
  function LsbBits(v: nat, n: nat): (bs: seq<bool>)
    ensures |bs| == n
  {
    if n == 0 then [] else [v % 2 == 1] + LsbBits(v / 2, n - 1)
  }

  /** The number whose low |bs| bits are bs. */
  function FromBits(bs: seq<bool>): (v: nat)
    ensures v < Pow2(|bs|)
  {
    if bs == [] then 0 else (if bs[0] then 1 else 0) + 2 * FromBits(bs[1..])
  }

  function Zeros(n: nat): (bs: seq<bool>)
    ensures |bs| == n && forall i :: 0 <= i < n ==> !bs[i]
  {
    seq(n, _ => false)
  }

  lemma ZerosAdd(a: nat, b: nat)
    ensures Zeros(a) + Zeros(b) == Zeros(a + b)
  {
    assert forall i :: 0 <= i < a + b ==> (Zeros(a) + Zeros(b))[i] == Zeros(a + b)[i];
  }

  function Reverse<T>(s: seq<T>): (r: seq<T>)
    ensures |r| == |s|
    ensures forall i :: 0 <= i < |s| ==> r[i] == s[|s| - 1 - i]
  {
    if s == [] then [] else Reverse(s[1..]) + [s[0]]
  }

  lemma ReverseReverse<T>(s: seq<T>)
    ensures Reverse(Reverse(s)) == s
  {
  }

  /** The low n bits of v, most significant first: how a canonical code is read. */
  function MsbBits(v: nat, n: nat): (bs: seq<bool>)
    ensures |bs| == n
  {
    if n == 0 then [] else MsbBits(v / 2, n - 1) + [v % 2 == 1]
  }

  /** The most significant bits first are the least significant bits first, reversed. */
  lemma {:induction false} MsbIsReversedLsb(v: nat, n: nat)
    ensures MsbBits(v, n) == Reverse(LsbBits(v, n))
  {
    if n > 0 {
      MsbIsReversedLsb(v / 2, n - 1);
      var bs := LsbBits(v, n);
      assert bs[1..] == LsbBits(v / 2, n - 1);
    }
  }

  /**
   * The low d bits of v in the opposite order, as a number: the value the bit
   * writer emits for a canonical code of length d.
   */
  function ReverseBits(v: nat, d: nat): (r: nat)
    ensures r < Pow2(d)
  {
    if d == 0 then 0 else (v % 2) * Pow2(d - 1) + ReverseBits(v / 2, d - 1)
  }

  /** One step of the reversal loop: move the lowest bit of v to the bottom of r. */
  lemma ReverseBitsStep(r: nat, v: nat, k: nat)
    requires k >= 1
    ensures r * Pow2(k) + ReverseBits(v, k) == (r * 2 + v % 2) * Pow2(k - 1) + ReverseBits(v / 2, k - 1)
  {
    var p := Pow2(k - 1);
    assert Pow2(k) == 2 * p;
    assert r * (2 * p) == (r * 2) * p;
    assert (r * 2 + v % 2) * p == (r * 2) * p + (v % 2) * p;
  }

  /** The bits of an 8-bit byte sequence, each byte least significant bit first. */
  function BytesToBits(bs: seq<byte>): (r: seq<bool>)
    ensures |r| == 8 * |bs|
  {
    if bs == [] then [] else BytesToBits(bs[..|bs| - 1]) + LsbBits(bs[|bs| - 1], 8)
  }

  lemma BytesToBitsAppend(bs: seq<byte>, b: byte)
    ensures BytesToBits(bs + [b]) == BytesToBits(bs) + LsbBits(b, 8)
  {
    assert (bs + [b])[..|bs|] == bs;
  }

  lemma {:induction false} BytesToBitsConcat(xs: seq<byte>, ys: seq<byte>)
    ensures BytesToBits(xs + ys) == BytesToBits(xs) + BytesToBits(ys)
    decreases |ys|
  {
    if ys == [] {
      assert xs + ys == xs;
    } else {
      var ys' := ys[..|ys| - 1];
      var y := ys[|ys| - 1];
      SnocSplit(xs, ys);
      BytesToBitsConcat(xs, ys');
      BytesToBitsAppend(xs + ys', y);
      BytesToBitsAppend(ys', y);
      ConcatAssoc(BytesToBits(xs), BytesToBits(ys'), LsbBits(y, 8));
    }
  }

  lemma SnocSplit<T>(xs: seq<T>, ys: seq<T>)
    requires ys != []
    ensures xs + ys == (xs + ys[..|ys| - 1]) + [ys[|ys| - 1]]
    ensures ys == ys[..|ys| - 1] + [ys[|ys| - 1]]
  {
  }

  lemma SnocParts<T>(s: seq<T>, x: T)
    ensures (s + [x])[..|s|] == s && (s + [x])[|s|] == x
  {
  }

  lemma PrefixOfPrefix<T>(s: seq<T>, i: nat, j: nat)
    requires i <= j <= |s|
    ensures s[..j][..i] == s[..i] && s[..|s|] == s
  {
  }

  lemma PrefixAndRest<T>(a: seq<T>, b: seq<T>)
    ensures (a + b)[..|a|] == a && (a + b)[|a|..] == b && b[..|b|] == b
  {
  }

  /** The five four-element pieces of a 20-element sequence. */
  lemma Quads<T>(a: seq<T>, b: seq<T>, c: seq<T>, d: seq<T>, e: seq<T>)
    requires |a| == |b| == |c| == |d| == |e| == 4
    ensures var h := a + b + c + d + e;
      h[..4] == a && h[4..8] == b && h[8..12] == c && h[12..16] == d && h[16..20] == e
  {
  }

  /** Three appends in turn append their concatenation. */
  lemma AppendThree<T>(s: seq<T>, a: seq<T>, b: seq<T>, c: seq<T>)
    ensures s + a + b + c == s + (a + b + c)
  {
  }

  /** Four appends in turn append their concatenation. */
  lemma AppendFour<T>(s: seq<T>, a: seq<T>, b: seq<T>, c: seq<T>, d: seq<T>)
    ensures s + a + b + c + d == s + (a + b + c + d)
  {
  }

  /** Five appends in turn append their concatenation. */
  lemma AppendFive<T>(s: seq<T>, a: seq<T>, b: seq<T>, c: seq<T>, d: seq<T>, e: seq<T>)
    ensures s + a + b + c + d + e == s + (a + b + c + d + e)
  {
  }

  /** Six appends in turn append their concatenation. */
  lemma AppendSix<T>(s: seq<T>, a: seq<T>, b: seq<T>, c: seq<T>, d: seq<T>, e: seq<T>, f: seq<T>)
    ensures s + a + b + c + d + e + f == s + (a + b + c + d + e + f)
  {
  }

  lemma ConcatAssoc<T>(a: seq<T>, b: seq<T>, c: seq<T>)
    ensures (a + b) + c == a + (b + c)
  {
  }

  /** Halving commutes with reduction modulo an even modulus. */
  lemma HalveMod(v: nat, p: nat)
    requires p >= 1
    ensures v % (2 * p) == 2 * ((v / 2) % p) + v % 2
    ensures v / (2 * p) == (v / 2) / p
    ensures (v % (2 * p)) % 2 == v % 2 && (v % (2 * p)) / 2 == (v / 2) % p
  {
    var q, s := (v / 2) / p, (v / 2) % p;
    assert v / 2 == p * q + s;
    assert v == (2 * p) * q + (2 * s + v % 2);
    DivModUnique(v, 2 * p, q, 2 * s + v % 2);
    DivModUnique(2 * s + v % 2, 2, s, v % 2);
  }

  /** Non-negative quotient (the solver proves v / d >= 0 cheaply only in isolation). */
  function Quot(v: nat, d: nat): nat
    requires d > 0
  {
    v / d
  }

  /** Splitting v at bit a: the low a bits come first, then the rest. */
  lemma {:induction false} LsbBitsSplit(v: nat, a: nat, b: nat)
    ensures LsbBits(v, a + b) == LsbBits(v % Pow2(a), a) + LsbBits(Quot(v, Pow2(a)), b)
  {
    if a == 0 {
      assert Pow2(0) == 1;
      assert v % 1 == 0 && v / 1 == v;
      assert LsbBits(v % 1, 0) == [];
    } else {
      var p := Pow2(a - 1);
      assert Pow2(a) == 2 * p;
      LsbBitsSplit(v / 2, a - 1, b);
      HalveMod(v, p);
      var m := v % (2 * p);
      var lo := LsbBits((v / 2) % p, a - 1);
      var hi := LsbBits(Quot(v / 2, p), b);
      assert LsbBits(v, a + b) == [v % 2 == 1] + (lo + hi);
      assert LsbBits(m, a) == [v % 2 == 1] + lo;
      assert Quot(v, 2 * p) == Quot(v / 2, p);
      assert [v % 2 == 1] + (lo + hi) == ([v % 2 == 1] + lo) + hi;
    }
  }

  /** A value placed above s pending bits stays within s + n bits. */
  lemma ShiftedBelow(lo: nat, hi: nat, s: nat, n: nat)
    requires lo < Pow2(s) && hi < Pow2(n)
    ensures lo + hi * Pow2(s) < Pow2(s + n)
  {
    Pow2Add(s, n);
    BelowProduct(lo, hi, Pow2(s), Pow2(n));
  }

  /** Two digits below p and q form a number below p * q. */
  lemma BelowProduct(lo: nat, hi: nat, p: nat, q: nat)
    requires lo < p && hi < q
    ensures lo + hi * p < p * q
  {
    MulLeft(hi, q - 1, p);
    assert (q - 1) * p == q * p - p;
  }

  lemma MulLeft(a: nat, b: nat, c: nat)
    requires a <= b
    ensures a * c <= b * c
  {
    assert b * c == a * c + (b - a) * c;
  }

  lemma DivBelow(v: nat, d: nat, q: nat)
    requires d > 0 && v < d * q
    ensures v / d < q
  {
    var k := v / d;
    assert v == k * d + v % d;
    if k >= q {
      MulLeft(q, k, d);
      assert false;
    }
  }

  lemma Pow2Byte()
    ensures Pow2(8) == 256
  {
  }

  /** Taking the lowest byte off a value of size >= 8 bits. */
  lemma FlushByte(bytes: seq<byte>, v: nat, size: nat)
    requires size >= 8 && v < Pow2(size)
    ensures v / 256 < Pow2(size - 8)
    ensures BytesToBits(bytes + [v % 256]) + LsbBits(v / 256, size - 8) == BytesToBits(bytes) + LsbBits(v, size)
  {
    Pow2Byte();
    Pow2Add(8, size - 8);
    DivBelow(v, 256, Pow2(size - 8));
    FlushBits(bytes, v, size - 8);
  }

  lemma FlushBits(bytes: seq<byte>, v: nat, rest: nat)
    ensures BytesToBits(bytes + [v % 256]) + LsbBits(v / 256, rest) == BytesToBits(bytes) + LsbBits(v, 8 + rest)
  {
    Pow2Byte();
    LsbBitsSplit(v, 8, rest);
    BytesToBitsAppend(bytes, v % 256);
  }

  /** Zero-padding the s bits of v out to n bits. */
  lemma PadBits(v: nat, s: nat, n: nat)
    requires s <= n && v < Pow2(s)
    ensures LsbBits(v, n) == LsbBits(v, s) + Zeros(n - s)
  {
    LsbBitsAdd(v, 0, s, n - s);
    LsbBitsOfZero(n - s);
    assert v + 0 * Pow2(s) == v;
  }

  /** v << s. */
  function Shl(v: nat, s: nat): nat {
    v * Pow2(s)
  }

  /** Appending n bits of value above s pending bits, as the bit writer's OR does. */
  lemma AppendPending(bytes: seq<byte>, pending: nat, s: nat, value: nat, n: nat)
    requires pending < Pow2(s) && value < Pow2(n)
    ensures pending + Shl(value, s) < Pow2(s + n)
    ensures BytesToBits(bytes) + LsbBits(pending + Shl(value, s), s + n)
         == (BytesToBits(bytes) + LsbBits(pending, s)) + LsbBits(value, n)
  {
    LsbBitsAdd(pending, value, s, n);
    ShiftedBelow(pending, value, s, n);
  }

  /** Rounding s < 8 pending bits up to a byte boundary pads them with zeros. */
  lemma AlignPending(bytes: seq<byte>, pending: nat, s: nat)
    requires s < 8 && pending < Pow2(s)
    ensures (s + 7) / 8 * 8 == (if s == 0 then 0 else 8)
    ensures (8 * |bytes| + s + 7) / 8 == |bytes| + (if s == 0 then 0 else 1)
    ensures pending < Pow2(if s == 0 then 0 else 8)
    ensures BytesToBits(bytes) + LsbBits(pending, if s == 0 then 0 else 8)
         == (BytesToBits(bytes) + LsbBits(pending, s)) + Zeros((8 - s) % 8)
  {
    RoundUpBytes(|bytes|, s);
    if s > 0 {
      assert (8 - s) % 8 == 8 - s;
      PadBits(pending, s, 8);
      Pow2Monotone(s, 8);
    } else {
      assert Zeros(0) == [];
    }
  }

  /** (8b + s + 7) / 8 for s < 8: one more byte exactly when bits are pending. */
  lemma RoundUpBytes(b: nat, s: nat)
    requires s < 8
    ensures (8 * b + s + 7) / 8 == b + (if s == 0 then 0 else 1)
    ensures (s + 7) / 8 * 8 == (if s == 0 then 0 else 8)
  {
    var extra := if s == 0 then 0 else 1;
    DivModUnique(8 * b + s + 7, 8, b + extra, 8 * b + s + 7 - 8 * (b + extra));
    DivModUnique(s + 7, 8, extra, s + 7 - 8 * extra);
  }

  /** Placing hi above the a bits of lo concatenates their bit lists. */
  lemma LsbBitsAdd(lo: nat, hi: nat, a: nat, b: nat)
    requires lo < Pow2(a)
    ensures LsbBits(lo + hi * Pow2(a), a + b) == LsbBits(lo, a) + LsbBits(hi, b)
  {
    var v := lo + hi * Pow2(a);
    DivModUnique(v, Pow2(a), hi, lo);
    assert Quot(v, Pow2(a)) == hi;
    LsbBitsSplit(v, a, b);
  }

  lemma {:induction false} LsbBitsOfZero(n: nat)
    ensures LsbBits(0, n) == Zeros(n)
  {
    if n > 0 {
      LsbBitsOfZero(n - 1);
    }
  }

  /** Reading back the low n bits of v gives v modulo 2^n. */
  lemma {:induction false} FromLsbBits(v: nat, n: nat)
    ensures FromBits(LsbBits(v, n)) == v % Pow2(n)
  {
    if n == 0 {
      assert v % 1 == 0;
    } else {
      FromLsbBits(v / 2, n - 1);
      var bs := LsbBits(v, n);
      assert bs[1..] == LsbBits(v / 2, n - 1);
      HalveMod(v, Pow2(n - 1));
    }
  }

  /** Writing the number a bit list denotes gives the list back. */
  lemma {:induction false} LsbBitsOfFromBits(bs: seq<bool>)
    ensures LsbBits(FromBits(bs), |bs|) == bs
  {
    if bs != [] {
      LsbBitsOfFromBits(bs[1..]);
      var v := FromBits(bs);
      var t := if bs[0] then 1 else 0;
      DivModUnique(v, 2, FromBits(bs[1..]), t);
      assert LsbBits(v, |bs|) == [v % 2 == 1] + LsbBits(v / 2, |bs| - 1);
    }
  }

  /** A value below 2^n is determined by its n-bit list. */
  lemma LsbBitsInjective(v: nat, w: nat, n: nat)
    requires v < Pow2(n) && w < Pow2(n)
    requires LsbBits(v, n) == LsbBits(w, n)
    ensures v == w
  {
    FromLsbBits(v, n);
    FromLsbBits(w, n);
    DivModUnique(v, Pow2(n), 0, v);
    DivModUnique(w, Pow2(n), 0, w);
  }

  /** The bit writer's reversal loop turns the MSB-first code into LSB-first bits. */
  lemma {:induction false} ReverseBitsAreMsbFirst(v: nat, d: nat)
    ensures LsbBits(ReverseBits(v, d), d) == MsbBits(v, d)
  {
    if d > 0 {
      ReverseBitsAreMsbFirst(v / 2, d - 1);
      var low := ReverseBits(v / 2, d - 1);
      assert ReverseBits(v, d) == low + (v % 2) * Pow2(d - 1);
      LsbBitsAdd(low, v % 2, d - 1, 1);
      assert LsbBits(v % 2, 1) == [v % 2 == 1];
    }
  }

  /** Reversing d bits twice gives back the low d bits. */
  lemma ReverseBitsInvolution(v: nat, d: nat)
    ensures ReverseBits(ReverseBits(v, d), d) == v % Pow2(d)
  {
    var r := ReverseBits(v, d);
    var rr := ReverseBits(r, d);
    ReverseBitsAreMsbFirst(v, d);
    ReverseBitsAreMsbFirst(r, d);
    MsbIsReversedLsb(v, d);
    MsbIsReversedLsb(r, d);
    ReverseReverse(LsbBits(v, d));
    assert LsbBits(rr, d) == LsbBits(v, d);
    FromLsbBits(v, d);
    FromLsbBits(rr, d);
    DivModUnique(rr, Pow2(d), 0, rr);
  }

  lemma DivAtLeast(v: nat, d: nat, k: nat)
    requires d > 0 && v >= k * d
    ensures v / d >= k
  {
    var q := v / d;
    assert v == q * d + v % d;
    if q < k {
      MulLeft(q + 1, k, d);
      assert false;
    }
  }

  lemma ReverseConcat<T>(a: seq<T>, b: seq<T>)
    ensures Reverse(a + b) == Reverse(b) + Reverse(a)
  {
  }

  /** The first a of the a + b most significant bits of v are the bits of v >> b. */
  lemma MsbPrefix(v: nat, a: nat, b: nat)
    ensures MsbBits(v, a + b)[..a] == MsbBits(Quot(v, Pow2(b)), a)
  {
    var lo, hi := LsbBits(v % Pow2(b), b), LsbBits(Quot(v, Pow2(b)), a);
    LsbBitsSplit(v, b, a);
    assert LsbBits(v, a + b) == lo + hi;
    ReverseConcat(lo, hi);
    MsbIsReversedLsb(v, a + b);
    MsbIsReversedLsb(Quot(v, Pow2(b)), a);
  }

  /** A value below 2^a is determined by its a most significant bits. */
  lemma MsbInjective(v: nat, w: nat, a: nat)
    requires v < Pow2(a) && w < Pow2(a)
    requires MsbBits(v, a) == MsbBits(w, a)
    ensures v == w
  {
    MsbIsReversedLsb(v, a);
    MsbIsReversedLsb(w, a);
    ReverseReverse(LsbBits(v, a));
    ReverseReverse(LsbBits(w, a));
    LsbBitsInjective(v, w, a);
  }

  /**
   * A value of a + e bits at least (v + 1) << e does not begin with the a
   * most significant bits of v.
   */
  lemma MsbNotPrefix(v: nat, a: nat, w: nat, e: nat)
    requires v < Pow2(a) && w < Pow2(a + e) && w >= Shl(v + 1, e)
    ensures !(MsbBits(v, a) <= MsbBits(w, a + e))
  {
    var q := Pow2(e);
    var top := Quot(w, q);
    if MsbBits(v, a) <= MsbBits(w, a + e) {
      MsbPrefix(w, a, e);
      assert MsbBits(top, a) == MsbBits(v, a);
      Pow2Add(a, e);
      DivBelow(w, q, Pow2(a));
      MsbInjective(v, top, a);
      DivAtLeast(w, q, v + 1);
      assert false;
    }
  }

  /** A value below 2^n is read back exactly from its n-bit list. */
  lemma ReadBack(v: nat, n: nat)
    requires v < Pow2(n)
    ensures FromBits(LsbBits(v, n)) == v
  {
    FromLsbBits(v, n);
    DivModUnique(v, Pow2(n), 0, v);
  }
}

/**
 * Byte and pixel arithmetic of the transforms, with Go's 8-bit wrap-around
 * written out: uint8(x) keeps the low 8 bits, int8(v) reads a byte as two's
 * complement.
 */
module Pixels {
  import opened WebPTypes
  import opened Bits

  /** uint8(x): the low 8 bits of x. */
  function Wrap(x: int): byte {
    x % 256
  }

  /** int8(v): a byte read as two's complement. */
  function Signed(v: byte): (s: int)
    ensures -128 <= s < 128
  {
    if v < 128 then v else v - 256
  }

  /** Reading a byte as signed and wrapping it again gives the byte back. */
  lemma WrapSigned(v: byte)
    ensures Wrap(Signed(v)) == v
  {
    if v >= 128 {
      DivModUnique(v - 256, 256, -1, v);
    }
  }

  /** Wrapping before an addition does not change the wrapped sum. */
  lemma WrapAdd(x: int, k: int)
    ensures Wrap(Wrap(x) + k) == Wrap(x + k)
  {
    var q := (x + k) / 256;
    DivModUnique(Wrap(x) + k, 256, q - x / 256, (x + k) % 256);
  }

  /** A byte read as signed, shifted by k and wrapped, is the byte shifted by k and wrapped. */
  lemma WrapSignedAdd(v: byte, k: int)
    ensures Wrap(Signed(v) + k) == Wrap(v + k)
  {
    WrapSigned(v);
    WrapAdd(Signed(v), k);
    WrapAdd(v, k);
    DivModUnique(v, 256, 0, v);
  }

  /** A value already in byte range wraps to itself. */
  lemma WrapByte(v: byte)
    ensures Wrap(v) == v
  {
    DivModUnique(v, 256, 0, v);
  }

  /** uint8(a - b): one channel of a residual. */
  function Sub8(a: byte, b: byte): byte {
    Wrap(a - b)
  }

  /** uint8(a + b): one channel of a reconstruction. */
  function Add8(a: byte, b: byte): byte {
    Wrap(a + b)
  }

  lemma AddSub8(v: byte, k: byte)
    ensures Add8(Sub8(v, k), k) == v && Sub8(Add8(v, k), k) == v
  {
    WrapAdd(v - k, k);
    WrapAdd(v + k, -(k as int));
    WrapByte(v);
  }

  /** The channel-wise difference modulo 256. */
  function Minus(p: Pixel, q: Pixel): Pixel {
    Pixel(Sub8(p.r, q.r), Sub8(p.g, q.g), Sub8(p.b, q.b), Sub8(p.a, q.a))
  }

  /** The channel-wise sum modulo 256, which undoes Minus. */
  function Plus(p: Pixel, q: Pixel): Pixel {
    Pixel(Add8(p.r, q.r), Add8(p.g, q.g), Add8(p.b, q.b), Add8(p.a, q.a))
  }

  /** Adding the prediction back to a residual restores the pixel, and the other way round. */
  lemma PlusMinus(p: Pixel, q: Pixel)
    ensures Plus(Minus(p, q), q) == p
    ensures Minus(Plus(p, q), q) == p
  {
    AddSub8(p.r, q.r);
    AddSub8(p.g, q.g);
    AddSub8(p.b, q.b);
    AddSub8(p.a, q.a);
  }
}

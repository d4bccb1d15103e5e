/**
 * The VP8L bit writer: values of any width are packed least significant bit
 * first into a 64-bit accumulator that is flushed to the byte buffer one whole
 * byte at a time. Huffman codes, built most significant bit first, are emitted
 * reversed.
 */
module BitWriter {
  import opened WebPTypes
  import opened Bits

  /** The bits a Huffman code contributes to the stream: none for depth <= 0. */
  function CodeBits(code: HuffmanCode): (bs: seq<bool>)
    ensures |bs| == if code.depth <= 0 then 0 else code.depth
  {
    if code.depth <= 0 then [] else MsbBits(code.bits, code.depth)
  }

  /**
   * The reversal loop of WriteCode: the low depth bits of bits, last bit
   * first.
   */
  method ReverseCode(bits: nat, depth: nat) returns (reversed: nat)
    ensures reversed == ReverseBits(bits, depth)
  {
    var value: nat := bits;
    reversed := 0;
    var i: nat := 0;
    while i < depth
      invariant 0 <= i <= depth
      invariant reversed * Pow2(depth - i) + ReverseBits(value, depth - i) == ReverseBits(bits, depth)
    {
      ReverseBitsStep(reversed, value, depth - i);
      reversed := reversed * 2 + value % 2;
      value := value / 2;
      i := i + 1;
    }
  }

  class BitWriter {
    /** The bytes flushed so far. */
    var buffer: seq<byte>
    /** The pending bits, the oldest in the least significant position (a uint64). */
    var bitBuffer: nat
    /** How many bits of bitBuffer are pending. */
    var bitBufferSize: nat

    /** Between calls fewer than 8 bits are pending and no other bit is set. */
    ghost predicate Valid()
      reads this
    {
      bitBufferSize < 8 && bitBuffer < Pow2(bitBufferSize)
    }

    /** Everything written so far: the flushed bytes, then the pending bits. */
    function Stream(): (s: seq<bool>)
      reads this
      ensures |s| == 8 * |buffer| + bitBufferSize
    {
      BytesToBits(buffer) + LsbBits(bitBuffer, bitBufferSize)
    }

    constructor ()
      ensures Valid() && buffer == [] && bitBufferSize == 0 && Stream() == []
    {
      buffer := [];
      bitBuffer := 0;
      bitBufferSize := 0;
    }

    /**
     * Appends the low n bits of value. The source panics for n outside 0..64
     * and for value >= 2^n; n is at most 56 so that the shifted value cannot
     * overflow the 64-bit accumulator (at most 7 bits are pending on entry).
     */
    method WriteBits(value: nat, n: nat)
      requires Valid()
      requires n <= 56 && value < Pow2(n)
      modifies this
      ensures Valid()
      ensures Stream() == old(Stream()) + LsbBits(value, n)
      ensures old(buffer) <= buffer
    {
      ghost var before := Stream();
      AppendPending(buffer, bitBuffer, bitBufferSize, value, n);
      // The OR of the pending bits with value << bitBufferSize: the two bit
      // ranges are disjoint, so the OR is a sum.
      bitBuffer := bitBuffer + Shl(value, bitBufferSize);
      bitBufferSize := bitBufferSize + n;
      assert Stream() == before + LsbBits(value, n);
      WriteThrough();
    }

    /**
     * Writes the code's Depth bits most significant first: the loop reverses
     * them, and the reversed value goes out least significant first.
     */
    method WriteCode(code: HuffmanCode)
      requires Valid() && code.depth <= 56
      modifies this
      ensures Valid()
      ensures Stream() == old(Stream()) + CodeBits(code)
      ensures old(buffer) <= buffer
      ensures code.depth <= 0 ==> buffer == old(buffer) && bitBuffer == old(bitBuffer) && bitBufferSize == old(bitBufferSize)
    {
      if code.depth <= 0 {
        return;
      }
      var reversed := ReverseCode(code.bits, code.depth);
      ReverseBitsAreMsbFirst(code.bits, code.depth);
      WriteBits(reversed, code.depth);
    }

    /** Pads the pending bits with zeros up to the next byte boundary and flushes them. */
    method AlignByte()
      requires Valid()
      modifies this
      ensures Valid() && bitBufferSize == 0
      ensures Stream() == old(Stream()) + Zeros((8 - old(bitBufferSize)) % 8)
      ensures |buffer| == (|old(Stream())| + 7) / 8
      ensures old(buffer) <= buffer && |buffer| <= |old(buffer)| + 1
    {
      AlignPending(buffer, bitBuffer, bitBufferSize);
      // (size + 7) &^ 7 clears the low three bits of size + 7.
      var rounded := (bitBufferSize + 7) / 8 * 8;
      assert rounded == if bitBufferSize == 0 then 0 else 8;
      bitBufferSize := rounded;
      WriteThrough();
    }

    /** Moves every whole pending byte to the buffer, oldest first. */
    method WriteThrough()
      requires bitBufferSize <= 64 && bitBuffer < Pow2(bitBufferSize)
      modifies this
      ensures Valid()
      ensures Stream() == old(Stream())
      ensures buffer == old(buffer) + buffer[|old(buffer)|..]
      ensures |buffer| == |old(buffer)| + old(bitBufferSize) / 8
    {
      while bitBufferSize >= 8
        invariant bitBuffer < Pow2(bitBufferSize)
        invariant Stream() == old(Stream())
        invariant old(buffer) <= buffer
        invariant 8 * |buffer| + bitBufferSize == 8 * |old(buffer)| + old(bitBufferSize)
        decreases bitBufferSize
      {
        FlushByte(buffer, bitBuffer, bitBufferSize);
        buffer := buffer + [bitBuffer % 256];
        bitBuffer := bitBuffer / 256;
        bitBufferSize := bitBufferSize - 8;
      }
    }
  }
}

/**
 * Value types shared by the lossless WebP (VP8L) encoder model.
 */
module WebPTypes {

  /** An optional value: None stands for a failed read or an invalid input. */
  datatype Option<T> = None | Some(value: T)

  /** An unsigned 8-bit value (Go's uint8 / byte). */
  type byte = x: int | 0 <= x < 256

  /** A non-premultiplied RGBA pixel (Go's color.NRGBA). */
  datatype Pixel = Pixel(r: byte, g: byte, b: byte, a: byte)

  /** Opaque black, the prediction used for the top-left pixel and by predictor 0. */
  const OpaqueBlack := Pixel(0, 0, 0, 255)

  /**
   * One entry of a canonical Huffman code: the symbol, its code value read
   * most significant bit first, and its length. Depth 0 marks an unused symbol
   * and depth -1 the single symbol of a one-leaf tree, which costs zero bits.
   */
  datatype HuffmanCode = HuffmanCode(symbol: nat, bits: nat, depth: int)
}

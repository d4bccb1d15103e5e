# Lossless WebP encoder model

This project models the lossless WebP (VP8L) encoder in `internal/imaging/webp` and proves
properties of the model. The encoder turns a row-major RGBA pixel buffer into a
RIFF/WEBP/VP8L byte stream. The model has the encoder's four parts:

- **The bit writer** (`BitWriter.dfy`, with `Bits.dfy`). A class with the source's three
  fields (byte buffer, pending bits, pending count). `Stream()` is the whole bit stream
  written so far: the buffered bytes LSB-first, followed by the pending bits. Every
  write is specified by how it extends `Stream()`.
- **The canonical Huffman coder** (`Huffman.dfy`, `HuffmanHeader.dfy`, `PrefixCode.dfy`).
  - Tree building repeatedly takes two minimum-weight nodes out of a forest and merges them.
  - Codes are assigned canonically in (depth, symbol) order.
  - Code lengths are sent in the empty, simple or full form. The full form uses the
    19-symbol length code in its fixed order.
  - A prefix-code reader (`PrefixCode.DecodeSymbols`) shows that what is sent can be read back.
- **The pixel transforms**:
  - subtract green and the fixed-element colour transform (`ColorTransforms.dfy`, `Pixels.dfy`);
  - colour indexing: palette collection, index packing and palette delta coding (`Palette.dfy`);
  - the 14-mode tiled predictor (`Predictor.dfy`, `Tiles.dfy`).
  The in-place transforms work on `array<Pixel>` with nested tile loops. Each is proved
  to equal a function on sequences, and each such function has an inverse that undoes it.
- **Tokens and stream assembly**:
  - the hash-chain LZ77 matcher and colour cache (`Encoder.dfy`);
  - prefix coding, the hash and the plane-code distance map (`Lz77Codes.dfy`);
  - the token stream and a reference decoder of it (`Tokens.dfy`);
  - histograms (`Histograms.dfy`);
  - one entropy-coded image: cache field, five code headers, tokens (`ImageWriter.dfy`);
  - the header, the transform chain, `Encode` and the RIFF frame (`Writer.dfy`).

The main results:

- `Encoder.EncodeImageData`: the token stream decodes, through the reference decoder, to
  exactly the input pixels.
- `ImageWriter.SectionReadsBack`: the bits written for one image read back as the same
  tokens under the tables that were sent.
- `Writer.Lossless`: both transform plans `Encode` can choose decode back to the input pixels.
- `Writer.EncodedFileDecodes`: the file `Encode` returns unwraps from its RIFF frame, carries
  the image's width, height and alpha flag, and its plan decodes to the input pixels.
- `Writer.Encode`: every error the source returns happens exactly when the source returns
  it. Each panic is stated about the section being written when it happens. That section
  codes the image's palette or tile entries, or the main image once the transform is sent.
  Its groups decode to that image, and each of its tables is the one built for the groups'
  histogram.
  - The model stops with `UnsendableTable` exactly when those tables stop at a header the
    source panics on. This includes the zero-bit marker -1, which the source indexes as
    `histo[-1]` or sends as `uint64(-1)` (see Findings).
  - It stops with `CodeTooLong` exactly when all five headers are sent but a code is deeper
    than one write can carry.
  - These statements hold for the tokens `EncodeImageData` picks and the tables the builder
    picks. The model does not pin either choice (see Left out).

Nothing in the model performs I/O. The output is a returned byte sequence.

## Model

| member | source | states |
|---|---|---|
| BitWriter.BitWriter.constructor | internal/imaging/webp/bitwriter.go:10-14 | A new writer holds no bytes and no pending bits; its stream is empty. |
| BitWriter.BitWriter.Stream | internal/imaging/webp/bitwriter.go:10-14 | The stream is 8 bits per buffered byte plus the pending count. |
| BitWriter.BitWriter.WriteBits | internal/imaging/webp/bitwriter.go:16-28 | For `value < 2^n` (the source's panic condition) and `n <= 56`, the stream grows by exactly the n low bits of value, LSB first. Bytes already flushed never change, and fewer than 8 bits stay pending. |
| BitWriter.CodeBits | internal/imaging/webp/bitwriter.go:30-43 | A code of depth <= 0 contributes no bits; any other code contributes exactly depth bits. |
| BitWriter.ReverseCode | internal/imaging/webp/bitwriter.go:35-40 | The reversal loop computes the depth-bit reversal of the code's bits. |
| BitWriter.BitWriter.WriteCode | internal/imaging/webp/bitwriter.go:30-43 | The stream grows by the code's bits, most significant first. A depth <= 0 leaves all three fields unchanged. |
| BitWriter.BitWriter.AlignByte | internal/imaging/webp/bitwriter.go:45-48 | The writer adds (8 - pending) mod 8 zero bits and leaves nothing pending. The byte count becomes ceil(bits written / 8), at most one more than before. |
| BitWriter.BitWriter.WriteThrough | internal/imaging/webp/bitwriter.go:50-56 | Flushing whole bytes never changes the stream. It appends pending/8 bytes and keeps the earlier ones. |
| Bits.ReadBack | internal/imaging/webp/bitwriter.go:16-28 | The n bits written for a value below 2^n read back as that value. |
| Bits.FromLsbBits | internal/imaging/webp/bitwriter.go:16-28 | Reading the n bits of any value gives the value mod 2^n. |
| Bits.LsbBitsOfFromBits | internal/imaging/webp/bitwriter.go:16-28 | Any bit string is the n-bit encoding of the number it reads as (the other direction of the round trip). |
| Bits.LsbBitsInjective | internal/imaging/webp/bitwriter.go:21-25 | Two values below 2^n with the same n bits are equal. |
| Bits.LsbBitsSplit | internal/imaging/webp/bitwriter.go:25-26 | The a+b bits of a value are its low a bits followed by the b bits of the rest. |
| Bits.LsbBitsAdd | internal/imaging/webp/bitwriter.go:25-26 | OR-ing `hi << a` onto a value below 2^a appends hi's bits after the value's. |
| Bits.AppendPending | internal/imaging/webp/bitwriter.go:25-26 | The shifted OR into the pending bits appends the new value's bits to the stream, and the result stays below 2^(s+n). |
| Bits.FlushByte | internal/imaging/webp/bitwriter.go:51-55 | Moving the low byte of the pending bits into the buffer leaves the stream unchanged. |
| Bits.AlignPending | internal/imaging/webp/bitwriter.go:45-47 | Rounding the pending count up to 8 appends exactly (8 - s) mod 8 zero bits. |
| Bits.BytesToBitsConcat | internal/imaging/webp/bitwriter.go:50-56 | Bytes appended in order give the concatenation of their bits. |
| Bits.ReverseBitsAreMsbFirst | internal/imaging/webp/bitwriter.go:35-42 | Writing the reversal LSB-first sends the code's bits most significant first. |
| Bits.ReverseBitsInvolution | internal/imaging/webp/bitwriter.go:35-42 | Reversing twice gives back the bits mod 2^depth. |
| Bits.MsbIsReversedLsb | internal/imaging/webp/bitwriter.go:35-42 | The MSB-first bits are the LSB-first bits reversed. |
| Bits.MsbNotPrefix | internal/imaging/webp/huffman.go:104-114 | A code whose value is at least `(v+1) << e` does not start with v's bits. |
| Bits.MsbInjective | internal/imaging/webp/huffman.go:104-114 | Distinct values below 2^a have distinct MSB-first bits. |
| Pixels.Signed | internal/imaging/webp/transform.go:241-243 | The int8 reading of a byte lies in -128..127. |
| Pixels.WrapSigned | internal/imaging/webp/transform.go:241-250 | The int8 reading followed by `& 0xff` gives back the byte. |
| Pixels.AddSub8 | internal/imaging/webp/transform.go:265-270 | Byte subtraction and addition mod 256 undo each other, in both orders. |
| Pixels.PlusMinus | internal/imaging/webp/transform.go:315-322 | Channel-wise subtraction and addition mod 256 undo each other, in both orders. |
| ColorTransforms.GreenRoundTrip | internal/imaging/webp/transform.go:265-270 | Subtracting green from R and B and adding it back restores the pixel, in both orders. |
| ColorTransforms.GreenImageRoundTrip | internal/imaging/webp/transform.go:265-270 | Adding green back to every pixel restores the image. |
| ColorTransforms.SubtractGreen | internal/imaging/webp/transform.go:265-270 | The array becomes the subtract-green image of its old contents. |
| ColorTransforms.RoundTripWith | internal/imaging/webp/transform.go:241-250 | The colour transform's three channel updates are inverted by the decoder's, for any delta function, in both orders. |
| ColorTransforms.ColorRoundTrip | internal/imaging/webp/transform.go:241-250 | With the source's delta `int8((int16(t) * int16(c)) >> 5)`, the inverse colour transform restores every pixel. |
| ColorTransforms.ColorImageRoundTrip | internal/imaging/webp/transform.go:232-260 | The inverse transform restores the whole image. |
| ColorTransforms.TransformPixel | internal/imaging/webp/transform.go:239-252 | The pixel update equals the forward colour transform with element {1, 2, 3, 255}. |
| ColorTransforms.ColorColumn | internal/imaging/webp/transform.go:237-253 | One tile column is transformed, and the transformed pixels are copied into the deltas buffer. Nothing else changes. |
| ColorTransforms.ColorTile | internal/imaging/webp/transform.go:237-254 | Exactly the tile's pixels are transformed and copied into the deltas buffer. |
| ColorTransforms.ColorTileRow | internal/imaging/webp/transform.go:233-257 | After a row of tiles, every pixel in the finished rows is transformed, and that row's blocks are the fixed element. |
| ColorTransforms.ColorTransform | internal/imaging/webp/transform.go:215-263 | The method returns tile bits 4 and a ceil(w/16) x ceil(h/16) grid of the fixed element. The array becomes the colour image of its old contents. |
| Tiles.TileCount | internal/imaging/webp/transform.go:30-33 | The tile count is ceil(n/16): enough tiles to cover n, and no more. |
| Tiles.Coords | internal/imaging/webp/transform.go:67 | Offset `y*width + x` has column x and row y. |
| Tiles.Offset | internal/imaging/webp/transform.go:67 | Every offset is row * width + column, with the column below the width. |
| Tiles.RowBound | internal/imaging/webp/transform.go:51-54 | An offset inside the image lies in a row below the height. |
| Tiles.TileStart | internal/imaging/webp/transform.go:53-54 | Every tile in the grid holds at least one column (row). |
| Tiles.VisitPixel | internal/imaging/webp/transform.go:63-67 | A pixel the tile loops visit is inside the image and the tile, and has not been visited before. |
| Tiles.NextColumn | internal/imaging/webp/transform.go:63-64 | Finishing a column of a tile moves the done-region to the next column. |
| Tiles.TileFinished | internal/imaging/webp/transform.go:63-64 | When the column loop ends, the done-region is exactly the tile. |
| Tiles.NextTileRow | internal/imaging/webp/transform.go:51-52 | Finishing a row of tiles is the same as starting the next row. |
| Tiles.AllTiles | internal/imaging/webp/transform.go:51-52 | After all tile rows, every pixel has been visited. |
| Tiles.TileIndexBound | internal/imaging/webp/transform.go:117 | Every pixel's tile index `y*bw+x` is inside the block grid. |
| Tiles.TileIndexBefore | internal/imaging/webp/transform.go:117 | A pixel in an earlier tile has an earlier tile index. |
| Tiles.TileIndexIn | internal/imaging/webp/transform.go:117 | A pixel in tile (bcol, brow) has tile index brow*bw + bcol. |
| Tiles.TileXBound | internal/imaging/webp/transform.go:32 | A pixel's tile column is below bw. |
| Tiles.GridBefore | internal/imaging/webp/transform.go:117 | An earlier grid cell has a smaller index. |
| Predictor.Neighbours | internal/imaging/webp/transform.go:127-139 | Below the first row the top neighbour exists. Away from the first row and column, the top-left and top-right neighbours exist. All reads are in bounds. |
| Predictor.TopRightOfLastColumn | internal/imaging/webp/transform.go:139 | At the last column, the top-right read lands on the first pixel of the current row. |
| Predictor.FilterPrefix | internal/imaging/webp/transform.go:126-213 | A prediction depends only on the pixels before it, so the decoder can recompute it. |
| Predictor.UnpredictResiduals | internal/imaging/webp/transform.go:98-121 | Adding predictions from already-restored pixels to the residuals restores every prefix of the image. |
| Predictor.UnpredictRoundTrip | internal/imaging/webp/transform.go:98-121 | Residual plus prediction reconstructs the original image, because predictions come from the unmodified original. |
| Predictor.ChoosePredictor | internal/imaging/webp/transform.go:56-96 | The chosen mode is in 0..13, no mode costs less, and any earlier mode costs more (first minimum). |
| Predictor.ModeAt | internal/imaging/webp/transform.go:98-117 | A pixel's mode, read from its block's green channel, is in 0..13. |
| Predictor.Modes | internal/imaging/webp/transform.go:98-117 | The per-pixel modes cover the image and are all in 0..13. |
| Predictor.PredictTile | internal/imaging/webp/transform.go:98-115 | Exactly the tile's deltas become residuals of the original pixels under the chosen mode; the pixels are untouched. |
| Predictor.PredictColumn | internal/imaging/webp/transform.go:98-114 | One tile column of deltas becomes residuals; nothing else changes. |
| Predictor.PredictRow | internal/imaging/webp/transform.go:51-119 | After a row of tiles, each block of that row holds {0, best, 0, 255} for the first-minimum mode, and the finished deltas are residuals. |
| Predictor.PredictTransform | internal/imaging/webp/transform.go:29-124 | The method returns tile bits 4 and a ceil(w/16) x ceil(h/16) grid of first-minimum modes. The array becomes the residual image of its old contents under those modes. |
| Palette.DistinctColours | internal/imaging/webp/transform.go:273-278 | The palette has no duplicates and holds exactly the image's colours. |
| Palette.DistinctGrows | internal/imaging/webp/transform.go:274-281 | A prefix never has more colours than the whole image, so the early return fires exactly when the whole image has more than 256. |
| Palette.CollectPalette | internal/imaging/webp/transform.go:273-282 | The method fails exactly when there are more than 256 colours; otherwise it returns the colours in first-occurrence order. |
| Palette.IndexOf | internal/imaging/webp/transform.go:305 | The first palette index holding the pixel. |
| Palette.PackSize | internal/imaging/webp/transform.go:284-291 | Pixels per packed byte are 1, 2, 4 or 8. |
| Palette.IndexBits | internal/imaging/webp/transform.go:306 | Bits per index are 8/size. |
| Palette.IndexFits | internal/imaging/webp/transform.go:284-306 | Every palette index fits its bit field. |
| Palette.PackedWidth | internal/imaging/webp/transform.go:293 | The packed width is ceil(width/size). |
| Palette.PackSnoc | internal/imaging/webp/transform.go:299-307 | Packing one more index ORs it in at the next field. |
| Palette.DigitPack | internal/imaging/webp/transform.go:299-307 | Each field of a packed byte reads back as the index put there. |
| Palette.PackBound | internal/imaging/webp/transform.go:299-309 | A packed value fits in its fields. |
| Palette.PackedByte | internal/imaging/webp/transform.go:298-309 | A packed run of indexes fits in the green byte. |
| Palette.Indexes | internal/imaging/webp/transform.go:305 | Each index names the source pixel's colour. |
| Palette.PackedAt | internal/imaging/webp/transform.go:309 | Every packed pixel has R = B = 0 and A = 255. |
| Palette.PackedAtPixel | internal/imaging/webp/transform.go:296-311 | Packed pixel (x, y) holds the indexes of pixels `x*size ..` of row y, stopping at the row end. |
| Palette.UndeltaDelta | internal/imaging/webp/transform.go:315-322 | A prefix sum restores a delta-coded palette. |
| Palette.DeltaUndelta | internal/imaging/webp/transform.go:315-322 | Delta coding a prefix sum gives back the deltas (the other direction). |
| Palette.UndeltaHead | internal/imaging/webp/transform.go:315-322 | The first entry is kept as it is. |
| Palette.DeltaCode | internal/imaging/webp/transform.go:315-322 | The backward loop replaces each entry after the first with its difference from the previous original entry. |
| Palette.PackPixel | internal/imaging/webp/transform.go:298-307 | The inner loop packs the indexes of its run of source pixels. |
| Palette.PackRow | internal/imaging/webp/transform.go:297-310 | One packed row is filled; earlier rows are kept. |
| Palette.PackImage | internal/imaging/webp/transform.go:295-311 | The packed buffer has pw*height pixels, each as `PackedAt` says. |
| Palette.PaletteTransform | internal/imaging/webp/transform.go:272-325 | The transform fails exactly when there are more than 256 colours. Otherwise it returns the delta-coded palette, the packed image and pw. |
| Palette.FieldOf | internal/imaging/webp/transform.go:300-306 | Pixel x lives in field x mod size of packed pixel x / size. |
| Palette.PackedOf | internal/imaging/webp/transform.go:296-309 | The packed pixel holding (x, y) is `y*pw + x/size`. |
| Palette.IndexInPacked | internal/imaging/webp/transform.go:296-311 | Every source pixel's index can be read from its packed pixel. |
| Palette.PaletteRoundTrip | internal/imaging/webp/transform.go:272-325 | Undoing the delta coding and unpacking gives back every original pixel. |
| Lz77Codes.PrefixTopBounds | internal/imaging/webp/writer.go:371-377 | The halving loop ends with a top of 2 or 3 that brackets n-1 at its shift. |
| Lz77Codes.PrefixDecode | internal/imaging/webp/writer.go:366-391 | Every (prefix, extra) pair decodes to a value >= 1. |
| Lz77Codes.PrefixRoundTrip | internal/imaging/webp/writer.go:366-391 | For n >= 1, the extra bits fit `prefixEncodeBits(code)` bits, and code and extra decode back to n. |
| Lz77Codes.PrefixShiftBound | internal/imaging/webp/writer.go:371-376 | Below 2^k the loop shifts at most k-2 times. |
| Lz77Codes.PrefixCodeBound | internal/imaging/webp/writer.go:366-383 | Values up to 2^k get a prefix below 2k. |
| Lz77Codes.LengthPrefixBound | internal/imaging/webp/writer.go:329-331 | A match length up to 4096 gets a prefix below 24. |
| Lz77Codes.DistancePrefixBound | internal/imaging/webp/writer.go:333-335 | A distance code up to 2^20 gets a prefix below 40. |
| Lz77Codes.ColorKey | internal/imaging/webp/writer.go:395 | The A,R,G,B key is a 32-bit value. |
| Lz77Codes.Mul32 | internal/imaging/webp/writer.go:396 | Multiplication wraps to 32 bits. |
| Lz77Codes.HashBound | internal/imaging/webp/writer.go:393-397 | hash(c, k) is below 2^min(k, 32). |
| Lz77Codes.HashOfZeroBits | internal/imaging/webp/writer.go:396 | With 0 bits every colour hashes to 0. |
| Lz77Codes.ChainHash | internal/imaging/webp/writer.go:277-280 | The chain bucket is below 2^14. |
| Lz77Codes.Row0Agrees | internal/imaging/webp/writer.go:264-265 | The table's first row matches the standard's plane-code map, and its entries 8..15 are the 255 sentinels. |
| Lz77Codes.Row1Agrees | internal/imaging/webp/writer.go:266 | The second row matches the plane-code map. |
| Lz77Codes.Row2Agrees | internal/imaging/webp/writer.go:267 | The third row matches the plane-code map. |
| Lz77Codes.Row3Agrees | internal/imaging/webp/writer.go:268 | The fourth row matches the plane-code map. |
| Lz77Codes.Row4Agrees | internal/imaging/webp/writer.go:269 | The fifth row matches the plane-code map. |
| Lz77Codes.Row5Agrees | internal/imaging/webp/writer.go:270 | The sixth row matches the plane-code map. |
| Lz77Codes.Row6Agrees | internal/imaging/webp/writer.go:271 | The seventh row matches the plane-code map. |
| Lz77Codes.Row7Agrees | internal/imaging/webp/writer.go:272 | The eighth row matches the plane-code map. |
| Lz77Codes.CellOf | internal/imaging/webp/writer.go:264-273 | Every cell the encoder can index agrees with the plane-code map. |
| Lz77Codes.DecodeNamed | internal/imaging/webp/writer.go:323-326 | A code naming offset (dx, dy) decodes to dx + dy*width, or to 1 when that is below 1. |
| Lz77Codes.NearDecodes | internal/imaging/webp/writer.go:323-324 | For x <= 8 and y < 8, the looked-up code is not a sentinel and decodes to the distance. |
| Lz77Codes.RightDecodes | internal/imaging/webp/writer.go:325-326 | For the right-hand case, the looked-up code is not a sentinel and decodes to the distance. |
| Lz77Codes.NearCode | internal/imaging/webp/writer.go:323-324 | The near code is in 1..120 and decodes to x + y*width. |
| Lz77Codes.RightCode | internal/imaging/webp/writer.go:325-326 | The right code is in 1..120 and decodes to y*width - k. |
| Lz77Codes.SplitDistance | internal/imaging/webp/writer.go:319-320 | `x = dis - y*width` is a column in 0..width-1. |
| Lz77Codes.DistanceCode | internal/imaging/webp/writer.go:319-327 | The distance code is in 1..dis+120 and decodes back to the distance on the image's width. |
| Lz77Codes.DistanceCodeAt | internal/imaging/webp/writer.go:319-327 | The same holds once the distance is split into column and row. |
| Tokens.Tok | internal/imaging/webp/writer.go:330-360 | A cache hit is one token; a literal or a back-reference is four. |
| Tokens.Parse | internal/imaging/webp/writer.go:413-424 | Parsing with the histogram walk's stride yields only groups whose symbols lie in their alphabets. |
| Tokens.FlattenCons | internal/imaging/webp/writer.go:330-360 | The tokens of a group list are the group's tokens followed by the rest. |
| Tokens.ParseCons | internal/imaging/webp/writer.go:413-424 | Parsing a group's tokens in front of a stream yields the group followed by the parse of the stream. |
| Tokens.ParseFlatten | internal/imaging/webp/writer.go:413-424 | Parsing the tokens of valid groups gives back the groups. |
| Tokens.BlankCache | internal/imaging/webp/writer.go:259 | The cache starts as 2^bits zero pixels. |
| Tokens.CachePut | internal/imaging/webp/writer.go:353 | Storing into the cache keeps its size. |
| Tokens.Fill | internal/imaging/webp/writer.go:314-317 | Storing a run keeps the cache size. |
| Tokens.CopyOut | internal/imaging/webp/writer.go:313-338 | Copying a back-reference appends len pixels and keeps what was there. |
| Tokens.ExpandSnoc | internal/imaging/webp/writer.go:275-361 | Decoding one more group is one more decoder step. |
| Tokens.FlattenSnoc | internal/imaging/webp/writer.go:330-360 | Appending a group appends its tokens. |
| Tokens.CopyOutMatches | internal/imaging/webp/writer.go:297-302 | A matched run copied from distance dis reproduces the next len pixels. |
| Tokens.CopyMatches | internal/imaging/webp/writer.go:313-317 | The decoder's copy step reproduces the run and stores it in the cache as the encoder does. |
| Encoder.MatchLength | internal/imaging/webp/writer.go:295-302 | The run is at most 4096 and matches pixel by pixel. When shorter than the limit and the image, the next pixel differs. |
| Encoder.FindMatch | internal/imaging/webp/writer.go:286-310 | Any match found has length <= 4096, a distance in 1..2^20-121, and equal pixels. |
| Encoder.HashInCache | internal/imaging/webp/writer.go:343-348 | The cache hash indexes the cache. |
| Encoder.CacheRun | internal/imaging/webp/writer.go:314-317 | The cache becomes the old cache with the run stored in order. |
| Encoder.FillNext | internal/imaging/webp/writer.go:314-317 | Storing one more pixel of the run is one cache store. |
| Encoder.BackrefStep | internal/imaging/webp/writer.go:313-339 | A back-reference with 3 <= len <= 4096 and an exact match is a valid group, and the decoder turns it into the same pixels and cache. |
| Encoder.Emit | internal/imaging/webp/writer.go:330-360 | Emitting a group keeps the invariant: tokens = groups' tokens, at most 4 per pixel, and decoding the groups gives the pixels so far. |
| Encoder.LiteralStep | internal/imaging/webp/writer.go:356-360 | The decoder turns a literal G,R,B,A into that pixel. |
| Encoder.CacheHitStep | internal/imaging/webp/writer.go:344-351 | A cache hit is the single valid token 280+hash, and the decoder turns it into the same pixel. |
| Encoder.ChainInsert | internal/imaging/webp/writer.go:282-284 | The chain update links position i to the old head and makes i the new head. Every link points backwards. |
| Encoder.HeadsLater | internal/imaging/webp/writer.go:282-284 | Heads that point before i also point before any later position. |
| Encoder.NewChain | internal/imaging/webp/writer.go:257-258 | The head table has 2^14 empty buckets; the prev table has one entry per pixel. |
| Encoder.NewCache | internal/imaging/webp/writer.go:259 | The cache starts blank with 2^bits entries. |
| Encoder.EmitBackref | internal/imaging/webp/writer.go:313-339 | Emitting a match advances the invariant by len pixels and keeps the cache equal to the decoder's. |
| Encoder.EmitPixel | internal/imaging/webp/writer.go:343-360 | Emitting a cache hit or a literal advances the invariant by one pixel. |
| Encoder.NextMatch | internal/imaging/webp/writer.go:276-310 | Hashing three pixels and walking at most 8 chain links gives a match with the FindMatch guarantees. |
| Encoder.Advance | internal/imaging/webp/writer.go:275-361 | One loop iteration moves forward at least one pixel and keeps the invariant. |
| Encoder.EncodeImageData | internal/imaging/webp/writer.go:256-364 | There are at most 4 tokens per pixel, and the reference decoder turns the tokens into exactly the input pixels. |
| Histograms.GroupSymbols | internal/imaging/webp/writer.go:413-423 | A group adds at most one symbol to each of the five histograms. |
| Histograms.HistogramCounts | internal/imaging/webp/writer.go:413-424 | Each histogram slot holds the number of occurrences of its symbol. |
| Histograms.HistogramTotal | internal/imaging/webp/writer.go:413-424 | A histogram's counts add up to the number of symbols counted. |
| Histograms.SentIsCounted | internal/imaging/webp/writer.go:413-424 | Every symbol a group sends has a positive count. |
| Histograms.GroupSymbolsInAlphabet | internal/imaging/webp/writer.go:405-410 | A valid group's symbols index the histograms, whose sizes are 280+cache, 256, 256, 256 and 40. |
| Histograms.SymbolsInAlphabet | internal/imaging/webp/writer.go:405-424 | No increment goes out of range. |
| Histograms.CountedStep | internal/imaging/webp/writer.go:414-421 | One increment counts one more symbol. |
| Histograms.UncountedStep | internal/imaging/webp/writer.go:413-423 | A histogram a group does not touch stays correct. |
| Histograms.CountGroup | internal/imaging/webp/writer.go:413-423 | Counting one group's tokens updates all five histograms for that group. |
| Histograms.CountLiteral | internal/imaging/webp/writer.go:414-419 | A literal counts G, R, B and A. |
| Histograms.CountBackref | internal/imaging/webp/writer.go:413-423 | A back-reference counts its length prefix and distance prefix. |
| Histograms.CountCacheHit | internal/imaging/webp/writer.go:414 | A cache hit counts its green-alphabet symbol only. |
| Histograms.NoCounts | internal/imaging/webp/writer.go:400-411 | The five zero histograms count the empty stream. |
| Histograms.ParsedFlatten | internal/imaging/webp/writer.go:413-424 | The parsed groups' tokens are the stream. |
| Histograms.WalkStep | internal/imaging/webp/writer.go:413-423 | The stride 4-if-below-280-else-1 steps over exactly one group. |
| Histograms.CountNext | internal/imaging/webp/writer.go:413-423 | One loop iteration counts exactly the next group. |
| Histograms.ComputeHistograms | internal/imaging/webp/writer.go:399-427 | The histograms count exactly the groups of the token stream. |
| Huffman.RootWeighsAllLeaves | internal/imaging/webp/huffman.go:70-81 | In a tree whose every branch weighs the sum of its children, the root weighs the sum of all leaves. |
| Huffman.PositiveLeaves | internal/imaging/webp/huffman.go:50-61 | The pushed nodes are leaves, at most one per symbol. |
| Huffman.PositiveLeavesMembers | internal/imaging/webp/huffman.go:50-61 | A leaf is pushed exactly for each symbol with a positive count, with weight max(count, floor). |
| Huffman.PositiveLeavesAscending | internal/imaging/webp/huffman.go:50-61 | The leaves are pushed in ascending symbol order. |
| Huffman.SeedsAreDistinct | internal/imaging/webp/huffman.go:50-68 | No symbol gets two leaves. |
| Huffman.PopMin | internal/imaging/webp/huffman.go:71-72 | The node taken has minimum weight, and the rest is the heap without it, as a multiset. |
| Huffman.ForestLeavesMerge | internal/imaging/webp/huffman.go:73-78 | A merged node carries the leaves of both children. |
| Huffman.MergeKeepsLeaves | internal/imaging/webp/huffman.go:70-79 | Merging two popped nodes keeps the forest's leaves. |
| Huffman.MergeKeepsWeights | internal/imaging/webp/huffman.go:73-78 | The new branch weighs the sum of its children. |
| Huffman.Merge | internal/imaging/webp/huffman.go:70-79 | A merge step keeps the forest invariant and shrinks the heap by one. |
| Huffman.TotalCount | internal/imaging/webp/huffman.go:40-43 | The loop computes the histogram's sum. |
| Huffman.InitialNodes | internal/imaging/webp/huffman.go:45-68 | The heap starts with the positive symbols' leaves at floor weight `sum >> (maxDepth-2)`, or a single symbol-0 leaf. |
| Huffman.BuildTree | internal/imaging/webp/huffman.go:39-82 | Every branch weighs the sum of its children, the leaves are exactly the initial nodes, and the root weighs all leaves. |
| Huffman.LastTree | internal/imaging/webp/huffman.go:81 | When one node is left, it is a well-weighted tree over all initial leaves. |
| Huffman.DistinctLeavesPermuted | internal/imaging/webp/huffman.go:70-81 | The tree's leaves have distinct symbols. |
| Huffman.LeafDepths | internal/imaging/webp/huffman.go:119-135 | The walk records one code per leaf. |
| Huffman.LeafDepthsRange | internal/imaging/webp/huffman.go:119-135 | Every leaf depth is at least the starting level. |
| Huffman.LeafDepthsFollowLeaves | internal/imaging/webp/huffman.go:119-135 | The walk visits the leaves left to right. |
| Huffman.TreeKraft | internal/imaging/webp/huffman.go:119-135 | The leaf depths of a tree fill the code space exactly (Kraft sum = 1). |
| Huffman.Insert | internal/imaging/webp/huffman.go:96-102 | Insertion adds exactly the new code. |
| Huffman.SortCodes | internal/imaging/webp/huffman.go:96-102 | Sorting permutes the codes. |
| Huffman.InsertKeepsOrder | internal/imaging/webp/huffman.go:96-102 | Insertion keeps the (depth, symbol) order. |
| Huffman.InsertKraft | internal/imaging/webp/huffman.go:96-102 | Insertion adds the new code's space to the Kraft sum. |
| Huffman.SortCodesOrders | internal/imaging/webp/huffman.go:96-102 | The sorted codes are in (depth ascending, symbol ascending) order with distinct symbols. |
| Huffman.SortCodesKraft | internal/imaging/webp/huffman.go:96-102 | Sorting keeps the Kraft sum. |
| Huffman.CanonicalFits | internal/imaging/webp/huffman.go:104-114 | Every assigned code value is below 2^depth. |
| Huffman.CanonicalIncreases | internal/imaging/webp/huffman.go:104-114 | A later code is at least `(earlier + 1) << (depth difference)`. |
| Huffman.CanonicalStep | internal/imaging/webp/huffman.go:106-113 | Each code is the previous plus one, shifted by the depth increase, so same-depth codes are consecutive. |
| Huffman.EarlierNotPrefix | internal/imaging/webp/huffman.go:104-114 | No code is a prefix of a later one. |
| Huffman.LaterNotPrefix | internal/imaging/webp/huffman.go:104-114 | No code is a prefix of an earlier one. |
| Huffman.CanonicalIsPrefixFree | internal/imaging/webp/huffman.go:104-114 | The canonical codes of a full code space fit their depths, and the live codes are prefix-free. |
| Huffman.PositiveLeavesCount | internal/imaging/webp/huffman.go:50-61 | There are as many leaves as positive counts. |
| Huffman.SeedsAreUsed | internal/imaging/webp/huffman.go:50-68 | The leaves are exactly the used symbols. With none used, a single leaf is used. |
| Huffman.LeafDepthSymbols | internal/imaging/webp/huffman.go:119-135 | The depth walk names exactly the tree's leaf symbols. |
| Huffman.BranchDepths | internal/imaging/webp/huffman.go:119-135 | Below a branch root every leaf depth is between 1 and leaves-1. |
| Huffman.LeafDepthsDistinct | internal/imaging/webp/huffman.go:119-135 | The depth walk names no symbol twice. |
| Huffman.SingleLeafTree | internal/imaging/webp/huffman.go:63-91 | A one-leaf tree means at most one used symbol, and the leaf is that symbol. |
| Huffman.BranchLeafCount | internal/imaging/webp/huffman.go:70-81 | A branch root means at least two used symbols, one leaf each. |
| Huffman.TreeLeafSymbols | internal/imaging/webp/huffman.go:39-82 | The tree's leaves are the used symbols, without repeats. |
| Huffman.BranchTreeSymbols | internal/imaging/webp/huffman.go:93-102 | The sorted depths are ordered and name the leaf symbols. |
| Huffman.BranchTreeLengths | internal/imaging/webp/huffman.go:93-102 | The sorted depths lie between 1 and leaves-1. |
| Huffman.BranchTreeKraft | internal/imaging/webp/huffman.go:93-102 | The depths of a branch tree fill the code space. |
| Huffman.SortedKraft | internal/imaging/webp/huffman.go:96-102 | Sorting keeps the depth bound and the Kraft sum. |
| Huffman.AssignStep | internal/imaging/webp/huffman.go:106-113 | The running `bits` is the Kraft sum of the codes already assigned, scaled to the current depth. |
| Huffman.AssignKeeps | internal/imaging/webp/huffman.go:108-110 | Writing one code keeps the codes already written. |
| Huffman.AssignCodes | internal/imaging/webp/huffman.go:104-114 | Every sorted symbol gets its canonical code; the other entries stay zero. |
| Huffman.AssignedCodes | internal/imaging/webp/huffman.go:104-116 | The table has non-zero depth exactly for used symbols, each with depth below the number of used symbols. |
| Huffman.LoneCode | internal/imaging/webp/huffman.go:88-91 | A single used symbol gets the zero-bit code {sym, 0, -1} and nothing else is live. |
| Huffman.CodesOfTree | internal/imaging/webp/huffman.go:88-116 | A tree's table is live exactly on the used symbols, canonical, fits its depths, and is prefix-free. |
| Huffman.BranchCodes | internal/imaging/webp/huffman.go:93-116 | For a branch tree, the codes are canonical over a full code space, with depths between 1 and the used count minus one. |
| Huffman.BuiltTreeCodes | internal/imaging/webp/huffman.go:87 | Any tree built from the histogram meets what the code assignment needs. |
| Huffman.BuildCodes | internal/imaging/webp/huffman.go:84-117 | The table has one entry per histogram slot. Exactly the used symbols are live. A single used symbol gets {sym, 0, -1}; otherwise the codes are canonical and prefix-free. |
| PrefixCode.BookOf | internal/imaging/webp/huffman.go:104-114 | Every live code has a bit string; dead codes have none. |
| PrefixCode.DecodeSymbol | internal/imaging/webp/huffman.go:205-207 | A decoded symbol is in the table and never takes more bits than there are. |
| PrefixCode.DecodeSymbols | internal/imaging/webp/huffman.go:205-207 | Decoding n symbols gives n of them. |
| PrefixCode.EncodeSymbolsSnoc | internal/imaging/webp/huffman.go:205-207 | Writing one more symbol appends its code. |
| PrefixCode.DecodeWord | internal/imaging/webp/huffman.go:104-114 | With a prefix-free table, a code followed by anything decodes to its symbol. |
| PrefixCode.DecodeEncoded | internal/imaging/webp/huffman.go:205-207 | The codes of a symbol list decode back to the list. |
| PrefixCode.BuiltCodesDecodable | internal/imaging/webp/huffman.go:84-117 | The tables BuildCodes returns are decodable. |
| HuffmanHeader.LengthCodeOrderInverse | internal/imaging/webp/huffman.go:184-186 | The fixed order is a permutation of 0..18, with an explicit inverse. |
| HuffmanHeader.LengthCodeOrderBounded | internal/imaging/webp/huffman.go:184-186 | Every entry of the order is a valid slot. |
| HuffmanHeader.LengthCodeOrderBelow | internal/imaging/webp/huffman.go:184-186 | The order has 19 entries, all below 19. |
| HuffmanHeader.Coded | internal/imaging/webp/huffman.go:141-153 | The live symbols, in table order. |
| HuffmanHeader.CodedPrefix | internal/imaging/webp/huffman.go:141-153 | The live symbols of a prefix start the live symbols of the whole table. |
| HuffmanHeader.FormOf | internal/imaging/webp/huffman.go:155-174 | The form is empty exactly when nothing is live; simple exactly for 1-2 live symbols below 256; full otherwise. |
| HuffmanHeader.EmptyIsSymbolZero | internal/imaging/webp/huffman.go:155-157 | The empty form's bits are the simple form of symbol 0 and read back as it. |
| HuffmanHeader.ReadSimple | internal/imaging/webp/huffman.go:158-171 | The simple-form reader never takes more bits than there are. |
| HuffmanHeader.SimpleRoundTrip | internal/imaging/webp/huffman.go:158-171 | The simple form reads back as the same symbols and length. |
| HuffmanHeader.Slot | internal/imaging/webp/huffman.go:179-181 | The corrected slot: the depth itself for 0..18, and 1 for the marker -1. |
| HuffmanHeader.SlotAsWritten | internal/imaging/webp/huffman.go:180 | `histo[c.Depth]` is in range exactly for depths 0..18. |
| HuffmanHeader.Field | internal/imaging/webp/huffman.go:200 | The corrected 3-bit field: the depth for 0..7, and 1 for the marker -1. |
| HuffmanHeader.FieldAsWritten | internal/imaging/webp/huffman.go:200 | The 3-bit write succeeds exactly for depths 0..7. |
| HuffmanHeader.Slots | internal/imaging/webp/huffman.go:179-181 | Every code's slot is below 19. |
| HuffmanHeader.Tally | internal/imaging/webp/huffman.go:178-181 | The slot histogram has 19 entries. |
| HuffmanHeader.TallyCounts | internal/imaging/webp/huffman.go:178-181 | Every slot used by a code has a positive count. |
| HuffmanHeader.DepthHisto | internal/imaging/webp/huffman.go:178-181 | The depth histogram has 19 entries. |
| HuffmanHeader.LengthCountCovers | internal/imaging/webp/huffman.go:188-193 | cnt is 0 or in 4..19, and covers every order position whose slot is used. |
| HuffmanHeader.FieldBits | internal/imaging/webp/huffman.go:199-201 | cnt fields take 3*cnt bits. |
| HuffmanHeader.FieldBitsAt | internal/imaging/webp/huffman.go:199-201 | Field i holds the depth of slot `lengthCodeOrder[i]`. |
| HuffmanHeader.SomeFieldSent | internal/imaging/webp/huffman.go:188-193 | A non-empty table sends 4..19 fields. |
| HuffmanHeader.ReadFields | internal/imaging/webp/huffman.go:199-201 | The field reader fills all 19 slots. |
| HuffmanHeader.ReadFull | internal/imaging/webp/huffman.go:195-207 | The full-form reader returns a count of at most 19 and the symbols it was asked for. |
| HuffmanHeader.FieldsReadBack | internal/imaging/webp/huffman.go:199-201 | Reading the fields back in the fixed order recovers each sent depth. |
| HuffmanHeader.FieldsRoundTrip | internal/imaging/webp/huffman.go:199-201 | If every unsent slot has depth 0, all 19 depths read back. |
| HuffmanHeader.UnsentSlotsUnused | internal/imaging/webp/huffman.go:188-201 | Slots after the count have depth 0. |
| HuffmanHeader.CountReadBack | internal/imaging/webp/huffman.go:196 | The 4-bit field cnt-4 reads back. |
| HuffmanHeader.FullBitsLayout | internal/imaging/webp/huffman.go:195-207 | The full form is: 0, cnt-4 in 4 bits, the fields, 0, then the depth codes. |
| HuffmanHeader.FullRoundTrip | internal/imaging/webp/huffman.go:177-208 | The full form reads back as the code's slots and its second-order depths, and takes exactly its own length. |
| HuffmanHeader.ReadHeader | internal/imaging/webp/huffman.go:137-175 | A header reader result never claims more bits than there are. |
| HuffmanHeader.HeaderRoundTrip | internal/imaging/webp/huffman.go:137-175 | Each of the three forms reads back: empty as symbol 0, simple as its live symbols, full as its slots. This holds for the corrected header, which includes every header the source sends. |
| HuffmanHeader.SlotHistogram | internal/imaging/webp/huffman.go:178-181 | The counting loop succeeds exactly when every depth indexes the 19-entry histogram. A depth of -1 fails, as `histo[-1]` panics in the source. On success it returns the depth histogram. |
| HuffmanHeader.SentCount | internal/imaging/webp/huffman.go:188-193 | cnt = max(4, 1 + last order position with a non-zero count), or 0 when none. |
| HuffmanHeader.WriteFields | internal/imaging/webp/huffman.go:199-201 | The field loop succeeds exactly when every sent depth is a 3-bit value. A depth of -1 fails, as `writeBits(uint64(-1), 3)` panics in the source. On success it writes the fields in the fixed order. |
| HuffmanHeader.WriteSlots | internal/imaging/webp/huffman.go:205-207 | For depths that index the histogram, the final loop writes each code's depth with the second-order code. |
| HuffmanHeader.WriteFieldsAndSlots | internal/imaging/webp/huffman.go:199-207 | The method succeeds exactly when every sent field is a 3-bit value, as in the source. It then writes the fields, a 0 bit and the slot codes. |
| HuffmanHeader.WriteFullCodeOf | internal/imaging/webp/huffman.go:188-207 | Given depths that index the histogram, the full form is written exactly when the source sends it without a panic. The length code is built from the depth histogram. |
| HuffmanHeader.WriteFullCode | internal/imaging/webp/huffman.go:177-208 | The method succeeds exactly when the source finishes without a panic. That needs every depth in 0..18 (not -1), a non-empty table, and every sent field in 0..7 (not -1). It then writes the full form. |
| HuffmanHeader.SlotsCoded | internal/imaging/webp/huffman.go:198-207 | Every slot a code uses has a live second-order code. |
| HuffmanHeader.FullWritableIff | internal/imaging/webp/huffman.go:188-201 | The full form can be written exactly when its fields fit. With no depth of -1, the source sends it exactly when every sent field is in 0..7. |
| HuffmanHeader.NoFieldSent | internal/imaging/webp/huffman.go:188-193 | An empty table sends no fields. |
| HuffmanHeader.FullBitsParts | internal/imaging/webp/huffman.go:195-207 | The full form's bits are the five parts in order. |
| HuffmanHeader.LengthCodeBuilt | internal/imaging/webp/huffman.go:198 | The second-order code is live exactly on the used slots and is decodable. |
| HuffmanHeader.WriteSimple | internal/imaging/webp/huffman.go:158-171 | The simple form is flag 1, count-1, a 1- or 8-bit first symbol after its selector, and an 8-bit second symbol. |
| HuffmanHeader.LiveSymbols | internal/imaging/webp/huffman.go:138-153 | The loop counts live codes up to 3 and keeps the first two symbols, or 0 where absent. |
| HuffmanHeader.WriteHuffmanCodes | internal/imaging/webp/huffman.go:137-175 | The header is written exactly when the source sends it without a panic: always for the empty and simple forms, and for the full form as `WriteFullCode` says. The stream then grows by that header. |
| HuffmanHeader.LoneHighSymbol | internal/imaging/webp/huffman.go:88-181 | A table whose only live code is {s, 0, -1} with s >= 256 takes the full form. There `histo[-1]` is out of range, so no length code makes its header sendable. |
| HuffmanHeader.LoneHighSymbolFixed | internal/imaging/webp/huffman.go:178-198 | With the corrected slot, such a table sends 4 fields and can be written. |
| HuffmanHeader.UniformDepths | internal/imaging/webp/huffman.go:198-201 | When all codes share one depth, the length code has one live slot, marked -1. That slot is among the fields sent, so the 3-bit write is out of range and the full form is never sendable. |
| HuffmanHeader.UniformDepthsFixed | internal/imaging/webp/huffman.go:198-201 | With the corrected field, such a table can be written. |
| ImageWriter.HeadersSnoc | internal/imaging/webp/writer.go:228-234 | Sending one more table appends its header. |
| ImageWriter.ExpandedFit | internal/imaging/webp/writer.go:236-253 | Groups that decode have extra-bit values that fit their widths. |
| ImageWriter.SentIsCoded | internal/imaging/webp/writer.go:225-241 | Every symbol the tokens send has a live code in its table. |
| ImageWriter.TableSizes | internal/imaging/webp/writer.go:228-231 | Each table has its alphabet's size and is decodable. |
| ImageWriter.ReadCoded | internal/imaging/webp/writer.go:237-241 | A written code reads back as its symbol. |
| ImageWriter.ReadFieldBack | internal/imaging/webp/writer.go:244-250 | Extra bits read back. |
| ImageWriter.ReadLiteralBack | internal/imaging/webp/writer.go:239-242 | The R, B, A codes read back as the literal's channels. |
| ImageWriter.ReadBackrefBack | internal/imaging/webp/writer.go:244-251 | A back-reference's length extra, distance code and distance extra read back. |
| ImageWriter.ReadDistanceBack | internal/imaging/webp/writer.go:247-250 | The distance code and its extra bits read back. |
| ImageWriter.ReadGroupBack | internal/imaging/webp/writer.go:236-253 | Every valid group's bits read back as the group. |
| ImageWriter.ReadLiteralGroup | internal/imaging/webp/writer.go:237-242 | A literal's bits read back as the literal. |
| ImageWriter.ReadBackrefGroup | internal/imaging/webp/writer.go:237-251 | A back-reference's bits read back as the back-reference. |
| ImageWriter.ReadMany | internal/imaging/webp/writer.go:236-253 | Reading n items gives n items within the bits available. |
| ImageWriter.ReadGroups | internal/imaging/webp/writer.go:236-253 | Reading n groups gives n groups. |
| ImageWriter.ReadManyBack | internal/imaging/webp/writer.go:236-253 | If each item reads back, their concatenation reads back as the list. |
| ImageWriter.ReadGroupsBack | internal/imaging/webp/writer.go:236-253 | The token bits of a group list read back as the list. |
| ImageWriter.SectionReadsBack | internal/imaging/webp/writer.go:212-254 | The tokens of an encoded image read back as its groups under the sent tables, and those groups decode to the pixels. |
| ImageWriter.ReadCacheField | internal/imaging/webp/writer.go:213-218 | The cache-field reader never takes more bits than there are. |
| ImageWriter.CacheFieldBack | internal/imaging/webp/writer.go:213-218 | The colour-cache field reads back as its bit count. |
| ImageWriter.BuildTable | internal/imaging/webp/writer.go:230 | Each table is built with maxDepth 15, the weight floor writer.go passes. It codes exactly the used symbols. A lone used symbol gets the -1 marker. Two or more get the canonical codes of a complete code (Kraft sum one), with depths below the number of used symbols. The table is decodable. |
| ImageWriter.WriteTables | internal/imaging/webp/writer.go:227-234 | The five headers are written in order. Otherwise the loop stops at the first table whose header the source panics on, and every earlier header was sendable. |
| ImageWriter.CodesForSnoc | internal/imaging/webp/writer.go:230-231 | Appending a table keeps every table matched to its histogram. |
| ImageWriter.WriteGroup | internal/imaging/webp/writer.go:237-252 | One iteration writes exactly the group's bits. |
| ImageWriter.WriteLiteralRest | internal/imaging/webp/writer.go:239-241 | The method writes the R, B and A codes. |
| ImageWriter.WriteBackrefRest | internal/imaging/webp/writer.go:244-250 | The method writes the length extra, the distance code and the distance extra. |
| ImageWriter.WriteNext | internal/imaging/webp/writer.go:236-253 | The loop writes the next group and steps past its tokens. |
| ImageWriter.TokenBitsSnoc | internal/imaging/webp/writer.go:236-253 | One more group appends its bits. |
| ImageWriter.WalkDone | internal/imaging/webp/writer.go:236 | When the token index passes the end, every group has been written. |
| ImageWriter.WriteTokens | internal/imaging/webp/writer.go:236-253 | The token loop writes exactly the groups' bits. |
| ImageWriter.TablesFor | internal/imaging/webp/writer.go:224-234 | Tables built from the histograms of the tokens code every symbol sent. |
| ImageWriter.CountedSizes | internal/imaging/webp/writer.go:405-411 | The histograms have the alphabet sizes, all at least 1. |
| ImageWriter.DecodedGroups | internal/imaging/webp/writer.go:256-364 | A token stream that decodes parses into groups that expand to the same pixels. |
| ImageWriter.PanicOf | internal/imaging/webp/writer.go:224-234 | Suppose the groups decode to the pixels, every table is built for its histogram, and every header before the last is sent. If the last header is one the source panics on, the section records that panic. |
| ImageWriter.SectionBitsOf | internal/imaging/webp/writer.go:212-254 | The lead, headers and tokens make up the section's bits. |
| ImageWriter.WriteLead | internal/imaging/webp/writer.go:213-222 | The method writes the cache flag and its 4-bit size. For the top-level image only, it then writes the 0 bit saying no meta prefix codes follow. |
| ImageWriter.WriteImageData | internal/imaging/webp/writer.go:212-254 | On success the section's groups decode to the pixels, and the stream grows by the section's bits. Each table is built for its histogram, with the shape `BuildTable` states, and each code fits one write. `HeaderPanic` happens exactly when the groups decode to the pixels and the built tables stop at the first header the source panics on. `DeepCode` happens exactly when the groups decode to the pixels and all five built tables are sent, but a code is deeper than 56 bits. |
| Writer.FailureOf | internal/imaging/webp/writer.go:227-241 | Each section outcome maps to its own failure. |
| Writer.HeaderBits | internal/imaging/webp/writer.go:140-153 | The bitstream header is 40 bits. |
| Writer.HeaderSlices | internal/imaging/webp/writer.go:140-153 | The header's five fields sit at bits 0-7, 8-21, 22-35, 36 and 37-39. |
| Writer.ReadHeaderFields | internal/imaging/webp/writer.go:140-153 | Each field reads back. |
| Writer.BitStreamHeaderRoundTrip | internal/imaging/webp/writer.go:140-153 | For dimensions in 1..16384, the header reads back as the width, the height and the alpha flag. |
| Writer.HeaderParsed | internal/imaging/webp/writer.go:140-153 | Anything the header reader accepts has dimensions in range, and its first 40 bits are their header (the other direction). |
| Writer.HeaderBitsOf | internal/imaging/webp/writer.go:141-152 | The five writes make up the header. |
| Writer.WriteBitStreamHeader | internal/imaging/webp/writer.go:140-153 | The stream grows by exactly the header. |
| Writer.LE32 | internal/imaging/webp/writer.go:128-129 | The little-endian form of a 32-bit value is 4 bytes. |
| Writer.LE32RoundTrip | internal/imaging/webp/writer.go:128-137 | LE32 and its reader are inverse, in both directions. |
| Writer.RiffHeader | internal/imaging/webp/writer.go:125-138 | The RIFF/WEBP/VP8L header is 20 bytes. |
| Writer.RiffRoundTrip | internal/imaging/webp/writer.go:125-138 | Below 2^32 bytes, the frame's sizes read back and unwrapping gives back the payload. |
| Writer.RiffRead | internal/imaging/webp/writer.go:125-138 | A frame whose sizes are 12+len and len unwraps to its payload. |
| Writer.PaletteHead | internal/imaging/webp/writer.go:165-175 | The indexing transform header is 11 bits. |
| Writer.PredictHead | internal/imaging/webp/writer.go:179-202 | The subtract-green and predictor headers are 9 bits. |
| Writer.PaletteSize | internal/imaging/webp/writer.go:168-175 | A non-empty image's palette has 1..256 entries, so len-1 fits 8 bits. |
| Writer.WriteSection | internal/imaging/webp/writer.go:176-207 | One image-data call. On success the stream grows by a section that codes the given pixels. `UnsendableTable` happens exactly when the section's groups decode to those pixels and its built tables stop at a header the source panics on. `CodeTooLong` happens exactly when they decode to the pixels and all five tables are sent, but a code is too deep. |
| Writer.WritePaletteHead | internal/imaging/webp/writer.go:164-175 | The method fails exactly on more than 256 colours; otherwise it writes the indexing header with len-1. |
| Writer.PaletteHeadAfter | internal/imaging/webp/writer.go:165-175 | The three writes make up the indexing header. |
| Writer.WritePaletteTransform | internal/imaging/webp/writer.go:164-177 | `TooManyColors` happens exactly when there are more than 256 colours. On success the packed image and the palette's section are written. The two panic failures happen exactly as for `WriteSection`, with the palette as the image its section codes. |
| Writer.WritePredictHead | internal/imaging/webp/writer.go:179-202 | The method writes the two transform headers and returns the residual image of the subtract-green image under first-minimum modes. |
| Writer.PredictHeadAfter | internal/imaging/webp/writer.go:179-202 | The five writes make up the two transform headers. |
| Writer.WritePredictTransforms | internal/imaging/webp/writer.go:179-204 | The method writes subtract green and the predictor, then the block image's section. The two panic failures happen exactly as for `WriteSection`, with the tile entries as the image its section codes. |
| Writer.WriteTransforms | internal/imaging/webp/writer.go:164-206 | A paletted image gets only indexing; any other gets subtract green and predict. `TooManyColors` happens exactly for a paletted image of more than 256 colours. Otherwise the plan holds the transform the image selects: its palette and packing, or its tile modes. The panic failures happen exactly where the section coding that palette or those tile entries panics. |
| Writer.IndexedPlan | internal/imaging/webp/writer.go:164-177 | The indexing branch yields a correct plan whose main image is the packed image. |
| Writer.PackedWidthPositive | internal/imaging/webp/transform.go:293 | A packed row is at least one pixel wide. |
| Writer.PredictedPlan | internal/imaging/webp/writer.go:179-204 | The predictor branch yields a correct plan whose main image is the residuals. |
| Writer.WriteBitStreamData | internal/imaging/webp/writer.go:155-210 | On success the plan is correct and the stream grows by its bits. `TooManyColors` happens exactly as in the source. `UnsendableTable` and `CodeTooLong` happen exactly where the section being written panics, or has a code that is too deep. That section codes the selected transform's palette or tile entries. Or, once the transform is sent, it codes the main image. |
| Writer.MainSectionOk | internal/imaging/webp/writer.go:206-207 | Adding a correct main section completes the plan. |
| Writer.UnpackAllOf | internal/imaging/webp/transform.go:296-311 | Unpacking every index gives back the pixels. |
| Writer.Lossless | internal/imaging/webp/writer.go:155-210 | A correct plan decodes to the input pixels. |
| Writer.IndexedLossless | internal/imaging/webp/writer.go:164-207 | The palette and packed sections decode, and unpacking gives the pixels. |
| Writer.PredictedLossless | internal/imaging/webp/writer.go:179-207 | The blocks and residual sections decode. Undoing the prediction and adding green gives the pixels. |
| Writer.EvenPadding | internal/imaging/webp/writer.go:111-115 | After alignment the padded data has even length and is the stream followed by fewer than 16 zero bits. |
| Writer.FinishStream | internal/imaging/webp/writer.go:111-115 | Alignment and padding give even-length data holding the stream. |
| Writer.PaddedHeader | internal/imaging/webp/writer.go:98-115 | The padded data still starts with the header. |
| Writer.Encode | internal/imaging/webp/writer.go:81-123 | Nil image, invalid size, too large and too many colours each fail exactly when the source reports them. For an accepted image, the section being written codes the selected transform's palette or tile entries. Once the transform is sent, it codes the main image instead. `UnsendableTable` happens exactly when that section's groups decode to its image and its built tables stop at a header the source panics on. `CodeTooLong` happens exactly when all five of its headers are sent but a code is too deep. Success gives a framed, correctly encoded file. |
| Writer.EncodeImage | internal/imaging/webp/writer.go:92-122 | For an encodable image, the failures happen exactly where those of the transforms and sections happen, in the section and on the image that `WriteBitStreamData` names. Success gives the framed encoding of the plan, whose main section was the last written. |
| Writer.EncodedFileDecodes | internal/imaging/webp/writer.go:81-138 | The file unwraps from RIFF, its header gives the width, the height and "some A != 255", and its plan decodes to the input pixels. |

## Left out

- `Decode`, `DecodeConfig` and `init` (internal/imaging/webp/writer.go:29-64) are wrappers over an external decoder and the image registry. There is no decoder in the repository. The model's own readers stop at token level: Huffman headers, tokens, transforms and the container. The header reader (`HuffmanHeader.ReadHeader`) is given the length codes' book, and the token reader (`ImageWriter.SectionReadsBack`) is given the tables. No lemma shows that the bits alone select these.
- Image-library conversion: `image.NewNRGBA`, `draw.Draw`, `flatten` and `Opaque()` (internal/imaging/webp/writer.go:90-98,429-452). An image is given as its width, height, row-major pixels and a paletted flag. The alpha flag is "some A != 255". `flatten` cannot fail on the converted image, so its error is not modelled.
- The `io.Writer` sink (internal/imaging/webp/writer.go:117-120). Its write results are ignored by the source; the model returns the file as bytes.
- Writer.Encode: models neither the source's `Options` argument, which is unused, nor the `Encode` error for a failed write.
- Predictor.ChoosePredictor: the float64 entropy score (internal/imaging/webp/transform.go:57-95) is replaced by a cost function of (mode, tile column, tile row) given as a parameter. The accumulated histograms that feed it are left out. The contract keeps the first-minimum tie-break.
- Predictor 11 (`select`) uses exact integers where the source uses float64 values. These are all small integers, so the comparison is the same.
- Huffman.PopMin: the `container/heap` tie order among equal weights is not modelled. Any minimum-weight node may be taken, and every Huffman property is proved for any such choice.
- Huffman.BuildCodes: the `maxDepth` argument only sets the weight floor, as in the source. The model does not claim a depth limit of 15, because the source does not enforce one.
- Encoder.FindMatch: does not claim that the match found is the longest along the chain, only that it is a correct match within the window.
- ColorTransforms.ColorTransform: modelled and proved, but not part of `Writer.Encode`, because `Encode` never sets its flag (internal/imaging/webp/writer.go:102,186-194).
- Writer.WriteTransforms: only the two transform sets `Encode` can choose are modelled: indexing alone, or subtract green then predict.
- Writer.Encode: the colour cache always has 4 bits, as `Encode` passes. `EncodeImageData` is proved for any cache of at most 11 bits.
- Writer.Encode: a width or height above 16384 makes the source panic in `writeBits`. The model returns `SizeTooLarge` instead.
- Writer.Encode: where the source panics in `writeFullhuffmanCode`, the model returns `UnsendableTable` instead of stopping the program. These are the inputs of the two findings below. The encoder follows the code as written. The corrected header (`HeaderWritable`, `HeaderBits`) is what the read-back proofs use, and it agrees with the written one on every header the source sends.
- Writer.Encode: the failures `UnsendableTable` and `CodeTooLong` are stated over the tokens and tables the run picked. The tokens are any that decode to the section's image. The tables are any built for their histograms with the shape `BuildTable` states. The model pins neither choice. Which matches `EncodeImageData` takes is open, because `FindMatch` is not proved to find the longest match. How the Huffman builder breaks ties between equal weights is open too (see `Huffman.PopMin`). So the model does not decide, for a given image, which of the two failures happens, or whether either does.
- Writer.Encode: `CodeTooLong` covers a Huffman code deeper than 56 bits. The bit writer's precondition keeps 64-bit OR from dropping bits. The source either loses bits or panics there, and the model does not follow that case further.
- BitWriter.BitWriter.WriteBits: requires at most 56 bits per write. The source allows up to 64 and can lose high bits from its 64-bit buffer above 56; every other write the encoder makes is at most 18 bits, the largest being a distance's extra bits (prefix code 39). A Huffman code is the exception, and the model bounds it with `CodeTooLong`.
- Writer.RiffHeader: the 32-bit size fields wrap modulo 2^32 as in the source. `Writer.RiffRoundTrip` holds only below that size.
- Writer.EncodeImage: the VP8L chunk size counts the padding byte, as the source writes it.
- Go slices are modelled as sequences, or as arrays where the source rewrites them in place. Aliasing between the caller's pixel slice and the transforms is not modelled; each transform receives its own copy.
- ImageWriter.ReadMany: the reader refuses an item reader that claims more bits than it was given. Every reader in the model satisfies this, so the guard never fires on encoder output.
- Writer.WritePaletteTransform: an image with more than 256 colours makes the source's palette transform return an error, and `Encode` returns it (internal/imaging/webp/transform.go:279-281, internal/imaging/webp/writer.go:168-171). The model returns `TooManyColors` at the same point; it does not fall back to the other transforms.
- BitWriter.BitWriter.WriteBits: `writeBits` accepts n = 0 with value 0 (internal/imaging/webp/bitwriter.go:16-28), and so does the model.

## Findings

| source | as written | input that shows it | evidently intended | confidence | as-written member | corrected member |
|---|---|---|---|---|---|---|
| internal/imaging/webp/huffman.go:88-181 | `histo[c.Depth]++` over every code, including the zero-bit marker `{sym, 0, -1}` that a one-symbol table gets. When that symbol is >= 256 the table cannot take the simple form, and the full form indexes `histo[-1]`. | A 1x1 opaque black image that is not paletted. After subtract green and prediction the residual is (0,0,0,0), which hits the blank colour cache at hash 0. The green table's only symbol is then 280. | Count the marker as a one-bit length (slot 1), as a reader treats a single-symbol code. | medium (not executed) | HuffmanHeader.LoneHighSymbol | HuffmanHeader.LoneHighSymbolFixed |
| internal/imaging/webp/huffman.go:198-201 | The length code is built with `buildhuffmanCodes(histo, 7)`. When all depths fall in one slot, that slot gets depth -1, and `writeBits(uint64(-1), 3)` is reached for it. | A table of 256 live symbols all of depth 8, such as the red channel of an image using all 256 red values equally. | Send the lone slot's length as 1. | medium (not executed) | HuffmanHeader.UniformDepths | HuffmanHeader.UniformDepthsFixed |

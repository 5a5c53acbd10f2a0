# rpeg block words and the bitpack library, in Dafny

This project models the integer core of `rpeg`, a lossy image codec. The
codec cuts an image into 2x2 pixel blocks. It turns each block into six
quantized numbers and packs them into a 32-bit word with a small bit-field
library, `bitpack`.

The model covers three things:

- **`bitpack`**, the library's six operations on 64-bit words (`powers.dfy`,
  `machine_words.dfy`, `bitpack.dfy`), and its unit tests, stated as lemmas
  (`bitpack_tests.dfy`):
  - `fitsi` and `fitsu` say whether a value fits a field.
  - `geti` and `getu` read a signed or unsigned field of 1 to 64 bits at any
    offset.
  - `newi` and `newu` write one.
- **The block word of `rpeg`** (`codec.dfy`). `pack` writes the six fields
  one after the other and unwraps each result; `unpack` reads them back. The
  layout has six fields:
  - `a`: 9 bits, unsigned, at bit 23;
  - `b`, `c` and `d`: 5 bits each, signed, at bits 18, 13 and 8;
  - `pb` and `pr`: 4 bits each, unsigned, at bits 4 and 0.
- **The block arithmetic of `rpeg`** (`block_geometry.dfy`):
  - rounding the image dimensions down to even numbers;
  - the block counts of the compressor and the decompressor;
  - the four pixel indices of block `num`, and the decompressor's loop that
    writes them.

Machine words are modelled as integers, not as `bv64`:

- A `u64` is a number in [0, 2^64) and an `i64` is one in [-2^63, 2^63).
- `x << k` is `(x * 2^k) mod 2^64`.
- A logical right shift divides by 2^k. An arithmetic right shift on `i64`
  is floor division by 2^k.
- `!x` is `2^64 - 1 - x`.
- `&` and `|` are defined bit by bit over the low n bits.
- The casts `as i64`, `as u64` and `i128 as i64` are written out as
  reductions modulo 2^64.

Every operation of the library is written with the shifts and masks of the
Rust code. This includes the 128-bit mask `!(-1_i128 << width)` that lets
`newi` handle width 64. The contracts state what those shifts and masks
amount to.

A panicking `unwrap` in `pack` is modelled as `None`, and so is an
overflowing `u32` product in a block count: a debug build panics there.

The code rounds `width` and `height` down to even numbers with `& !1`
(rpeg/src/codec.rs:12-13), which drops the last column and row; the model
follows the code. `get_pixel_data` still indexes with the image's own,
possibly odd, width; the lemmas on pixel indices hold for odd widths too.

## Model

| member | source | states |
|---|---|---|
| Bitpack.Fitsi | bitpack/src/bitpack.rs:2-4 | true exactly when -2^(w-1) <= n < 2^(w-1): the shift up and arithmetic shift back keep n exactly for the values of a w-bit two's-complement field |
| Bitpack.Fitsu | bitpack/src/bitpack.rs:6-8 | true exactly when n < 2^w; for w = 64 every u64 |
| Bitpack.Geti | bitpack/src/bitpack.rs:10-15 | the signed field is the sign extension of the unsigned field at the same place, and lies in [-2^(w-1), 2^(w-1)) |
| Bitpack.Getu | bitpack/src/bitpack.rs:17-22 | the field is (word / 2^lsb) mod 2^w, below 2^w |
| Bitpack.Newi | bitpack/src/bitpack.rs:24-35 | None exactly when the value does not fit; otherwise the word with bits [lsb, lsb+w) replaced by the low w bits of the value's two's complement (value mod 2^w) and every other bit kept, for widths up to 64 |
| Bitpack.Newu | bitpack/src/bitpack.rs:37-43 | None exactly when the value does not fit; otherwise the word with bits [lsb, lsb+w) replaced by the value and every other bit kept |
| Bitpack.GetuNewu | bitpack/src/bitpack.rs:37-43 | a fitting unsigned value written with newu reads back unchanged with getu |
| Bitpack.GetiNewi | bitpack/src/bitpack.rs:24-35 | a fitting signed value written with newi reads back unchanged with geti |
| Bitpack.NewuKeepsOtherBits | bitpack/src/bitpack.rs:39 | every bit of the word outside [lsb, lsb+w) is the same after newu |
| Bitpack.NewiKeepsOtherBits | bitpack/src/bitpack.rs:27 | every bit of the word outside [lsb, lsb+w) is the same after newi |
| Bitpack.FullWidthFits | bitpack/src/bitpack.rs:2-8 | every u64 fits a 64-bit unsigned field and every i64 a 64-bit signed one |
| BitpackTests.FitsiEightBitBounds | bitpack/src/bitpack.rs:52-62 | -128 and 127 fit 8 signed bits; -129 and 128 do not |
| BitpackTests.FitsuEightBitBounds | bitpack/src/bitpack.rs:66-74 | 0 and 255 fit 8 unsigned bits; 256 does not |
| BitpackTests.BuildWord | bitpack/src/bitpack.rs:78-97 | starting from 0xFFFFFFFF, the eight 4-bit writes of -3, 4, 1, 15, 2, 6, -8, -1 from bit 28 down all succeed and give 0xD41F268F |
| BitpackTests.WriteAt28 | bitpack/src/bitpack.rs:87 | writing -3 at bit 28 of 0xFFFFFFFF succeeds and gives 0xDFFFFFFF |
| BitpackTests.WriteAt24 | bitpack/src/bitpack.rs:88 | writing 4 at bit 24 gives 0xD4FFFFFF |
| BitpackTests.WriteAt20 | bitpack/src/bitpack.rs:89 | writing 1 at bit 20 gives 0xD41FFFFF |
| BitpackTests.WriteAt16 | bitpack/src/bitpack.rs:90 | writing 15 at bit 16 over ones leaves 0xD41FFFFF |
| BitpackTests.WriteAt12 | bitpack/src/bitpack.rs:91 | writing 2 at bit 12 gives 0xD41F2FFF |
| BitpackTests.WriteAt8 | bitpack/src/bitpack.rs:92 | writing 6 at bit 8 gives 0xD41F26FF |
| BitpackTests.WriteAt4 | bitpack/src/bitpack.rs:93 | writing -8 at bit 4 gives 0xD41F268F |
| BitpackTests.WriteAt0 | bitpack/src/bitpack.rs:94 | writing -1 at bit 0 over ones leaves 0xD41F268F |
| BitpackTests.GetWord | bitpack/src/bitpack.rs:99-110 | the eight fields of 0xD41F268F read back as -3, 4, 1, 15, 2, 6, -8, -1 |
| BitpackTests.ReadAt28 | bitpack/src/bitpack.rs:102 | the signed field at bit 28 of 0xD41F268F is -3 |
| BitpackTests.ReadAt24 | bitpack/src/bitpack.rs:103 | the unsigned field at bit 24 is 4 |
| BitpackTests.ReadAt20 | bitpack/src/bitpack.rs:104 | the unsigned field at bit 20 is 1 |
| BitpackTests.ReadAt16 | bitpack/src/bitpack.rs:105 | the unsigned field at bit 16 is 15 |
| BitpackTests.ReadAt12 | bitpack/src/bitpack.rs:106 | the unsigned field at bit 12 is 2 |
| BitpackTests.ReadAt8 | bitpack/src/bitpack.rs:107 | the unsigned field at bit 8 is 6 |
| BitpackTests.ReadAt4 | bitpack/src/bitpack.rs:108 | the signed field at bit 4 is -8 |
| BitpackTests.ReadAt0 | bitpack/src/bitpack.rs:109 | the signed field at bit 0 is -1 |
| BitpackTests.NewuFullWidth | bitpack/src/bitpack.rs:113-118 | writing any u64 into the 64-bit field at bit 0 gives that value, whatever the word held; in particular all ones into 0 gives all ones |
| BitpackTests.NewiFullWidth | bitpack/src/bitpack.rs:119-124 | writing any i64 into the 64-bit field gives its two's-complement bits; -1 into 0 gives all ones |
| BitpackTests.GetuFullWidth | bitpack/src/bitpack.rs:126-130 | the unsigned 64-bit field at bit 0 is the whole word; all ones reads as all ones |
| BitpackTests.GetiFullWidth | bitpack/src/bitpack.rs:131-135 | the signed 64-bit field at bit 0 is the word read as i64; all ones reads as -1 |
| Codec.Unpack | rpeg/src/codec.rs:120-130 | the six fields of any word are in the ranges their widths allow (a < 512, b, c, d in [-16, 16), pb, pr < 16) |
| Codec.Pack | rpeg/src/codec.rs:132-144 | no unwrap fails exactly when a < 512, b, c, d are in [-16, 15] and pb, pr < 16; then the word is the sum of the shifted fields, is below 2^32, and unpacks to the six values |
| Codec.BlockWord | rpeg/src/codec.rs:43 | the word of an in-range block is below 2^32, so it fits the u32 it is cast to |
| Codec.UnpackBlockWord | rpeg/src/codec.rs:120-144 | unpacking the word of an in-range block gives the block back |
| Codec.BlockWordOfUnpack | rpeg/src/codec.rs:120-130 | every word below 2^32 is the word of its unpacking: no bit of the low 32 is lost |
| Codec.StoredWordRoundTrip | rpeg/src/codec.rs:43 | the `as u32` cast of the packed word keeps it whole, and the stored word, widened again, unpacks to the block packed |
| Codec.FieldAt | rpeg/src/codec.rs:136-141 | each of bits 0 to 31 belongs to one of the six fields |
| Codec.LayoutTiles | rpeg/src/codec.rs:136-141 | the six fields are valid positions, pairwise disjoint, lie below bit 32, and are signed exactly when 5 bits wide |
| Codec.UnpackFollowsLayout | rpeg/src/codec.rs:122-127 | each of the six reads of `unpack` is at the width and offset of its LAYOUT entry, with geti exactly for the signed entries |
| Codec.BlockWordFollowsLayout | rpeg/src/codec.rs:136-141 | the word of an in-range block holds each value in the LAYOUT field of that value, so the disjoint layout is the one the code writes |
| BlockGeometry.EvenFloor | rpeg/src/codec.rs:12-13 | `x & !1` is 2 * (x / 2): even, at most x and at least x - 1 |
| BlockGeometry.CompressBlockCount | rpeg/src/codec.rs:14 | the count is defined exactly when 4 * (width/2) * (height/2) fits a u32, and is then (width/2) * (height/2) |
| BlockGeometry.DecompressBlockCount | rpeg/src/codec.rs:53 | a count that exists fits a u32 and its blocks hold no more pixels than the image |
| BlockGeometry.BlockCountsAgree | rpeg/src/codec.rs:12-53 | from the even dimensions the compressor writes, the decompressor counts as many blocks as were encoded; for even dimensions the two formulas are equal |
| BlockGeometry.DecompressCountDefined | rpeg/src/codec.rs:53-55 | when width * height fits a u32, as the image allocation needs, the block count does not overflow |
| BlockGeometry.TopLeftCorner | rpeg/src/codec.rs:103 | the corner of block num is in pixel row 2 * (num / (w/2)) and column 2 * (num % (w/2)) |
| BlockGeometry.BlockPixels | rpeg/src/codec.rs:65-68 | pixel k of the block is k / 2 rows below and k % 2 columns right of the corner |
| BlockGeometry.BlockPixelsInImage | rpeg/src/codec.rs:102-109 | for w >= 2 (odd or even) and num below the block count, the four indices are pairwise distinct and below w * h |
| BlockGeometry.BlockOfBlockPixels | rpeg/src/codec.rs:62-68 | each of block num's four pixels maps back to num |
| BlockGeometry.BlocksDisjoint | rpeg/src/codec.rs:60-68 | different blocks share no pixel |
| BlockGeometry.PixelInItsBlock | rpeg/src/codec.rs:53-68 | every pixel outside an odd last row or column is one of the four pixels of a block below the block count |
| BlockGeometry.InBlockPixels | rpeg/src/codec.rs:62-68 | a pixel is one of block num's four exactly when it is in the even region and maps to num |
| BlockGeometry.DecodedOwners | rpeg/src/codec.rs:53-89 | when the u32 product `width * height` of the allocation does not overflow, the loop runs over the decompressor's block count and afterwards each pixel of the even region was written by the block it belongs to, and every other pixel keeps the white it was allocated with |
| BlockGeometry.WriteBlock | rpeg/src/codec.rs:86-88 | the four writes of a block change its four pixels and nothing else |

## Left out

- File and standard-stream I/O: `RgbImage::read` and `write`, `read_in_rpeg_data` and `output_rpeg_data` (rpeg/src/codec.rs:9, 46, 51, 90). These are calls into code that is not part of this model.
- The colour transform, the DCT, `quantize` and `expand` (all of rpeg/src/dct_trans.rs), the chroma tables `index_of_chroma` and `chroma_of_index`, and the channel scaling in `get_pixel_data` and `set_pixel_data`. These are `f32` computations or foreign lookups. As a result, the block values reach `Pack` as parameters.
- The compressor's loop (rpeg/src/codec.rs:16-45) is not modelled as a method. Its integer parts are: the block count, the pixel indices of `get_pixel_data`, and `pack` with its `as u32` cast.
- Byte order: `to_be_bytes` and `from_be_bytes` (rpeg/src/codec.rs:44, 71) are standard-library calls. The model keeps the word as a number.
- Codec.Pack: a DC value of 512 or more, which the float quantizer can produce, is the `None` result of `Pack`; the model does not trace where such a value comes from.
- BlockGeometry.DecodedOwners: each pixel records the number of the block that writes it, in place of the colours computed for it, because those colours are float computations. The result array stands in for the image's pixel vector.
- BlockGeometry.DecodedOwners: requires that the u32 product `width * height` does not overflow. Past that, a debug build panics at the allocation, and a release build allocates a wrapped, too-small pixel vector and panics at the first out-of-bounds write; neither panic is modelled.
- BlockGeometry.CompressBlockCount, BlockGeometry.DecompressBlockCount: an overflowing u32 product is `None`, the panic of a debug build; the silent wrap-around of a release build is not modelled.
- BlockGeometry.BlockPixelsInImage: indices are unbounded numbers. The bound `< w * h` rules out u32 wrap-around only when `w * h` fits a u32. For an odd width the compressor's count can fit while the indices of `get_pixel_data` do not, for example width 3 and height 2^31 - 2; that wrap-around is not modelled.
- Bitpack.Fitsi, Bitpack.Fitsu: they require 1 <= width <= 64. For a width above 64 the subtraction `64 - width` underflows, which panics in a debug build. For width 0 the shift by 64 is out of range. Neither error path is modelled.
- Bitpack.Geti, Bitpack.Getu: they require 1 <= width and width + lsb <= 64. Above that, the subtraction `64 - width - lsb` underflows and panics in a debug build; that error path is not modelled.
- Bitpack.Newi, Bitpack.Newu: they require 1 <= width and width + lsb <= 64, the field invariant that every call site keeps. With width + lsb > 64 the Rust code does not panic: for lsb < 64 the shift by lsb silently drops the mask and value bits above bit 63, and a value that does not fit still gives None. That truncating behaviour is not modelled.

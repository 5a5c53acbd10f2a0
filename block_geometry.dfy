/**
 * The integer arithmetic around the 2x2 blocks of the image codec: rounding
 * the image dimensions down to even numbers, counting the blocks, and the
 * four pixel indices of block `num` in a row-major image `w` pixels wide.
 *
 * Block `num` sits in block row `num / (w / 2)` and block column
 * `num % (w / 2)`; its pixels are the two rows and two columns below and to
 * the right of its top-left corner. An odd last column or row belongs to no
 * block.
 */
module BlockGeometry {
  import opened Powers
  import opened MachineWords
  import opened Bitpack

  const U32_MODULUS: int := 0x1_0000_0000

  /** `!1_u32`: every bit of a u32 but the lowest. */
  const CLEAR_LOW_BIT: u32 := 0xFFFF_FFFE

  // ---------------------------------------------------------------------
  // Dimensions and block counts.

  /** `x & !1_u32`: x rounded down to an even number. */
  function EvenFloor(x: u32): (r: u32)
    ensures r == 2 * (x / 2)
    ensures r % 2 == 0 && r <= x && x - 1 <= r
  {
    ClearLowBitOfU32(x);
    Double(x / 2);
    AndBits(x, CLEAR_LOW_BIT, 32)
  }

  /**
   * The number of blocks `compress` encodes: `(width * height) / 4` over the
   * even-rounded dimensions, or None where that u32 product overflows, which
   * panics. A count that exists fits a u32.
   */
  function CompressBlockCount(width: u32, height: u32): (r: Option<int>)
    ensures r.Some? ==> 0 <= r.value < U32_MODULUS
    ensures r.Some? <==> 4 * ((width / 2) * (height / 2)) < U32_MODULUS
    ensures r.Some? ==> r.value == (width / 2) * (height / 2)
  {
    var w, h := EvenFloor(width), EvenFloor(height);
    FourBlocks(w, h, width / 2, height / 2);
    if w * h < U32_MODULUS then Some((w * h) / 4) else None
  }

  /**
   * The number of blocks `decompress` decodes: `(width / 2) * (height / 2)`,
   * or None where that u32 product overflows. A count that exists fits a
   * u32, and the blocks never hold more pixels than the image.
   */
  function DecompressBlockCount(width: u32, height: u32): (r: Option<int>)
    ensures r.Some? ==> 0 <= r.value < U32_MODULUS
    ensures r.Some? ==> 4 * r.value <= width * height
  {
    HalvesBelow(width, height);
    if (width / 2) * (height / 2) < U32_MODULUS then Some((width / 2) * (height / 2)) else None
  }

  /**
   * The compressor writes the even-rounded dimensions to the file, and from
   * them the decompressor counts as many blocks as were encoded. For even
   * dimensions the two formulas agree outright.
   */
  lemma BlockCountsAgree(width: u32, height: u32)
    ensures CompressBlockCount(width, height).Some? ==>
      DecompressBlockCount(EvenFloor(width), EvenFloor(height)) == CompressBlockCount(width, height)
    ensures width % 2 == 0 && height % 2 == 0 && CompressBlockCount(width, height).Some? ==>
      DecompressBlockCount(width, height) == CompressBlockCount(width, height)
  {
    var a, b := width / 2, height / 2;
    Double(a);
    Double(b);
    MulMonotone(0, a, b);
    DivModFacts(width, 2);
    DivModFacts(height, 2);
  }

  /**
   * Whenever the product `width * height` that sizes the decoded image does
   * not overflow, the block count cannot either: once the image is
   * allocated, the count is defined.
   */
  lemma DecompressCountDefined(width: u32, height: u32)
    requires width * height < U32_MODULUS
    ensures DecompressBlockCount(width, height).Some?
  {
    HalvesBelow(width, height);
  }

  // ---------------------------------------------------------------------
  // The pixels of a block.

  /** The top-left pixel of block `num`, in row 2 * (its block row), column 2 * (its block column). */
  function TopLeftCorner(num: nat, w: nat): (tlc: nat)
    requires w >= 2
    ensures tlc / w == 2 * (num / (w / 2)) && tlc % w == 2 * (num % (w / 2))
  {
    var q, r := num / (w / 2), num % (w / 2);
    assert q * (w * 2) == (2 * q) * w;
    DivModSplit(2 * q, w, 2 * r);
    (num / (w / 2)) * (w * 2) + (num % (w / 2)) * 2
  }

  /**
   * The indices of block `num`'s top-left, top-right, bottom-left and
   * bottom-right pixels: pixel k lies k / 2 rows below and k % 2 columns right
   * of the corner.
   */
  function BlockPixels(num: nat, w: nat): (ps: seq<nat>)
    requires w >= 2
    ensures |ps| == 4
    ensures forall k :: 0 <= k < 4 ==>
      ps[k] / w == 2 * (num / (w / 2)) + k / 2 && ps[k] % w == 2 * (num % (w / 2)) + k % 2
  {
    var tlc := TopLeftCorner(num, w);
    var row, col := tlc / w, tlc % w;
    DivModFacts(tlc, w);
    Step(tlc, w, row, col, 0, 1);
    Step(tlc, w, row, col, 1, 0);
    Step(tlc, w, row, col, 1, 1);
    [tlc, tlc + 1, tlc + w, tlc + w + 1]
  }

  /** The block a pixel of the even region belongs to: block row times blocks per row, plus block column. */
  function BlockOf(p: nat, w: nat): nat
    requires w >= 2
  {
    ((p / w) / 2) * (w / 2) + (p % w) / 2
  }

  /**
   * Every block before the block count names four distinct pixels of the
   * image; being below `w * h`, none of them overflows a u32 when the image's
   * pixel count does not.
   */
  lemma BlockPixelsInImage(num: nat, w: nat, h: nat)
    requires w >= 2 && num < (w / 2) * (h / 2)
    ensures forall k :: 0 <= k < 4 ==> BlockPixels(num, w)[k] < w * h
    ensures forall i, j :: 0 <= i < j < 4 ==> BlockPixels(num, w)[i] != BlockPixels(num, w)[j]
  {
    var ps := BlockPixels(num, w);
    var q := num / (w / 2);
    DivBelow(num, w / 2, h / 2);
    DivModFacts(h, 2);
    assert 2 * q + 1 < h;
    forall k | 0 <= k < 4
      ensures ps[k] < w * h
    {
      RowBelow(ps[k], w, h);
    }
  }

  /** Each of the four pixels of block `num` maps back to block `num`. */
  lemma BlockOfBlockPixels(num: nat, w: nat)
    requires w >= 2
    ensures forall k :: 0 <= k < 4 ==> BlockOf(BlockPixels(num, w)[k], w) == num
  {
    DivModFacts(num, w / 2);
  }

  /** Two different blocks share no pixel, so no pixel is written twice. */
  lemma BlocksDisjoint(m: nat, n: nat, w: nat)
    requires w >= 2 && m != n
    ensures forall i, j :: 0 <= i < 4 && 0 <= j < 4 ==> BlockPixels(m, w)[i] != BlockPixels(n, w)[j]
  {
    BlockOfBlockPixels(m, w);
    BlockOfBlockPixels(n, w);
  }

  /**
   * Every pixel outside the odd last row and column belongs to a block before
   * the block count, and is one of that block's four pixels.
   */
  lemma PixelInItsBlock(p: nat, w: nat, h: nat)
    requires w >= 2
    requires p / w < 2 * (h / 2) && p % w < 2 * (w / 2)
    ensures BlockOf(p, w) < (w / 2) * (h / 2)
    ensures p in BlockPixels(BlockOf(p, w), w)
  {
    var row, col := p / w, p % w;
    HalfBelow(row, h / 2);
    HalfBelow(col, w / 2);
    BelowProduct(row / 2, h / 2, w / 2, col / 2);
    DivModSplit(row / 2, w / 2, col / 2);
    var k := 2 * (row % 2) + col % 2;
    var ps := BlockPixels(BlockOf(p, w), w);
    assert ps[k] / w == row && ps[k] % w == col;
    SamePlace(ps[k], p, w);
  }

  // ---------------------------------------------------------------------
  // The pixel writes of `decompress`.

  /** The mark of a pixel that no block writes: it keeps the white it was allocated with. */
  const NO_BLOCK: int := -1

  /** Pixel p lies in a row and a column that some block covers. */
  predicate InEvenRegion(p: nat, w: nat, h: nat) {
    w >= 2 && p / w < 2 * (h / 2) && p % w < 2 * (w / 2)
  }

  /** A pixel of the image is one of block `num`'s four exactly when it lies in the even region and maps to `num`. */
  lemma InBlockPixels(p: nat, num: nat, w: nat, h: nat)
    requires w >= 2 && num < (w / 2) * (h / 2)
    ensures p in BlockPixels(num, w) <==> InEvenRegion(p, w, h) && BlockOf(p, w) == num
  {
    var ps := BlockPixels(num, w);
    if p in ps {
      var k :| 0 <= k < 4 && ps[k] == p;
      BlockOfBlockPixels(num, w);
      DivBelow(num, w / 2, h / 2);
      DivModFacts(h, 2);
      HalfBelowTwice(num % (w / 2), w / 2);
    } else if InEvenRegion(p, w, h) && BlockOf(p, w) == num {
      PixelInItsBlock(p, w, h);
    }
  }

  /**
   * The image `decompress` fills in, `width * height` pixels allocated white,
   * with each pixel recording the block whose colours it receives. Blocks are
   * taken in order and each writes its four pixels. Every pixel of the even
   * region ends up written by the block it belongs to, and no other pixel is
   * written. The u32 product `width * height` must not overflow: a debug
   * build panics on it, and a release build allocates too few pixels and
   * panics on the first write past them.
   */
  method DecodedOwners(width: u32, height: u32) returns (owner: array<int>)
    requires width * height < U32_MODULUS
    ensures owner.Length == width * height
    ensures forall p :: 0 <= p < owner.Length ==>
      owner[p] == (if InEvenRegion(p, width, height) then BlockOf(p, width) else NO_BLOCK)
  {
    owner := new int[width * height](_ => NO_BLOCK);
    DecompressCountDefined(width, height);
    var blocks := DecompressBlockCount(width, height).value;
    var num := 0;
    while num < blocks
      invariant 0 <= num <= blocks
      invariant owner.Length == width * height
      invariant forall p :: 0 <= p < owner.Length ==>
        owner[p] == (if InEvenRegion(p, width, height) && BlockOf(p, width) < num then BlockOf(p, width) else NO_BLOCK)
    {
      WideEnough(width, height, num);
      var ps := BlockPixels(num, width);
      BlockPixelsInImage(num, width, height);
      WriteBlock(owner, num, ps);
      forall p | 0 <= p < owner.Length
        ensures owner[p] == (if InEvenRegion(p, width, height) && BlockOf(p, width) < num + 1 then BlockOf(p, width) else NO_BLOCK)
      {
        InBlockPixels(p, num, width, height);
      }
      num := num + 1;
    }
    forall p | 0 <= p < owner.Length && InEvenRegion(p, width, height)
      ensures BlockOf(p, width) < blocks
    {
      PixelInItsBlock(p, width, height);
    }
  }

  /** The four writes of one block: its pixels get its number, all others are unchanged. */
  method WriteBlock(owner: array<int>, num: nat, ps: seq<nat>)
    requires |ps| == 4 && forall k :: 0 <= k < 4 ==> ps[k] < owner.Length
    modifies owner
    ensures forall p :: 0 <= p < owner.Length ==> owner[p] == (if p in ps then num else old(owner[p]))
  {
    owner[ps[0]] := num;
    owner[ps[1]] := num;
    owner[ps[2]] := num;
    owner[ps[3]] := num;
  }

  // ---------------------------------------------------------------------
  // The arithmetic behind the contracts.

  /** Clearing bit 0 of an n-bit number halves it and doubles it back. */
  lemma ClearLowBit(x: int, n: nat, mask: int)
    requires n >= 1 && 0 <= x < Pow2(n) && mask == Pow2(n) - 2
    ensures AndBits(x, mask, n) == 2 * (x / 2)
  {
    assert mask % 2 == 0 && mask / 2 == Pow2(n - 1) - 1;
    AndBitsComm(x / 2, mask / 2, n - 1);
    AndOnesKeeps(x / 2, n - 1);
  }

  lemma Double(k: int)
    ensures (2 * k) % 2 == 0 && (2 * k) / 2 == k
  {
    DivModUnique(2 * k, 2, k, 0);
  }

  /** Two even dimensions hold four times as many pixels as blocks. */
  lemma FourBlocks(w: int, h: int, a: int, b: int)
    requires w == 2 * a && h == 2 * b && 0 <= a && 0 <= b
    ensures w * h == 4 * (a * b) && (w * h) / 4 == a * b && 0 <= a * b <= w * h
  {
    MulMonotone(0, a, b);
  }

  /** `x & !1_u32` for a u32 x. */
  lemma ClearLowBitOfU32(x: int)
    requires 0 <= x < U32_MODULUS
    ensures AndBits(x, CLEAR_LOW_BIT, 32) == 2 * (x / 2)
  {
    Pow2Values();
    ClearLowBit(x, 32, CLEAR_LOW_BIT);
  }

  /** The halves of two dimensions multiply to at most a quarter of their product. */
  lemma HalvesBelow(width: nat, height: nat)
    ensures 4 * ((width / 2) * (height / 2)) <= width * height
  {
    var a, b := width / 2, height / 2;
    FourBlocks(2 * a, 2 * b, a, b);
    MulMonotone(2 * a, width, 2 * b);
    MulMonotone(2 * b, height, width);
  }

  /** A pixel in one of the image's rows is inside the image. */
  lemma RowBelow(p: nat, w: nat, h: nat)
    requires w > 0 && p / w < h
    ensures p < w * h
  {
    DivModFacts(p, w);
    BelowProduct(p / w, h, w, p % w);
  }

  /** A block before the count exists only when the image is at least two pixels wide. */
  lemma WideEnough(w: nat, h: nat, num: nat)
    requires num < (w / 2) * (h / 2)
    ensures w >= 2
  {
  }

  /** A block column below m gives pixel columns below 2 * m. */
  lemma HalfBelowTwice(c: nat, m: nat)
    requires c < m
    ensures 2 * c + 1 < 2 * m
  {
  }

  /** Halving a number below 2 * m gives a number below m. */
  lemma HalfBelow(x: nat, m: nat)
    requires x < 2 * m
    ensures x / 2 < m
  {
    DivModFacts(x, 2);
  }

  /** Two pixels in the same row and column are the same pixel. */
  lemma SamePlace(x: nat, y: nat, w: nat)
    requires w > 0 && x / w == y / w && x % w == y % w
    ensures x == y
  {
    DivModFacts(x, w);
    DivModFacts(y, w);
  }

  /** A number below m * d has a quotient by d below m. */
  lemma DivBelow(x: nat, d: nat, m: nat)
    requires d > 0 && x < d * m
    ensures x / d < m
  {
    DivModFacts(x, d);
    if x / d >= m {
      MulMonotone(m, x / d, d);
    }
  }

  /** One step down and/or right of a pixel that is not in the last column. */
  lemma Step(tlc: int, w: int, row: int, col: int, dy: int, dx: int)
    requires w > 0 && tlc == row * w + col && 0 <= col && col + 1 < w
    requires 0 <= dy <= 1 && 0 <= dx <= 1
    ensures (tlc + dy * w + dx) / w == row + dy && (tlc + dy * w + dx) % w == col + dx
  {
    assert tlc + dy * w + dx == (row + dy) * w + (col + dx);
    DivModSplit(row + dy, w, col + dx);
  }
}

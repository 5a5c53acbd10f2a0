/**
 * The block word of the image codec: the six quantized values of one 2x2
 * pixel block packed into the low 32 bits of a u64.
 *
 *   bits 23..31  a   unsigned, 9 bits  (the DC coefficient)
 *   bits 18..22  b   signed,   5 bits
 *   bits 13..17  c   signed,   5 bits
 *   bits  8..12  d   signed,   5 bits
 *   bits  4..7   pb  unsigned, 4 bits  (chroma index)
 *   bits  0..3   pr  unsigned, 4 bits  (chroma index)
 *
 * `pack` writes the fields one after the other with the bit-field library
 * and unwraps each result; `unpack` reads them back.
 */
module Codec {
  import opened Powers
  import opened MachineWords
  import opened Bitpack

  /** The values `pack` takes and `unpack` returns, in the same order. */
  datatype Block = Block(a: u64, b: i64, c: i64, d: i64, pb: u64, pr: u64)

  /** Where a field sits in the word and how it is read. */
  datatype FieldSpec = FieldSpec(width: nat, lsb: nat, signed: bool)

  /** The six fields, in the order `pack` writes them. */
  const LAYOUT: seq<FieldSpec> := [
    FieldSpec(9, 23, false), FieldSpec(5, 18, true), FieldSpec(5, 13, true),
    FieldSpec(5, 8, true), FieldSpec(4, 4, false), FieldSpec(4, 0, false)]

  /** Every value fits its field: the case in which no `unwrap` of `pack` panics. */
  predicate InRange(blk: Block) {
    blk.a < 512 && -16 <= blk.b < 16 && -16 <= blk.c < 16 && -16 <= blk.d < 16 && blk.pb < 16 && blk.pr < 16
  }

  /**
   * The word a block stands for, written as a sum of shifted fields. A signed
   * field holds the low five bits of its value's two's complement, which is
   * the value modulo 32.
   */
  function BlockWord(blk: Block): (r: int)
    requires InRange(blk)
    ensures 0 <= r < 0x1_0000_0000
  {
    blk.a * 0x80_0000 + (blk.b % 32) * 0x4_0000 + (blk.c % 32) * 0x2000 + (blk.d % 32) * 0x100
      + blk.pb * 0x10 + blk.pr
  }

  // ---------------------------------------------------------------------
  // The two operations.

  /** The six fields of a word, each read with its own width and offset. */
  function Unpack(word: u64): (blk: Block)
    ensures InRange(blk)
  {
    Pow2Values();
    Block(Getu(word, 9, 23), Geti(word, 5, 18), Geti(word, 5, 13), Geti(word, 5, 8),
      Getu(word, 4, 4), Getu(word, 4, 0))
  }

  /**
   * The word holding the six values, or None where one of the six `unwrap`s
   * panics because a value does not fit its field (the ranges of InRange).
   * The word starts at 0 and each write goes to bits that are still zero.
   */
  method Pack(a: u64, b: i64, c: i64, d: i64, pb: u64, pr: u64) returns (r: Option<u64>)
    ensures r.Some? <==> a < 512 && -16 <= b < 16 && -16 <= c < 16 && -16 <= d < 16 && pb < 16 && pr < 16
    ensures r.Some? ==> r.value == BlockWord(Block(a, b, c, d, pb, pr))
    ensures r.Some? ==> r.value < 0x1_0000_0000 && Unpack(r.value) == Block(a, b, c, d, pb, pr)
  {
    Pow2Values();
    // After each write, `word` is `high` shifted up to the field just
    // written: the fields written so far, and zeros below them.
    var word: u64 := 0;

    var next := Newu(word, 9, 23, a);
    if next.None? {
      return None;
    }
    NewuOfParts(word, 9, 23, 0x80_0000, 0x1_0000_0000, a, 0, 0, 0);
    word := next.value;
    var high := a;

    var nextI := Newi(word, 5, 18, b);
    if nextI.None? {
      return None;
    }
    NewiOfParts(word, 5, 18, 0x4_0000, 0x80_0000, b, high, 0, 0, b % 32);
    word := nextI.value;
    high := high * 32 + b % 32;

    nextI := Newi(word, 5, 13, c);
    if nextI.None? {
      return None;
    }
    NewiOfParts(word, 5, 13, 0x2000, 0x4_0000, c, high, 0, 0, c % 32);
    word := nextI.value;
    high := high * 32 + c % 32;

    nextI := Newi(word, 5, 8, d);
    if nextI.None? {
      return None;
    }
    NewiOfParts(word, 5, 8, 0x100, 0x2000, d, high, 0, 0, d % 32);
    word := nextI.value;
    high := high * 32 + d % 32;

    next := Newu(word, 4, 4, pb);
    if next.None? {
      return None;
    }
    NewuOfParts(word, 4, 4, 0x10, 0x100, pb, high, 0, 0);
    word := next.value;
    high := high * 16 + pb;

    next := Newu(word, 4, 0, pr);
    if next.None? {
      return None;
    }
    NewuOfPartsLow(word, 4, 0x10, pr, high, 0);
    word := next.value;

    UnpackBlockWord(Block(a, b, c, d, pb, pr));
    r := Some(word);
  }

  // ---------------------------------------------------------------------
  // Round trips.

  /** Unpacking the word of an in-range block gives the block back. */
  lemma UnpackBlockWord(blk: Block)
    requires InRange(blk)
    ensures Unpack(BlockWord(blk)) == blk
  {
    Pow2Values();
    var word := BlockWord(blk);
    var b, c, d := blk.b % 32, blk.c % 32, blk.d % 32;
    var h1 := blk.a;
    var h2 := h1 * 32 + b;
    var h3 := h2 * 32 + c;
    var h4 := h3 * 32 + d;
    var h5 := h4 * 16 + blk.pb;
    GetOfParts(word, 9, 23, 0x80_0000, 0x1_0000_0000, 0, h1, word - h1 * 0x80_0000);
    GetOfParts(word, 5, 18, 0x4_0000, 0x80_0000, h1, b, word - h2 * 0x4_0000);
    GetOfParts(word, 5, 13, 0x2000, 0x4_0000, h2, c, word - h3 * 0x2000);
    GetOfParts(word, 5, 8, 0x100, 0x2000, h3, d, word - h4 * 0x100);
    GetOfParts(word, 4, 4, 0x10, 0x100, h4, blk.pb, blk.pr);
    GetOfPartsLow(word, 4, 0x10, h5, blk.pr);
    SignExtendLowBits(blk.b, 5);
    SignExtendLowBits(blk.c, 5);
    SignExtendLowBits(blk.d, 5);
  }

  /**
   * Every 32-bit word is the word of its unpacking: no bit of the low 32 is
   * lost, and the signed fields come back as the same five bits.
   */
  lemma BlockWordOfUnpack(word: u64)
    requires word < 0x1_0000_0000
    ensures BlockWord(Unpack(word)) == word
  {
    Pow2Values();
    var blk := Unpack(word);
    SignExtendRange((word / Pow2(18)) % Pow2(5), 5);
    SignExtendRange((word / Pow2(13)) % Pow2(5), 5);
    SignExtendRange((word / Pow2(8)) % Pow2(5), 5);
    assert blk.pr == word % 16 by {
      assert Pow2(0) == 1;
    }
    Digits(word);
  }

  /**
   * `compress` stores `pack(..) as u32` and `decompress` widens the stored
   * word back with `as u64` before unpacking: the cast to 32 bits keeps the
   * whole word, so the stored word unpacks to the block that was packed.
   */
  lemma StoredWordRoundTrip(blk: Block)
    requires InRange(blk)
    ensures BlockWord(blk) % 0x1_0000_0000 == BlockWord(blk)
    ensures Unpack(BlockWord(blk) % 0x1_0000_0000) == blk
  {
    DivModUnique(BlockWord(blk), 0x1_0000_0000, 0, BlockWord(blk));
    UnpackBlockWord(blk);
  }

  /** A word below 2^32 in the digits of the layout. */
  lemma Digits(word: int)
    requires 0 <= word < 0x1_0000_0000
    ensures word == (word / Pow2(23)) % Pow2(9) * 0x80_0000 + (word / Pow2(18)) % Pow2(5) * 0x4_0000
      + (word / Pow2(13)) % Pow2(5) * 0x2000 + (word / Pow2(8)) % Pow2(5) * 0x100
      + (word / Pow2(4)) % Pow2(4) * 0x10 + word % 16
  {
    Pow2Values();
    FieldDecomposition(word, 23, 9);
    FieldDecomposition(word, 18, 5);
    FieldDecomposition(word, 13, 5);
    FieldDecomposition(word, 8, 5);
    FieldDecomposition(word, 4, 4);
    DivModUnique(word, Pow2(32), 0, word);
  }

  // ---------------------------------------------------------------------
  // The layout.

  /** Bit `bit` of the word belongs to field f. */
  predicate Covers(f: FieldSpec, bit: nat) {
    f.lsb <= bit < f.lsb + f.width
  }

  /** The field that bit `bit` of a 32-bit word belongs to. */
  function FieldAt(bit: nat): (i: nat)
    requires bit < 32
    ensures i < |LAYOUT| && Covers(LAYOUT[i], bit)
  {
    if bit >= 23 then 0 else if bit >= 18 then 1 else if bit >= 13 then 2
    else if bit >= 8 then 3 else if bit >= 4 then 4 else 5
  }

  /** The value of block field i, in the order of LAYOUT. */
  function Component(blk: Block, i: nat): int
    requires i < |LAYOUT|
  {
    if i == 0 then blk.a else if i == 1 then blk.b else if i == 2 then blk.c
    else if i == 3 then blk.d else if i == 4 then blk.pb else blk.pr
  }

  /** Field f of a word, read as the layout says: with geti when signed, with getu otherwise. */
  function ReadField(word: u64, f: FieldSpec): int
    requires ValidField(f.width, f.lsb)
  {
    if f.signed then Geti(word, f.width, f.lsb) else Getu(word, f.width, f.lsb)
  }

  /** `unpack` reads every field where LAYOUT places it, and in the way LAYOUT says. */
  lemma UnpackFollowsLayout(word: u64)
    ensures forall i :: 0 <= i < |LAYOUT| ==>
      ValidField(LAYOUT[i].width, LAYOUT[i].lsb) && ReadField(word, LAYOUT[i]) == Component(Unpack(word), i)
  {
    Pow2Values();
  }

  /**
   * The word of an in-range block holds each of its six values in the field
   * LAYOUT gives it: the layout proved disjoint below is the one `pack` and
   * `unpack` use.
   */
  lemma BlockWordFollowsLayout(blk: Block)
    requires InRange(blk)
    ensures forall i :: 0 <= i < |LAYOUT| ==>
      ValidField(LAYOUT[i].width, LAYOUT[i].lsb) && ReadField(BlockWord(blk), LAYOUT[i]) == Component(blk, i)
  {
    UnpackFollowsLayout(BlockWord(blk));
    UnpackBlockWord(blk);
  }

  /**
   * The six fields are valid bit-field positions, pairwise disjoint, and
   * together cover bits 0 to 31 and nothing above: each write of `pack`
   * leaves the earlier fields alone, and the word fits a u32.
   */
  lemma LayoutTiles()
    ensures |LAYOUT| == 6
    ensures forall i :: 0 <= i < |LAYOUT| ==> ValidField(LAYOUT[i].width, LAYOUT[i].lsb)
    ensures forall i, j, bit :: 0 <= i < j < |LAYOUT| && Covers(LAYOUT[i], bit) ==> !Covers(LAYOUT[j], bit)
    ensures forall i, bit :: 0 <= i < |LAYOUT| && Covers(LAYOUT[i], bit) ==> bit < 32
    ensures forall i :: 0 <= i < |LAYOUT| ==> (LAYOUT[i].signed <==> LAYOUT[i].width == 5)
  {
  }
}

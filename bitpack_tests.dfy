/**
 * The unit tests of the bit-field library, stated as lemmas and one method
 * about the model: the 8-bit bounds of fitsi and fitsu, a word built field by
 * field and read back, and the full-width edge cases.
 *
 * Each per-write lemma takes the word it writes into as a parameter pinned by
 * its `requires`: with every argument a literal, the verifier unfolds the
 * shift and mask definitions on constants, which costs far more.
 */
module BitpackTests {
  import opened Powers
  import opened MachineWords
  import opened Bitpack

  /** `!0_u64`, all 64 bits set. */
  const ALL_ONES: u64 := 0xFFFF_FFFF_FFFF_FFFF

  /** The word that the build test produces and the read test takes apart. */
  const BUILT_WORD: u64 := 0xD41F268F

  /** An 8-bit signed field holds -128 to 127 and nothing beyond. */
  lemma FitsiEightBitBounds()
    ensures Fitsi(-128, 8) && !Fitsi(-129, 8)
    ensures Fitsi(127, 8) && !Fitsi(128, 8)
  {
    Pow2Values();
  }

  /** An 8-bit unsigned field holds 0 to 255 and nothing beyond. */
  lemma FitsuEightBitBounds()
    ensures Fitsu(0, 8) && Fitsu(255, 8) && !Fitsu(256, 8)
  {
    Pow2Values();
  }

  /**
   * Starting from `!0_u32 as u64`, eight 4-bit fields are written from the
   * top down, each over ones. Every `unwrap` of the test succeeds, and the
   * result is BUILT_WORD. One lemma per write states what that write does.
   */
  method BuildWord() returns (word: u64)
    ensures word == BUILT_WORD
  {
    word := 0xFFFF_FFFF;
    WriteAt28(word);
    word := Newi(word, 4, 28, -3).value;
    WriteAt24(word);
    word := Newu(word, 4, 24, 4).value;
    WriteAt20(word);
    word := Newu(word, 4, 20, 1).value;
    WriteAt16(word);
    word := Newu(word, 4, 16, 15).value;
    WriteAt12(word);
    word := Newu(word, 4, 12, 2).value;
    WriteAt8(word);
    word := Newu(word, 4, 8, 6).value;
    WriteAt4(word);
    word := Newi(word, 4, 4, -8).value;
    WriteAt0(word);
    word := Newi(word, 4, 0, -1).value;
  }

  /** The signed write of -3 at bit 28. */
  lemma WriteAt28(word: u64)
    requires word == 0xFFFF_FFFF
    ensures Newi(word, 4, 28, -3) == Some(0xDFFF_FFFF)
  {
    Pow2Values();
    NewiOfParts(word, 4, 28, 0x1000_0000, 0x1_0000_0000, -3, 0x0, 0xF, 0xFFF_FFFF, 0xD);
  }

  /** The unsigned write of 4 at bit 24. */
  lemma WriteAt24(word: u64)
    requires word == 0xDFFF_FFFF
    ensures Newu(word, 4, 24, 4) == Some(0xD4FF_FFFF)
  {
    Pow2Values();
    NewuOfParts(word, 4, 24, 0x100_0000, 0x1000_0000, 4, 0xD, 0xF, 0xFF_FFFF);
  }

  /** The unsigned write of 1 at bit 20. */
  lemma WriteAt20(word: u64)
    requires word == 0xD4FF_FFFF
    ensures Newu(word, 4, 20, 1) == Some(0xD41F_FFFF)
  {
    Pow2Values();
    NewuOfParts(word, 4, 20, 0x10_0000, 0x100_0000, 1, 0xD4, 0xF, 0xF_FFFF);
  }

  /** The unsigned write of 15 at bit 16. */
  lemma WriteAt16(word: u64)
    requires word == 0xD41F_FFFF
    ensures Newu(word, 4, 16, 15) == Some(0xD41F_FFFF)
  {
    Pow2Values();
    NewuOfParts(word, 4, 16, 0x1_0000, 0x10_0000, 15, 0xD41, 0xF, 0xFFFF);
  }

  /** The unsigned write of 2 at bit 12. */
  lemma WriteAt12(word: u64)
    requires word == 0xD41F_FFFF
    ensures Newu(word, 4, 12, 2) == Some(0xD41F_2FFF)
  {
    Pow2Values();
    NewuOfParts(word, 4, 12, 0x1000, 0x1_0000, 2, 0xD41F, 0xF, 0xFFF);
  }

  /** The unsigned write of 6 at bit 8. */
  lemma WriteAt8(word: u64)
    requires word == 0xD41F_2FFF
    ensures Newu(word, 4, 8, 6) == Some(0xD41F_26FF)
  {
    Pow2Values();
    NewuOfParts(word, 4, 8, 0x100, 0x1000, 6, 0xD_41F2, 0xF, 0xFF);
  }

  /** The signed write of -8 at bit 4. */
  lemma WriteAt4(word: u64)
    requires word == 0xD41F_26FF
    ensures Newi(word, 4, 4, -8) == Some(0xD41F_268F)
  {
    Pow2Values();
    NewiOfParts(word, 4, 4, 0x10, 0x100, -8, 0xD4_1F26, 0xF, 0xF, 0x8);
  }

  /** The signed write of -1 at bit 0. */
  lemma WriteAt0(word: u64)
    requires word == 0xD41F_268F
    ensures Newi(word, 4, 0, -1) == Some(0xD41F_268F)
  {
    Pow2Values();
    NewiOfPartsLow(word, 4, 16, -1, 0xD41_F268, 0xF, 0xF);
  }

  /** Each field of BUILT_WORD reads back as the value written into it. */
  lemma GetWord()
    ensures Geti(BUILT_WORD, 4, 28) == -3
    ensures Getu(BUILT_WORD, 4, 24) == 4
    ensures Getu(BUILT_WORD, 4, 20) == 1
    ensures Getu(BUILT_WORD, 4, 16) == 15
    ensures Getu(BUILT_WORD, 4, 12) == 2
    ensures Getu(BUILT_WORD, 4, 8) == 6
    ensures Geti(BUILT_WORD, 4, 4) == -8
    ensures Geti(BUILT_WORD, 4, 0) == -1
  {
    ReadAt28();
    ReadAt24();
    ReadAt20();
    ReadAt16();
    ReadAt12();
    ReadAt8();
    ReadAt4();
    ReadAt0();
  }

  /** The field at bit 28 of BUILT_WORD. */
  lemma ReadAt28()
    ensures Geti(BUILT_WORD, 4, 28) == -3
  {
    Pow2Values();
    GetOfParts(BUILT_WORD, 4, 28, 0x1000_0000, 0x1_0000_0000, 0x0, 0xD, 0x41F_268F);
  }

  /** The field at bit 24 of BUILT_WORD. */
  lemma ReadAt24()
    ensures Getu(BUILT_WORD, 4, 24) == 4
  {
    Pow2Values();
    GetOfParts(BUILT_WORD, 4, 24, 0x100_0000, 0x1000_0000, 0xD, 0x4, 0x1F_268F);
  }

  /** The field at bit 20 of BUILT_WORD. */
  lemma ReadAt20()
    ensures Getu(BUILT_WORD, 4, 20) == 1
  {
    Pow2Values();
    GetOfParts(BUILT_WORD, 4, 20, 0x10_0000, 0x100_0000, 0xD4, 0x1, 0xF_268F);
  }

  /** The field at bit 16 of BUILT_WORD. */
  lemma ReadAt16()
    ensures Getu(BUILT_WORD, 4, 16) == 15
  {
    Pow2Values();
    GetOfParts(BUILT_WORD, 4, 16, 0x1_0000, 0x10_0000, 0xD41, 0xF, 0x268F);
  }

  /** The field at bit 12 of BUILT_WORD. */
  lemma ReadAt12()
    ensures Getu(BUILT_WORD, 4, 12) == 2
  {
    Pow2Values();
    GetOfParts(BUILT_WORD, 4, 12, 0x1000, 0x1_0000, 0xD41F, 0x2, 0x68F);
  }

  /** The field at bit 8 of BUILT_WORD. */
  lemma ReadAt8()
    ensures Getu(BUILT_WORD, 4, 8) == 6
  {
    Pow2Values();
    GetOfParts(BUILT_WORD, 4, 8, 0x100, 0x1000, 0xD_41F2, 0x6, 0x8F);
  }

  /** The field at bit 4 of BUILT_WORD. */
  lemma ReadAt4()
    ensures Geti(BUILT_WORD, 4, 4) == -8
  {
    Pow2Values();
    GetOfParts(BUILT_WORD, 4, 4, 0x10, 0x100, 0xD4_1F26, 0x8, 0xF);
  }

  /** The field at bit 0 of BUILT_WORD. */
  lemma ReadAt0()
    ensures Geti(BUILT_WORD, 4, 0) == -1
  {
    Pow2Values();
    GetOfPartsLow(BUILT_WORD, 4, 16, 0xD41_F268, 0xF);
  }

  /**
   * A 64-bit field at bit 0 is the whole word: writing any value into it
   * gives that value, whatever the word held. The test writes all ones into 0.
   */
  lemma NewuFullWidth(word: u64, value: u64)
    ensures Newu(word, 64, 0, value) == Some(value)
    ensures Newu(0, 64, 0, ALL_ONES) == Some(ALL_ONES)
  {
    FullWidthFits(value, 0);
    WholeWord(word, value);
    FullWidthFits(ALL_ONES, 0);
    WholeWord(0, ALL_ONES);
  }

  /**
   * Writing a signed value into the 64-bit field gives its two's-complement
   * bits; the test writes -1 and gets all ones.
   */
  lemma NewiFullWidth(word: u64, value: i64)
    ensures Newi(word, 64, 0, value) == Some(AsU64(value))
    ensures Newi(0, 64, 0, -1) == Some(ALL_ONES)
  {
    FullWidthFits(0, value);
    TwosComplement(value);
    WholeWord(word, AsU64(value));
    FullWidthFits(0, -1);
    TwosComplement(-1);
    WholeWord(0, ALL_ONES);
  }

  /** The 64-bit field at bit 0 reads back as the whole word. */
  lemma GetuFullWidth(word: u64)
    ensures Getu(word, 64, 0) == word
    ensures Getu(ALL_ONES, 64, 0) == ALL_ONES
  {
    WholeField(word);
    WholeField(ALL_ONES);
  }

  /** The signed 64-bit field reads back as the word cast to i64; all ones is -1. */
  lemma GetiFullWidth(word: u64)
    ensures Geti(word, 64, 0) == AsI64(word)
    ensures Geti(ALL_ONES, 64, 0) == -1
  {
    Pow2Word();
    WholeField(word);
    WholeField(ALL_ONES);
  }

  /** Reducing an i64 modulo 2^64 gives its u64 reading. */
  lemma TwosComplement(value: i64)
    ensures value % Pow2(64) == AsU64(value)
  {
    Pow2Word();
    AsU64LowBits(value, 64);
    DivModUnique(AsU64(value), WORD_MODULUS, 0, AsU64(value));
  }

  /** Replacing all 64 bits leaves only the new field. */
  lemma WholeWord(word: u64, field: u64)
    ensures Replaced(word, 64, 0, field) == field
  {
    assert Pow2(0) == 1;
    Pow2Word();
    DivModUnique(word, WORD_MODULUS, 0, word);
  }

  /** The 64 bits above bit 0 are the word itself. */
  lemma WholeField(word: u64)
    ensures (word / Pow2(0)) % Pow2(64) == word
  {
    assert Pow2(0) == 1;
    Pow2Word();
    DivModUnique(word, WORD_MODULUS, 0, word);
  }
}

/**
 * The bit-field library: signed and unsigned fields of 1 to 64 bits at any
 * offset inside a 64-bit word.
 *
 * Each operation is written with the shifts and masks of the Rust source;
 * its contract states what those shifts and masks amount to, in terms of
 * plain arithmetic on the field's value.
 */
module Bitpack {
  import opened Powers
  import opened MachineWords

  datatype Option<T> = None | Some(value: T)

  /** A field of `width` bits starting at bit `lsb` lies inside a 64-bit word. */
  predicate ValidField(width: nat, lsb: nat) {
    1 <= width && width + lsb <= 64
  }

  /** The value that the `width`-bit two's-complement pattern f stands for. */
  function SignExtend(f: int, width: nat): int
    requires width >= 1
  {
    if f < Pow2(width - 1) then f else f - Pow2(width)
  }

  /** `word` with bits [lsb, lsb + width) replaced by `field`, all other bits kept. */
  function Replaced(word: u64, width: nat, lsb: nat, field: int): int {
    (word / Pow2(lsb + width)) * Pow2(lsb + width) + field * Pow2(lsb) + word % Pow2(lsb)
  }

  // ---------------------------------------------------------------------
  // The six operations.

  /** Does n survive being truncated to `width` bits and sign-extended back? */
  function Fitsi(n: i64, width: nat): (r: bool)
    requires 1 <= width <= 64
    ensures r <==> -Pow2(width - 1) <= n < Pow2(width - 1)
  {
    SignedFieldOfShifts(AsU64(n), width, 0);
    AsU64LowBits(n, width);
    SignExtendLowBits(n, width);
    n == Sar(ShlI64(n, 64 - width), 64 - width)
  }

  /** Does n survive being truncated to `width` bits? */
  function Fitsu(n: u64, width: nat): (r: bool)
    requires 1 <= width <= 64
    ensures r <==> n < Pow2(width)
  {
    UnsignedFieldOfShifts(n, width, 0);
    ModIdentity(n, Pow2(width));
    n == Shr(Shl(n, 64 - width), 64 - width)
  }

  /** The signed field of `width` bits at `lsb`, sign-extended to 64 bits. */
  function Geti(word: u64, width: nat, lsb: nat): (r: i64)
    requires ValidField(width, lsb)
    ensures r == SignExtend(Getu(word, width, lsb), width)
    ensures -Pow2(width - 1) <= r < Pow2(width - 1)
  {
    SignedFieldOfShifts(word, width, lsb);
    SignExtendRange(Getu(word, width, lsb), width);
    Sar(AsI64(Shl(word, 64 - width - lsb)), 64 - width)
  }

  /** The unsigned field of `width` bits at `lsb`, zero-extended to 64 bits. */
  function Getu(word: u64, width: nat, lsb: nat): (r: u64)
    requires ValidField(width, lsb)
    ensures r == (word / Pow2(lsb)) % Pow2(width)
    ensures r < Pow2(width)
  {
    UnsignedFieldOfShifts(word, width, lsb);
    Shr(Shl(word, 64 - width - lsb), 64 - width)
  }

  /**
   * `word` with the signed `value` written into bits [lsb, lsb + width),
   * or None when `value` does not fit. The low `width` bits of the value's
   * two's complement are what lands in the field. The mask
   * `!(-1_i128 << width)` is built in 128 bits so that width 64 does not
   * shift a 64-bit value by 64.
   */
  function Newi(word: u64, width: nat, lsb: nat, value: i64): (r: Option<u64>)
    requires ValidField(width, lsb)
    ensures r.None? <==> !Fitsi(value, width)
    ensures r.Some? ==> r.value == Replaced(word, width, lsb, value % Pow2(width))
  {
    if Fitsi(value, width) then
      var valueBits := AsU64(AndI64(value, TruncI128ToI64(NotSigned(ShlI128(-1, width)))));
      ValueMaskLowBits(value, width);
      AsU64LowBits(value, width);
      NewFieldWord(word, width, lsb, valueBits);
      Some(Or(And(Not(Shl(Shr(Not(0), 64 - width), lsb)), word), Shl(valueBits, lsb)))
    else
      None
  }

  /**
   * `word` with the unsigned `value` written into bits [lsb, lsb + width),
   * or None when `value` does not fit.
   */
  function Newu(word: u64, width: nat, lsb: nat, value: u64): (r: Option<u64>)
    requires ValidField(width, lsb)
    ensures r.None? <==> !Fitsu(value, width)
    ensures r.Some? ==> r.value == Replaced(word, width, lsb, value)
  {
    if Fitsu(value, width) then
      NewFieldWord(word, width, lsb, value);
      Some(Or(And(Not(Shl(Shr(Not(0), 64 - width), lsb)), word), Shl(value, lsb)))
    else
      None
  }

  // ---------------------------------------------------------------------
  // Properties of the operations.

  /** Reading back an unsigned field just written gives the value written. */
  lemma GetuNewu(word: u64, width: nat, lsb: nat, value: u64)
    requires ValidField(width, lsb) && Fitsu(value, width)
    ensures Newu(word, width, lsb, value).Some?
    ensures Getu(Newu(word, width, lsb, value).value, width, lsb) == value
  {
    ReplacedParts(word, width, lsb, value);
  }

  /** Reading back a signed field just written gives the value written. */
  lemma GetiNewi(word: u64, width: nat, lsb: nat, value: i64)
    requires ValidField(width, lsb) && Fitsi(value, width)
    ensures Newi(word, width, lsb, value).Some?
    ensures Geti(Newi(word, width, lsb, value).value, width, lsb) == value
  {
    ReplacedParts(word, width, lsb, value % Pow2(width));
    SignExtendLowBits(value, width);
  }

  /** Newu changes no bit outside [lsb, lsb + width). */
  lemma NewuKeepsOtherBits(word: u64, width: nat, lsb: nat, value: u64, i: nat)
    requires ValidField(width, lsb) && Fitsu(value, width)
    requires i < 64 && (i < lsb || lsb + width <= i)
    ensures Bit(Newu(word, width, lsb, value).value, i) == Bit(word, i)
  {
    ReplacedKeepsOtherBits(word, width, lsb, value, i);
  }

  /** Newi changes no bit outside [lsb, lsb + width). */
  lemma NewiKeepsOtherBits(word: u64, width: nat, lsb: nat, value: i64, i: nat)
    requires ValidField(width, lsb) && Fitsi(value, width)
    requires i < 64 && (i < lsb || lsb + width <= i)
    ensures Bit(Newi(word, width, lsb, value).value, i) == Bit(word, i)
  {
    ReplacedKeepsOtherBits(word, width, lsb, value % Pow2(width), i);
  }

  /** Every u64 fits a 64-bit field, and every i64 a 64-bit signed one. */
  lemma FullWidthFits(n: u64, m: i64)
    ensures Fitsu(n, 64) && Fitsi(m, 64)
  {
    Pow2Values();
  }

  // ---------------------------------------------------------------------
  // A word written as three numbers: hi above bit lsb + width, the field,
  // and lo below lsb. Used to work out concrete words.

  /** The field of a number written as hi, field, lo. */
  lemma GetOfParts(word: u64, width: nat, lsb: nat, unit: int, top: int, hi: int, field: int, lo: int)
    requires ValidField(width, lsb) && unit == Pow2(lsb) && top == Pow2(lsb + width)
    requires 0 <= field < Pow2(width) && 0 <= lo < unit
    requires word == hi * top + field * unit + lo
    ensures Getu(word, width, lsb) == field
    ensures Geti(word, width, lsb) == SignExtend(field, width)
  {
    SegmentsOf(word, hi, field, lo, width, lsb);
  }

  /** GetOfParts for a field at bit 0. */
  lemma GetOfPartsLow(word: u64, width: nat, span: int, hi: int, field: int)
    requires 1 <= width <= 64 && span == Pow2(width) && 0 <= field < span
    requires word == hi * span + field
    ensures Getu(word, width, 0) == field
    ensures Geti(word, width, 0) == SignExtend(field, width)
  {
    assert Pow2(0) == 1;
    GetOfParts(word, width, 0, 1, span, hi, field, 0);
  }

  /** Replacing the middle digit of a number written as hi, previous, lo. */
  lemma ReplacedOfParts(word: u64, width: nat, lsb: nat, unit: int, top: int, hi: int, previous: int, lo: int, field: int)
    requires width + lsb <= 64 && unit == Pow2(lsb) && top == Pow2(lsb + width)
    requires 0 <= previous < Pow2(width) && 0 <= lo < unit
    requires word == hi * top + previous * unit + lo
    ensures Replaced(word, width, lsb, field) == hi * top + field * unit + lo
  {
    SegmentsOf(word, hi, previous, lo, width, lsb);
    PartsOf(word, width, lsb);
  }

  /** Writing an unsigned value over the middle digit of hi, previous, lo. */
  lemma NewuOfParts(word: u64, width: nat, lsb: nat, unit: int, top: int, value: u64, hi: int, previous: int, lo: int)
    requires ValidField(width, lsb) && unit == Pow2(lsb) && top == Pow2(lsb + width)
    requires 0 <= previous < Pow2(width) && 0 <= lo < unit
    requires word == hi * top + previous * unit + lo
    requires value < Pow2(width)
    ensures Newu(word, width, lsb, value).Some?
    ensures Newu(word, width, lsb, value).value == hi * top + value * unit + lo
  {
    ReplacedOfParts(word, width, lsb, unit, top, hi, previous, lo, value);
  }

  /** Writing a signed value over the middle digit of hi, previous, lo. */
  lemma NewiOfParts(word: u64, width: nat, lsb: nat, unit: int, top: int, value: i64, hi: int, previous: int, lo: int, field: int)
    requires ValidField(width, lsb) && unit == Pow2(lsb) && top == Pow2(lsb + width)
    requires 0 <= previous < Pow2(width) && 0 <= lo < unit
    requires word == hi * top + previous * unit + lo
    requires -Pow2(width - 1) <= value < Pow2(width - 1) && field == value % Pow2(width)
    ensures Newi(word, width, lsb, value).Some?
    ensures Newi(word, width, lsb, value).value == hi * top + field * unit + lo
  {
    ReplacedOfParts(word, width, lsb, unit, top, hi, previous, lo, field);
  }

  /** NewuOfParts for a field at bit 0. */
  lemma NewuOfPartsLow(word: u64, width: nat, span: int, value: u64, hi: int, previous: int)
    requires 1 <= width <= 64 && span == Pow2(width) && 0 <= previous < span
    requires word == hi * span + previous
    requires value < span
    ensures Newu(word, width, 0, value).Some?
    ensures Newu(word, width, 0, value).value == hi * span + value
  {
    assert Pow2(0) == 1;
    NewuOfParts(word, width, 0, 1, span, value, hi, previous, 0);
  }

  /**
   * NewiOfParts for a field at bit 0. The fields at bit 0 have lemmas of
   * their own so that no caller states a fact about 2^0 with a literal
   * exponent, which the solver keeps unfolding.
   */
  lemma NewiOfPartsLow(word: u64, width: nat, span: int, value: i64, hi: int, previous: int, field: int)
    requires 1 <= width <= 64 && span == Pow2(width) && 0 <= previous < span
    requires word == hi * span + previous
    requires -Pow2(width - 1) <= value < Pow2(width - 1) && field == value % span
    ensures Newi(word, width, 0, value).Some?
    ensures Newi(word, width, 0, value).value == hi * span + field
  {
    assert Pow2(0) == 1;
    NewiOfParts(word, width, 0, 1, span, value, hi, previous, 0, field);
  }

  // ---------------------------------------------------------------------
  // The arithmetic behind the contracts.

  /** A number in three parts: h above bit lsb + w, m in the field, l below. */
  lemma SegmentDivMod(h: int, m: int, l: int, p: int, q: int)
    requires p > 0 && q > 0 && 0 <= m < q && 0 <= l < p
    ensures (h * (p * q) + m * p + l) % p == l
    ensures (h * (p * q) + m * p + l) / p == h * q + m
    ensures (h * q + m) % q == m && (h * q + m) / q == h
    ensures (h * (p * q) + m * p + l) / (p * q) == h
  {
    assert h * (p * q) + m * p + l == (h * q + m) * p + l;
    DivModSplit(h * q + m, p, l);
    DivModSplit(h, q, m);
    DivDiv(h * (p * q) + m * p + l, p, q);
  }

  /** Any x is its part above bit lsb + w, its field, and its part below lsb. */
  lemma FieldDecomposition(x: int, lsb: nat, w: nat)
    ensures x == (x / Pow2(lsb + w)) * Pow2(lsb + w) + ((x / Pow2(lsb)) % Pow2(w)) * Pow2(lsb) + x % Pow2(lsb)
    ensures x % Pow2(lsb + w) == ((x / Pow2(lsb)) % Pow2(w)) * Pow2(lsb) + x % Pow2(lsb)
  {
    var p, q := Pow2(lsb), Pow2(w);
    Pow2Add(lsb, w);
    SplitTwice(x, p, q);
    DivDiv(x, p, q);
    DivModUnique(x, p * q, (x / p) / q, ((x / p) % q) * p + x % p);
  }

  lemma ReplacedParts(word: u64, width: nat, lsb: nat, field: int)
    requires width + lsb <= 64 && 0 <= field < Pow2(width)
    ensures Replaced(word, width, lsb, field) % Pow2(lsb) == word % Pow2(lsb)
    ensures (Replaced(word, width, lsb, field) / Pow2(lsb)) % Pow2(width) == field
    ensures Replaced(word, width, lsb, field) / Pow2(lsb + width) == word / Pow2(lsb + width)
    ensures 0 <= Replaced(word, width, lsb, field) < WORD_MODULUS
  {
    var p, q := Pow2(lsb), Pow2(width);
    var h, l := word / Pow2(lsb + width), word % Pow2(lsb);
    Pow2Add(lsb, width);
    SegmentDivMod(h, field, l, p, q);
    ReplacedBound(word, width, lsb, field);
  }

  lemma ReplacedBound(word: u64, width: nat, lsb: nat, field: int)
    requires width + lsb <= 64 && 0 <= field < Pow2(width)
    ensures 0 <= Replaced(word, width, lsb, field) < WORD_MODULUS
  {
    var p, PQ, rest := Pow2(lsb), Pow2(lsb + width), Pow2(64 - (lsb + width));
    var h, l := word / PQ, word % p;
    var t := field * p + l;
    assert 0 <= t < PQ by {
      Pow2Add(lsb, width);
      FieldBelow(field, l, p, Pow2(width));
    }
    assert WORD_MODULUS == PQ * rest by {
      WordSplit(lsb + width);
    }
    assert 0 <= h < rest by {
      DivShrinks(word, PQ);
      QuotientBelow(word, PQ, rest);
    }
    BelowProduct(h, rest, PQ, t);
  }

  /** n is its own remainder exactly when it is below the modulus. */
  lemma ModIdentity(n: int, d: int)
    requires 0 <= n && d > 0
    ensures n % d == n <==> n < d
  {
    if n < d {
      DivModUnique(n, d, 0, n);
    }
  }

  /** x < d * n makes x / d < n. */
  lemma QuotientBelow(x: int, d: int, n: int)
    requires d > 0 && 0 <= x < d * n
    ensures x / d < n
  {
    if x / d >= n {
      MulMonotone(n, x / d, d);
    }
  }

  lemma FieldBelow(m: int, l: int, p: int, q: int)
    requires p > 0 && 0 <= m < q && 0 <= l < p
    ensures 0 <= m * p + l < p * q
  {
    MulMonotone(m, q - 1, p);
    MulMonotone(0, m, p);
  }

  lemma ReplacedKeepsOtherBits(word: u64, width: nat, lsb: nat, field: int, i: nat)
    requires width + lsb <= 64 && 0 <= field < Pow2(width)
    requires i < lsb || lsb + width <= i
    ensures Bit(Replaced(word, width, lsb, field), i) == Bit(word, i)
  {
    var r := Replaced(word, width, lsb, field);
    ReplacedParts(word, width, lsb, field);
    if i < lsb {
      BitBelow(r, lsb, i);
      BitBelow(word, lsb, i);
    } else {
      BitAbove(r, lsb + width, i);
      BitAbove(word, lsb + width, i);
    }
  }

  /** `(word << (64 - w - lsb)) >> (64 - w)` is the w-bit field at lsb. */
  lemma UnsignedFieldOfShifts(word: u64, w: nat, lsb: nat)
    requires ValidField(w, lsb)
    ensures Shr(Shl(word, 64 - w - lsb), 64 - w) == (word / Pow2(lsb)) % Pow2(w)
  {
    Pow2Word();
    FieldOfShifts(word, w, lsb, 64);
  }

  /** The same on n-bit words: shifting the field to the top and back down isolates it. */
  lemma FieldOfShifts(word: int, w: nat, lsb: nat, n: nat)
    requires w + lsb <= n
    ensures ((word * Pow2(n - w - lsb)) % Pow2(n)) / Pow2(n - w) == (word / Pow2(lsb)) % Pow2(w)
  {
    var K, P, Q := Pow2(n - w - lsb), Pow2(lsb), Pow2(w);
    assert Pow2(n) == K * (P * Q) && Pow2(n - w) == K * P by {
      Pow2Add(n - w - lsb, lsb + w);
      Pow2Add(lsb, w);
      Pow2Add(n - w - lsb, lsb);
    }
    ShiftAlgebra(word, K, P, Q, Pow2(n), Pow2(n - w));
  }

  lemma ShiftAlgebra(x: int, K: int, P: int, Q: int, N: int, D: int)
    requires K > 0 && P > 0 && Q > 0 && N == K * (P * Q) && D == K * P
    ensures ((x * K) % N) / D == (x / P) % Q
  {
    MulMod(x, K, P * Q);
    MulDivCancel(x % (P * Q), K, P);
    ModDiv(x, P, Q);
  }

  /** The arithmetic shift of the top-aligned field is its sign extension. */
  lemma SignedFromUnsigned(s: u64, w: nat)
    requires 1 <= w <= 64
    ensures Sar(AsI64(s), 64 - w) == SignExtend(s / Pow2(64 - w), w)
  {
    Pow2Word();
    SignedTopField(s, AsI64(s), w, 64);
  }

  /**
   * On n-bit words: the field in the top w bits of s, read through the
   * signed value t of s, is the sign extension of that field.
   */
  lemma SignedTopField(s: int, t: int, w: nat, n: nat)
    requires 1 <= w <= n && 0 <= s < Pow2(n)
    requires t == if s < Pow2(n - 1) then s else s - Pow2(n)
    ensures t / Pow2(n - w) == SignExtend(s / Pow2(n - w), w)
  {
    var D, F, R := Pow2(n - w), s / Pow2(n - w), s % Pow2(n - w);
    var half, full := Pow2(w - 1), Pow2(w);
    assert Pow2(n - 1) == half * D && Pow2(n) == full * D && full == 2 * half by {
      Pow2Add(w - 1, n - w);
      Pow2Add(w, n - w);
    }
    DivModFacts(s, D);
    if F < half {
      BelowProduct(F, half, D, R);
      DivModUnique(t, D, F, R);
    } else {
      MulMonotone(half, F, D);
      MulSub(F, full, D);
      DivModUnique(t, D, F - full, R);
    }
  }

  /** The signed shift formula of geti is the sign extension of getu's field. */
  lemma SignedFieldOfShifts(word: u64, w: nat, lsb: nat)
    requires ValidField(w, lsb)
    ensures Sar(AsI64(Shl(word, 64 - w - lsb)), 64 - w) == SignExtend((word / Pow2(lsb)) % Pow2(w), w)
  {
    UnsignedFieldOfShifts(word, w, lsb);
    SignedFromUnsigned(Shl(word, 64 - w - lsb), w);
  }

  lemma SignExtendRange(f: int, w: nat)
    requires w >= 1 && 0 <= f < Pow2(w)
    ensures -Pow2(w - 1) <= SignExtend(f, w) < Pow2(w - 1)
    ensures SignExtend(f, w) % Pow2(w) == f
  {
    assert Pow2(w) == 2 * Pow2(w - 1);
    if f >= Pow2(w - 1) {
      DivModUnique(f - Pow2(w), Pow2(w), -1, f);
    } else {
      DivModUnique(f, Pow2(w), 0, f);
    }
  }

  /** Sign-extending the low w bits of n gives n back exactly when n is in range. */
  lemma SignExtendLowBits(n: int, w: nat)
    requires w >= 1
    ensures SignExtend(n % Pow2(w), w) == n <==> -Pow2(w - 1) <= n < Pow2(w - 1)
  {
    assert Pow2(w) == 2 * Pow2(w - 1);
    SignExtendRange(n % Pow2(w), w);
    if 0 <= n < Pow2(w - 1) {
      DivModUnique(n, Pow2(w), 0, n);
    } else if -Pow2(w - 1) <= n < 0 {
      DivModUnique(n, Pow2(w), -1, n + Pow2(w));
    }
  }

  /** `(!0 >> (64 - w)) << lsb` has ones exactly on bits [lsb, lsb + w). */
  lemma FieldMask(w: nat, lsb: nat)
    requires ValidField(w, lsb)
    ensures Shr(Not(0), 64 - w) == Pow2(w) - 1
    ensures Shl(Shr(Not(0), 64 - w), lsb) == (Pow2(w) - 1) * Pow2(lsb)
  {
    OnesMask(w);
    ShiftedMask(Shr(Not(0), 64 - w), w, lsb);
  }

  /** A mask of w ones moved up by lsb loses no bits. */
  lemma ShiftedMask(mask: u64, w: nat, lsb: nat)
    requires ValidField(w, lsb) && mask == Pow2(w) - 1
    ensures Shl(mask, lsb) == mask * Pow2(lsb)
  {
    MaskShiftNoOverflow(w, lsb);
    ShlNoOverflow(mask, lsb);
  }

  /** `!0 >> (64 - w)` is w ones. */
  lemma OnesMask(w: nat)
    requires 1 <= w <= 64
    ensures Shr(Not(0), 64 - w) == Pow2(w) - 1
  {
    var D, Q := Pow2(64 - w), Pow2(w);
    assert Not(0) == (Q - 1) * D + (D - 1) by {
      WordSplit(w);
      MulSub(Q, 1, D);
    }
    DivModUnique(Not(0), D, Q - 1, D - 1);
  }

  lemma MaskShiftNoOverflow(w: nat, lsb: nat)
    requires ValidField(w, lsb)
    ensures (Pow2(w) - 1) * Pow2(lsb) < WORD_MODULUS
  {
    Pow2Word();
    MaskBelow(w, lsb, 64);
  }

  /** A mask of w ones shifted to lsb fits in n bits. */
  lemma MaskBelow(w: nat, lsb: nat, n: nat)
    requires w + lsb <= n
    ensures (Pow2(w) - 1) * Pow2(lsb) < Pow2(n)
  {
    Pow2Add(w, lsb);
    Pow2Monotone(w + lsb, n);
    ProductBelow(Pow2(w), Pow2(lsb), Pow2(w + lsb), Pow2(n));
  }

  lemma ProductBelow(q: int, p: int, qp: int, bound: int)
    requires p > 0 && qp == q * p && qp <= bound
    ensures (q - 1) * p < bound
  {
  }

  /** Conjunction works part by part on numbers split at bits lsb and lsb + w. */
  lemma AndParts(x: int, y: int, h1: int, m1: int, l1: int, h2: int, m2: int, l2: int, w: nat, lsb: nat, n: nat,
               H: int, M: int, L: int)
    requires w + lsb <= n
    requires x % Pow2(lsb) == l1 && (x / Pow2(lsb)) % Pow2(w) == m1 && (x / Pow2(lsb)) / Pow2(w) == h1
    requires y % Pow2(lsb) == l2 && (y / Pow2(lsb)) % Pow2(w) == m2 && (y / Pow2(lsb)) / Pow2(w) == h2
    requires AndBits(h1, h2, n - lsb - w) == H && AndBits(m1, m2, w) == M && AndBits(l1, l2, lsb) == L
    ensures AndBits(x, y, n) == H * Pow2(lsb + w) + M * Pow2(lsb) + L
  {
    var p, q := Pow2(lsb), Pow2(w);
    AndBitsSplitAt(x, y, lsb, n, l1, l2, x / p, y / p);
    AndBitsSplitAt(x / p, y / p, w, n - lsb, m1, m2, h1, h2);
    Pow2Add(lsb, w);
    Recombine(AndBits(x, y, n), AndBits(x / p, y / p, n - lsb), AndBits(l1, l2, lsb), AndBits(m1, m2, w),
              AndBits(h1, h2, n - lsb - w), p, q, Pow2(lsb + w), H, M, L);
  }

  /** Disjunction works part by part on numbers split at bits lsb and lsb + w. */
  lemma OrParts(x: int, y: int, h1: int, m1: int, l1: int, h2: int, m2: int, l2: int, w: nat, lsb: nat, n: nat,
               H: int, M: int, L: int)
    requires w + lsb <= n
    requires x % Pow2(lsb) == l1 && (x / Pow2(lsb)) % Pow2(w) == m1 && (x / Pow2(lsb)) / Pow2(w) == h1
    requires y % Pow2(lsb) == l2 && (y / Pow2(lsb)) % Pow2(w) == m2 && (y / Pow2(lsb)) / Pow2(w) == h2
    requires OrBits(h1, h2, n - lsb - w) == H && OrBits(m1, m2, w) == M && OrBits(l1, l2, lsb) == L
    ensures OrBits(x, y, n) == H * Pow2(lsb + w) + M * Pow2(lsb) + L
  {
    var p, q := Pow2(lsb), Pow2(w);
    OrBitsSplitAt(x, y, lsb, n, l1, l2, x / p, y / p);
    OrBitsSplitAt(x / p, y / p, w, n - lsb, m1, m2, h1, h2);
    Pow2Add(lsb, w);
    Recombine(OrBits(x, y, n), OrBits(x / p, y / p, n - lsb), OrBits(l1, l2, lsb), OrBits(m1, m2, w),
              OrBits(h1, h2, n - lsb - w), p, q, Pow2(lsb + w), H, M, L);
  }

  /** Two levels of base-p and base-q digits make one number in base p * q. */
  lemma Recombine(A: int, B: int, C: int, D: int, E: int, p: int, q: int, pq: int, H: int, M: int, L: int)
    requires A == C + p * B && B == D + q * E && pq == p * q
    requires E == H && D == M && C == L
    ensures A == H * pq + M * p + L
  {
  }

  lemma Regroup(h: int, m: int, l: int, p: int, q: int)
    ensures h * (p * q) + m * p + l == (h * q + m) * p + l
  {
  }

  /** The three parts of a number written as h above bit lsb + w, m in the field, l below. */
  lemma SegmentsOf(x: int, h: int, m: int, l: int, w: nat, lsb: nat)
    requires 0 <= m < Pow2(w) && 0 <= l < Pow2(lsb)
    requires x == h * Pow2(lsb + w) + m * Pow2(lsb) + l
    ensures x % Pow2(lsb) == l && (x / Pow2(lsb)) % Pow2(w) == m && (x / Pow2(lsb)) / Pow2(w) == h
  {
    var p, q := Pow2(lsb), Pow2(w);
    Pow2Add(lsb, w);
    Regroup(h, m, l, p, q);
    DivModSplit(h * q + m, p, l);
    DivModSplit(h, q, m);
  }

  /** The parts of any number: what lies above bit lsb + w, the field, and what lies below lsb. */
  lemma PartsOf(x: int, w: nat, lsb: nat)
    ensures (x / Pow2(lsb)) / Pow2(w) == x / Pow2(lsb + w)
  {
    Pow2Add(lsb, w);
    DivDiv(x, Pow2(lsb), Pow2(w));
  }

  // The clearing and filling steps are proved for words of any n bits and
  // used with n = 64; a known word size makes the solver's work much larger.

  /** The clearing mask of an n-bit word: ones above the field, zeros in it, ones below. */
  lemma ClearMaskParts(c: int, w: nat, lsb: nat, n: nat)
    requires w + lsb <= n && c == Pow2(n) - 1 - (Pow2(w) - 1) * Pow2(lsb)
    ensures c % Pow2(lsb) == Pow2(lsb) - 1 && (c / Pow2(lsb)) % Pow2(w) == 0
    ensures (c / Pow2(lsb)) / Pow2(w) == Pow2(n - lsb - w) - 1
  {
    var p, q, a := Pow2(lsb), Pow2(w), Pow2(n - lsb - w);
    assert c == (a - 1) * Pow2(lsb + w) + 0 * p + (p - 1) by {
      Pow2Add(lsb + w, n - lsb - w);
      Pow2Add(lsb, w);
      ClearMaskValue(a, p, q, Pow2(lsb + w));
    }
    SegmentsOf(c, a - 1, 0, p - 1, w, lsb);
  }

  lemma ClearMaskValue(a: int, p: int, q: int, pq: int)
    requires pq == p * q
    ensures pq * a - 1 - (q - 1) * p == (a - 1) * pq + 0 * p + (p - 1)
  {
  }

  /** Conjunction with the clearing mask zeroes the field and keeps the rest of the word. */
  lemma ClearFieldBits(c: int, word: int, w: nat, lsb: nat, n: nat)
    requires w + lsb <= n && 0 <= word < Pow2(n)
    requires c == Pow2(n) - 1 - (Pow2(w) - 1) * Pow2(lsb)
    ensures AndBits(c, word, n) == (word / Pow2(lsb + w)) * Pow2(lsb + w) + word % Pow2(lsb)
  {
    ClearMaskParts(c, w, lsb, n);
    PartsOf(word, w, lsb);
    HighPartBelow(word, w, lsb, n);
    AndOnesKeeps(word / Pow2(lsb + w), n - lsb - w);
    AndZeroClears((word / Pow2(lsb)) % Pow2(w), w);
    AndOnesKeeps(word % Pow2(lsb), lsb);
    AndParts(c, word, Pow2(n - lsb - w) - 1, 0, Pow2(lsb) - 1,
             word / Pow2(lsb + w), (word / Pow2(lsb)) % Pow2(w), word % Pow2(lsb),
             w, lsb, n, word / Pow2(lsb + w), 0, word % Pow2(lsb));
  }

  /** What lies above a field of an n-bit word is below 2^(n - lsb - w). */
  lemma HighPartBelow(word: int, w: nat, lsb: nat, n: nat)
    requires w + lsb <= n && 0 <= word < Pow2(n)
    ensures 0 <= word / Pow2(lsb + w) < Pow2(n - lsb - w)
  {
    Pow2Add(lsb + w, n - lsb - w);
    DivShrinks(word, Pow2(lsb + w));
    QuotientBelow(word, Pow2(lsb + w), Pow2(n - lsb - w));
  }

  /** Disjunction with the shifted field fills the zeroed field and keeps the rest. */
  lemma FillFieldBits(x: int, y: int, H: int, L: int, w: nat, lsb: nat, field: int, n: nat)
    requires w + lsb <= n && 0 <= field < Pow2(w) && 0 <= L < Pow2(lsb)
    requires 0 <= H < Pow2(n - lsb - w)
    requires x == H * Pow2(lsb + w) + L && y == field * Pow2(lsb)
    ensures OrBits(x, y, n) == H * Pow2(lsb + w) + field * Pow2(lsb) + L
  {
    SegmentsOf(x, H, 0, L, w, lsb);
    ShiftedFieldParts(field, w, lsb);
    OrZeroKeeps(H, n - lsb - w);
    OrZeroKeeps(field, w);
    OrZeroKeeps(L, lsb);
    OrParts(x, y, H, 0, L, 0, field, 0, w, lsb, n, H, field, L);
  }

  /** The parts of `field << lsb`: nothing below lsb, the field, nothing above. */
  lemma ShiftedFieldParts(field: int, w: nat, lsb: nat)
    requires 0 <= field < Pow2(w)
    ensures var x := field * Pow2(lsb);
      x % Pow2(lsb) == 0 && (x / Pow2(lsb)) % Pow2(w) == field && (x / Pow2(lsb)) / Pow2(w) == 0
  {
    DivModSplit(field, Pow2(lsb), 0);
    DivModSplit(0, Pow2(w), field);
  }

  /** The shifts and masks of newi and newu store `field` and keep the rest of `word`. */
  lemma NewFieldWord(word: u64, w: nat, lsb: nat, field: u64)
    requires ValidField(w, lsb) && field < Pow2(w)
    ensures Or(And(Not(Shl(Shr(Not(0), 64 - w), lsb)), word), Shl(field, lsb))
         == Replaced(word, w, lsb, field)
  {
    ClearStep(word, w, lsb);
    FillStep(And(Not(Shl(Shr(Not(0), 64 - w), lsb)), word), word, w, lsb, field);
  }

  /** `!mask & word` for the field's mask keeps everything of `word` but the field. */
  lemma ClearStep(word: u64, w: nat, lsb: nat)
    requires ValidField(w, lsb)
    ensures And(Not(Shl(Shr(Not(0), 64 - w), lsb)), word) == (word / Pow2(lsb + w)) * Pow2(lsb + w) + word % Pow2(lsb)
  {
    ClearMaskOfWord(w, lsb);
    Pow2Word();
    ClearFieldBits(Not(Shl(Shr(Not(0), 64 - w), lsb)), word, w, lsb, 64);
  }

  /** `!((!0 >> (64 - w)) << lsb)` as a number. */
  lemma ClearMaskOfWord(w: nat, lsb: nat)
    requires ValidField(w, lsb)
    ensures Not(Shl(Shr(Not(0), 64 - w), lsb)) == Pow2(64) - 1 - (Pow2(w) - 1) * Pow2(lsb)
  {
    FieldMask(w, lsb);
    Pow2Word();
  }

  /** `cleared | (field << lsb)` puts the field into the cleared word. */
  lemma FillStep(cleared: u64, word: u64, w: nat, lsb: nat, field: u64)
    requires ValidField(w, lsb) && field < Pow2(w)
    requires cleared == (word / Pow2(lsb + w)) * Pow2(lsb + w) + word % Pow2(lsb)
    ensures Or(cleared, Shl(field, lsb)) == Replaced(word, w, lsb, field)
  {
    assert Shl(field, lsb) == field * Pow2(lsb) by {
      FieldShiftFits(field, w, lsb);
      ShlNoOverflow(field, lsb);
    }
    Pow2Word();
    HighPartBelow(word, w, lsb, 64);
    FillFieldBits(cleared, Shl(field, lsb), word / Pow2(lsb + w), word % Pow2(lsb), w, lsb, field, 64);
  }

  /** A field value shifted to lsb stays inside the word. */
  lemma FieldShiftFits(field: int, w: nat, lsb: nat)
    requires ValidField(w, lsb) && 0 <= field < Pow2(w)
    ensures field * Pow2(lsb) < WORD_MODULUS
  {
    MaskShiftNoOverflow(w, lsb);
    MulMonotone(field, Pow2(w) - 1, Pow2(lsb));
  }

  /** The i64 `value & !(-1_i128 << width) as i64`, read as u64, is value mod 2^width. */
  lemma ValueMaskLowBits(value: i64, width: nat)
    requires 1 <= width <= 64
    ensures AsU64(AndI64(value, TruncI128ToI64(NotSigned(ShlI128(-1, width))))) == AsU64(value) % Pow2(width)
  {
    var mask := TruncI128ToI64(NotSigned(ShlI128(-1, width)));
    LowOnesMask(width);
    AsU64AsI64(And(AsU64(value), AsU64(mask)));
    Pow2Word();
    AndLowOnes(AsU64(value), width, 64);
  }

  /** `!(-1_i128 << width) as i64`, read as u64, is width one-bits. */
  lemma LowOnesMask(width: nat)
    requires 1 <= width <= 64
    ensures AsU64(TruncI128ToI64(NotSigned(ShlI128(-1, width)))) == Pow2(width) - 1
  {
    var q := Pow2(width);
    Pow2Word();
    Pow2Monotone(width, 64);
    assert NotSigned(ShlI128(-1, width)) == q - 1;
    DivModUnique(q - 1, WORD_MODULUS, 0, q - 1);
    if width < 64 {
      Pow2Monotone(width, 63);
    }
  }

  lemma ZeroHighPart(a: int, low: int, q: int, high: int)
    requires a == low + q * high && high == 0
    ensures a == low
  {
  }

  /** Conjunction of an n-bit number with `width` one-bits keeps its low `width` bits. */
  lemma AndLowOnes(v: int, width: nat, n: nat)
    requires width <= n && 0 <= v < Pow2(n)
    ensures AndBits(v, Pow2(width) - 1, n) == v % Pow2(width)
  {
    var q := Pow2(width);
    DivModUnique(q - 1, q, 0, q - 1);
    DivModUnique(0, q, 0, 0);
    AndBitsSplitAt(v, q - 1, width, n, v % q, q - 1, v / q, 0);
    AndBitsOnes(v % q, width);
    DivModUnique(v % q, q, 0, v % q);
    AndBitsZero(v / q, n - width);
    ZeroHighPart(AndBits(v, q - 1, n), AndBits(v % q, q - 1, width), q, AndBits(v / q, 0, n - width));
  }
}

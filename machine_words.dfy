/**
 * Rust's fixed-width integers and the operators the bit-field library applies
 * to them, on unbounded integers.
 *
 * A `u64` is an integer in [0, 2^64), an `i64` one in [-2^63, 2^63). Shifts
 * are products and quotients by powers of two, with the wrap-around of `<<`
 * written out; casts between `u64` and `i64` reinterpret the same 64 bits in
 * two's complement; `&`, `|` and `!` act bit by bit. Shift amounts are kept
 * below the width, where Rust panics (debug) or masks the amount (release).
 */
module MachineWords {
  import opened Powers

  const WORD_MODULUS: int := 0x1_0000_0000_0000_0000
  const SIGN_BIT: int := 0x8000_0000_0000_0000

  type u64 = x: int | 0 <= x < 0x1_0000_0000_0000_0000
  type i64 = x: int | -0x8000_0000_0000_0000 <= x < 0x8000_0000_0000_0000
  type u32 = x: int | 0 <= x < 0x1_0000_0000
  type i128 = x: int | -0x8000_0000_0000_0000_0000_0000_0000_0000 <= x < 0x8000_0000_0000_0000_0000_0000_0000_0000

  /** `x << k` on u64: bits moved past bit 63 are lost. */
  function Shl(x: u64, k: nat): u64
    requires k < 64
  {
    (x * Pow2(k)) % WORD_MODULUS
  }

  /** `x >> k` on u64: a logical shift, zero-filling from the top. */
  function Shr(x: u64, k: nat): u64
    requires k < 64
  {
    DivShrinks(x, Pow2(k));
    x / Pow2(k)
  }

  /**
   * `n >> k` on i64: an arithmetic shift, which is division rounded towards
   * minus infinity. Dafny's `/` rounds that way whenever the divisor is
   * positive.
   */
  function Sar(n: i64, k: nat): i64
    requires k < 64
  {
    DivShrinks(n, Pow2(k));
    n / Pow2(k)
  }

  /** `x as i64` for x: u64. */
  function AsI64(x: u64): i64 {
    if x < SIGN_BIT then x else x - WORD_MODULUS
  }

  /** `n as u64` for n: i64. */
  function AsU64(n: i64): u64 {
    if n < 0 then n + WORD_MODULUS else n
  }

  /** `n << k` on i64: the same bits as the u64 shift, read back as signed. */
  function ShlI64(n: i64, k: nat): i64
    requires k < 64
  {
    AsI64(Shl(AsU64(n), k))
  }

  /** `!x` on u64. */
  function Not(x: u64): u64 {
    WORD_MODULUS - 1 - x
  }

  /** `x & y` on u64. */
  function And(x: u64, y: u64): u64 {
    Pow2Word();
    AndBits(x, y, 64)
  }

  /** `x | y` on u64. */
  function Or(x: u64, y: u64): u64 {
    Pow2Word();
    OrBits(x, y, 64)
  }

  /** `a & b` on i64: the u64 conjunction of their two's-complement bits. */
  function AndI64(a: i64, b: i64): i64 {
    AsI64(And(AsU64(a), AsU64(b)))
  }

  /** `n << k` on i128, for the small shifts the library needs (k <= 64). */
  function ShlI128(n: i128, k: nat): i128
    requires k <= 64
    requires -1 <= n <= 0
  {
    Pow2Word();
    Pow2Monotone(k, 64);
    n * Pow2(k)
  }

  /** `!n` on any signed two's-complement integer. */
  function NotSigned(n: i128): i128 {
    -1 - n
  }

  /** `n as i64` for n: i128: keeps the low 64 bits, read as signed. */
  function TruncI128ToI64(n: i128): i64 {
    AsI64(n % WORD_MODULUS)
  }

  // ---------------------------------------------------------------------
  // Bitwise operations on the low n bits of two naturals.

  /** The conjunction of the low n bits of x and y. */
  function AndBits(x: int, y: int, n: nat): (r: int)
    ensures 0 <= r < Pow2(n)
    decreases n
  {
    if n == 0 then 0
    else 2 * AndBits(x / 2, y / 2, n - 1) + (if x % 2 == 1 && y % 2 == 1 then 1 else 0)
  }

  /** The disjunction of the low n bits of x and y. */
  function OrBits(x: int, y: int, n: nat): (r: int)
    ensures 0 <= r < Pow2(n)
    decreases n
  {
    if n == 0 then 0
    else 2 * OrBits(x / 2, y / 2, n - 1) + (if x % 2 == 1 || y % 2 == 1 then 1 else 0)
  }

  /** Bit i of x. */
  predicate Bit(x: int, i: nat) {
    (x / Pow2(i)) % 2 == 1
  }

  // ---------------------------------------------------------------------
  // Facts about the operations.

  lemma DivShrinks(x: int, d: int)
    requires d >= 1
    ensures x >= 0 ==> 0 <= x / d <= x
    ensures x < 0 ==> x <= x / d < 0
  {
    var q, r := x / d, x % d;
    assert x == q * d + r && 0 <= r < d;
    if x >= 0 {
      if q < 0 {
        MulMonotone(q, -1, d);
      }
      if q > x {
        MulMonotone(1, d, q);
      }
    } else {
      if q >= 0 {
        MulMonotone(0, q, d);
      }
      if q < x {
        MulMonotone(1, d, -(q + 1));
      }
    }
  }

  lemma Pow2Word()
    ensures Pow2(64) == WORD_MODULUS && Pow2(63) == SIGN_BIT
  {
    Pow2Values();
  }

  /** The word modulus split at bit k. */
  lemma WordSplit(k: nat)
    requires k <= 64
    ensures WORD_MODULUS == Pow2(k) * Pow2(64 - k)
  {
    Pow2Word();
    Pow2Add(k, 64 - k);
  }

  lemma AsU64AsI64(x: u64)
    ensures AsU64(AsI64(x)) == x
  {
  }

  /** A shift that loses no bits is a plain product. */
  lemma ShlNoOverflow(x: u64, k: nat)
    requires k < 64 && x * Pow2(k) < WORD_MODULUS
    ensures Shl(x, k) == x * Pow2(k)
  {
  }

  /** The u64 reading of n agrees with n on its low w bits. */
  lemma AsU64LowBits(n: i64, w: nat)
    requires w <= 64
    ensures AsU64(n) % Pow2(w) == n % Pow2(w)
  {
    if n < 0 {
      Pow2Values();
      Pow2Add(64 - w, w);
      ModAddMultiple(n, Pow2(64 - w), Pow2(w));
    }
  }

  lemma ModAddMultiple(x: int, k: int, p: int)
    requires p > 0
    ensures (x + k * p) % p == x % p
  {
    var q, r := x / p, x % p;
    assert x + k * p == (q + k) * p + r;
    DivModUnique(x + k * p, p, q + k, r);
  }

  lemma {:induction false} AndBitsComm(x: int, y: int, n: nat)
    ensures AndBits(x, y, n) == AndBits(y, x, n)
    decreases n
  {
    if n > 0 {
      AndBitsComm(x / 2, y / 2, n - 1);
    }
  }

  lemma {:induction false} OrBitsComm(x: int, y: int, n: nat)
    ensures OrBits(x, y, n) == OrBits(y, x, n)
    decreases n
  {
    if n > 0 {
      OrBitsComm(x / 2, y / 2, n - 1);
    }
  }

  /** Conjunction with zero clears every bit. */
  lemma {:induction false} AndBitsZero(x: int, n: nat)
    ensures AndBits(x, 0, n) == 0
    decreases n
  {
    if n > 0 {
      AndBitsZero(x / 2, n - 1);
    }
  }

  /** Conjunction with n one-bits keeps the low n bits. */
  lemma {:induction false} AndBitsOnes(x: int, n: nat)
    ensures AndBits(x, Pow2(n) - 1, n) == x % Pow2(n)
    decreases n
  {
    if n > 0 {
      var ones := Pow2(n) - 1;
      assert ones / 2 == Pow2(n - 1) - 1 && ones % 2 == 1 by {
        DivModSplit(Pow2(n - 1) - 1, 2, 1);
      }
      AndBitsOnes(x / 2, n - 1);
      LowBitsStep(x, n);
      DivModFacts(x % Pow2(n), 2);
    }
  }

  /** Disjunction with zero keeps the low n bits. */
  lemma {:induction false} OrBitsZero(x: int, n: nat)
    ensures OrBits(x, 0, n) == x % Pow2(n)
    decreases n
  {
    if n > 0 {
      OrBitsZero(x / 2, n - 1);
      SplitTwice(x, 2, Pow2(n - 1));
      DivModUnique(x, 2 * Pow2(n - 1), (x / 2) / Pow2(n - 1), (x / 2) % Pow2(n - 1) * 2 + x % 2);
    }
  }

  /** Conjunction with n one-bits keeps an n-bit number. */
  lemma AndOnesKeeps(x: int, n: nat)
    requires 0 <= x < Pow2(n)
    ensures AndBits(Pow2(n) - 1, x, n) == x
  {
    AndBitsComm(Pow2(n) - 1, x, n);
    AndBitsOnes(x, n);
    DivModUnique(x, Pow2(n), 0, x);
  }

  lemma AndZeroClears(x: int, n: nat)
    ensures AndBits(0, x, n) == 0
  {
    AndBitsComm(0, x, n);
    AndBitsZero(x, n);
  }

  /** Disjunction with zero keeps an n-bit number, on either side. */
  lemma OrZeroKeeps(x: int, n: nat)
    requires 0 <= x < Pow2(n)
    ensures OrBits(x, 0, n) == x && OrBits(0, x, n) == x
  {
    OrBitsComm(0, x, n);
    OrBitsZero(x, n);
    DivModUnique(x, Pow2(n), 0, x);
  }

  /** (x % 2^p) splits into its low bit and the next p-1 bits of x / 2. */
  lemma LowBitsStep(x: int, p: nat)
    requires p >= 1
    ensures (x % Pow2(p)) % 2 == x % 2
    ensures (x % Pow2(p)) / 2 == (x / 2) % Pow2(p - 1)
    ensures (x / 2) / Pow2(p - 1) == x / Pow2(p)
  {
    assert Pow2(p) == 2 * Pow2(p - 1);
    ModDiv(x, 2, Pow2(p - 1));
    DivDiv(x, 2, Pow2(p - 1));
    SplitTwice(x, 2, Pow2(p - 1));
    DivModUnique(x, 2 * Pow2(p - 1), (x / 2) / Pow2(p - 1), (x / 2) % Pow2(p - 1) * 2 + x % 2);
    DivModSplit((x / 2) % Pow2(p - 1), 2, x % 2);
  }

  /** The conjunction of n bits is that of the low p bits plus that of the rest. */
  lemma {:induction false} AndBitsSplit(x: int, y: int, p: nat, n: nat)
    requires p <= n
    ensures AndBits(x, y, n)
         == AndBits(x % Pow2(p), y % Pow2(p), p) + Pow2(p) * AndBits(x / Pow2(p), y / Pow2(p), n - p)
    decreases p
  {
    if p > 0 {
      var P, P' := Pow2(p), Pow2(p - 1);
      var x', y' := x / 2, y / 2;
      var b := if x % 2 == 1 && y % 2 == 1 then 1 else 0;
      var low, high := AndBits(x' % P', y' % P', p - 1), AndBits(x' / P', y' / P', n - p);
      assert AndBits(x', y', n - 1) == low + P' * high by {
        AndBitsSplit(x', y', p - 1, n - 1);
      }
      assert AndBits(x % P, y % P, p) == 2 * low + b && x / P == x' / P' && y / P == y' / P' by {
        LowBitsStep(x, p);
        LowBitsStep(y, p);
      }
      DoubleProduct(P', high);
      assert AndBits(x, y, n) == 2 * AndBits(x', y', n - 1) + b;
    }
  }

  /** The disjunction of n bits is that of the low p bits plus that of the rest. */
  lemma {:induction false} OrBitsSplit(x: int, y: int, p: nat, n: nat)
    requires p <= n
    ensures OrBits(x, y, n)
         == OrBits(x % Pow2(p), y % Pow2(p), p) + Pow2(p) * OrBits(x / Pow2(p), y / Pow2(p), n - p)
    decreases p
  {
    if p > 0 {
      var P, P' := Pow2(p), Pow2(p - 1);
      var x', y' := x / 2, y / 2;
      var b := if x % 2 == 1 || y % 2 == 1 then 1 else 0;
      var low, high := OrBits(x' % P', y' % P', p - 1), OrBits(x' / P', y' / P', n - p);
      assert OrBits(x', y', n - 1) == low + P' * high by {
        OrBitsSplit(x', y', p - 1, n - 1);
      }
      assert OrBits(x % P, y % P, p) == 2 * low + b && x / P == x' / P' && y / P == y' / P' by {
        LowBitsStep(x, p);
        LowBitsStep(y, p);
      }
      DoubleProduct(P', high);
      assert OrBits(x, y, n) == 2 * OrBits(x', y', n - 1) + b;
    }
  }

  /** The conjunction of n bits, split at bit p into named low and high parts. */
  lemma AndBitsSplitAt(x: int, y: int, p: nat, n: nat, xl: int, yl: int, xh: int, yh: int)
    requires p <= n
    requires x % Pow2(p) == xl && y % Pow2(p) == yl && x / Pow2(p) == xh && y / Pow2(p) == yh
    ensures AndBits(x, y, n) == AndBits(xl, yl, p) + Pow2(p) * AndBits(xh, yh, n - p)
  {
    AndBitsSplit(x, y, p, n);
  }

  /** The disjunction of n bits, split at bit p into named low and high parts. */
  lemma OrBitsSplitAt(x: int, y: int, p: nat, n: nat, xl: int, yl: int, xh: int, yh: int)
    requires p <= n
    requires x % Pow2(p) == xl && y % Pow2(p) == yl && x / Pow2(p) == xh && y / Pow2(p) == yh
    ensures OrBits(x, y, n) == OrBits(xl, yl, p) + Pow2(p) * OrBits(xh, yh, n - p)
  {
    OrBitsSplit(x, y, p, n);
  }

  lemma DoubleProduct(a: int, b: int)
    ensures (2 * a) * b == 2 * (a * b)
  {
  }

  /** Bits below p only depend on x % 2^p. */
  lemma BitBelow(x: int, p: nat, i: nat)
    requires i < p
    ensures Bit(x, i) == Bit(x % Pow2(p), i)
  {
    Pow2Add(i, p - i);
    ModDiv(x, Pow2(i), Pow2(p - i));
    Pow2Add(1, p - i - 1);
    assert Pow2(1) == 2;
    ModOfMultiple(x / Pow2(i), 2, Pow2(p - i - 1));
  }

  /** Bits from p upwards are the bits of x / 2^p. */
  lemma BitAbove(x: int, p: nat, i: nat)
    requires p <= i
    ensures Bit(x, i) == Bit(x / Pow2(p), i - p)
  {
    Pow2Add(p, i - p);
    DivDiv(x, Pow2(p), Pow2(i - p));
  }

  /** Reducing modulo a multiple of m first does not change the residue mod m. */
  lemma ModOfMultiple(x: int, m: int, k: int)
    requires m > 0 && k > 0
    ensures (x % (m * k)) % m == x % m
  {
    var q := x / (m * k);
    assert x == q * (m * k) + x % (m * k);
    assert x == (q * k) * m + x % (m * k);
    var r := x % (m * k);
    assert r == (r / m) * m + r % m;
    assert x == (q * k + r / m) * m + r % m;
    DivModUnique(x, m, q * k + r / m, r % m);
  }
}

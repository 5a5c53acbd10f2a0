/**
 * Powers of two and the quotient/remainder facts that the machine-word model
 * is built on. Every shift of the codec is a multiplication or a division by
 * a power of two, so these lemmas carry the arithmetic of the whole project.
 */
module Powers {

  /** 2^n */
  function Pow2(n: nat): (r: int)
    ensures r >= 1
  {
    if n == 0 then 1 else 2 * Pow2(n - 1)
  }

  lemma {:induction false} Pow2Add(a: nat, b: nat)
    ensures Pow2(a + b) == Pow2(a) * Pow2(b)
  {
    if a > 0 {
      Pow2Add(a - 1, b);
      assert Pow2(a + b) == 2 * Pow2(a - 1 + b);
    }
  }

  lemma Pow2Monotone(a: nat, b: nat)
    requires a <= b
    ensures Pow2(a) <= Pow2(b)
  {
    Pow2Add(a, b - a);
  }

  /** The concrete powers that the word layouts of the codec use. */
  lemma Pow2Values()
    ensures Pow2(1) == 2 && Pow2(2) == 4 && Pow2(3) == 8 && Pow2(4) == 16
    ensures Pow2(5) == 32 && Pow2(6) == 64 && Pow2(7) == 128 && Pow2(8) == 256 && Pow2(9) == 512
    ensures Pow2(12) == 0x1000 && Pow2(13) == 0x2000 && Pow2(16) == 0x1_0000
    ensures Pow2(18) == 0x4_0000 && Pow2(20) == 0x10_0000 && Pow2(23) == 0x80_0000
    ensures Pow2(24) == 0x100_0000 && Pow2(28) == 0x1000_0000 && Pow2(32) == 0x1_0000_0000
    ensures Pow2(31) == 0x8000_0000 && Pow2(56) == 0x100_0000_0000_0000
    ensures Pow2(60) == 0x1000_0000_0000_0000
    ensures Pow2(63) == 0x8000_0000_0000_0000 && Pow2(64) == 0x1_0000_0000_0000_0000
  {
    assert Pow2(1) == 2;
    assert Pow2(2) == 4;
    assert Pow2(3) == 8;
    assert Pow2(4) == 16;
    assert Pow2(5) == 32;
    assert Pow2(6) == 64;
    assert Pow2(7) == 128;
    Pow2Add(4, 4);
    Pow2Add(8, 1);
    Pow2Add(8, 4);
    Pow2Add(8, 5);
    Pow2Add(8, 8);
    Pow2Add(16, 2);
    Pow2Add(16, 4);
    Pow2Add(16, 8);
    Pow2Add(18, 5);
    Pow2Add(24, 4);
    Pow2Add(16, 16);
    Pow2Add(28, 3);
    Pow2Add(32, 24);
    Pow2Add(56, 4);
    Pow2Add(60, 3);
    Pow2Add(32, 32);
  }

  lemma DivModFacts(x: int, d: int)
    requires d > 0
    ensures x == (x / d) * d + x % d && 0 <= x % d < d
  {
  }

  /** A digit below n in base d, followed by a remainder below d, stays below n * d. */
  lemma BelowProduct(h: int, n: int, d: int, t: int)
    requires 0 <= h < n && 0 <= t < d
    ensures 0 <= h * d + t < n * d
  {
    MulMonotone(h + 1, n, d);
    MulMonotone(0, h, d);
  }

  /** Quotient and remainder are determined by the division equation. */
  lemma DivModUnique(x: int, d: int, q: int, r: int)
    requires d > 0 && 0 <= r < d && x == q * d + r
    ensures x / d == q && x % d == r
  {
    var q0, r0 := x / d, x % d;
    assert q * d + r == q0 * d + r0;
    if q > q0 {
      MulAtLeast(q - q0, d);
      MulSub(q, q0, d);
    } else if q < q0 {
      MulAtLeast(q0 - q, d);
      MulSub(q0, q, d);
    }
  }

  lemma MulSub(a: int, b: int, d: int)
    ensures (a - b) * d == a * d - b * d
  {
  }

  lemma MulAtLeast(a: int, d: int)
    requires a >= 1 && d > 0
    ensures a * d >= d
  {
  }

  lemma MulMonotone(a: int, b: int, m: int)
    requires a <= b && m >= 0
    ensures a * m <= b * m
  {
  }

  /** x in base m*n: the high digit of x / m and a remainder below m*n. */
  lemma SplitTwice(x: int, m: int, n: int)
    requires m > 0 && n > 0
    ensures x == ((x / m) / n) * (m * n) + (((x / m) % n) * m + x % m)
    ensures 0 <= ((x / m) % n) * m + x % m < m * n
  {
    var a, b := x / m, x % m;
    var q, c := a / n, a % n;
    assert x == a * m + b;
    assert a == q * n + c;
    assert (q * n + c) * m == q * (m * n) + c * m;
    MulMonotone(c, n - 1, m);
    assert (n - 1) * m == n * m - m;
  }

  lemma DivDiv(x: int, m: int, n: int)
    requires m > 0 && n > 0
    ensures (x / m) / n == x / (m * n)
  {
    SplitTwice(x, m, n);
    DivModUnique(x, m * n, (x / m) / n, ((x / m) % n) * m + x % m);
  }

  lemma ModDiv(x: int, m: int, n: int)
    requires m > 0 && n > 0
    ensures (x % (m * n)) / m == (x / m) % n
  {
    SplitTwice(x, m, n);
    var low := ((x / m) % n) * m + x % m;
    DivModUnique(x, m * n, (x / m) / n, low);
    DivModUnique(low, m, (x / m) % n, x % m);
  }

  lemma MulMod(x: int, m: int, n: int)
    requires m > 0 && n > 0
    ensures (x * m) % (m * n) == (x % n) * m
  {
    ScaledDivMod(x, m, n);
  }

  lemma MulDivCancel(x: int, m: int, n: int)
    requires m > 0 && n > 0
    ensures (x * m) / (m * n) == x / n
  {
    ScaledDivMod(x, m, n);
  }

  /** Scaling x by m scales its remainder modulo n by m and keeps its quotient. */
  lemma ScaledDivMod(x: int, m: int, n: int)
    requires m > 0 && n > 0
    ensures (x * m) / (m * n) == x / n && (x * m) % (m * n) == (x % n) * m
  {
    var a, r := x / n, x % n;
    DivModFacts(x, n);
    ScaledSum(x, a, r, m, n);
    BelowProduct(r, n, m, 0);
    DivModUnique(x * m, m * n, a, r * m);
  }

  lemma ScaledSum(x: int, a: int, r: int, m: int, n: int)
    requires x == a * n + r
    ensures x * m == a * (m * n) + r * m
  {
  }

  /** A multiple of m shifted in above a remainder below m. */
  lemma DivModSplit(hi: int, m: int, lo: int)
    requires m > 0 && 0 <= lo < m
    ensures (hi * m + lo) / m == hi && (hi * m + lo) % m == lo
  {
    DivModUnique(hi * m + lo, m, hi, lo);
  }
}

/** Bitwise operations on unsigned integers, with the arithmetic they stand for.
    The sources mask and shift; the proofs divide and take remainders. */
module Bits {

  type byte = x: int | 0 <= x < 256

  const U32: nat := 0x1_0000_0000
  const U64: nat := 0x1_0000_0000_0000_0000

  function Pow2(k: nat): (p: nat)
    ensures p >= 1
  {
    if k == 0 then 1 else 2 * Pow2(k - 1)
  }

  /** `x >> k`. */
  function Shr(x: nat, k: nat): nat {
    if k == 0 then x else Shr(x / 2, k - 1)
  }

  /** `x & y`. */
  function And(x: nat, y: nat): nat
    decreases x
  {
    if x == 0 || y == 0 then 0
    else 2 * And(x / 2, y / 2) + (if x % 2 == 1 && y % 2 == 1 then 1 else 0)
  }

  /** `x | y`. */
  function Or(x: nat, y: nat): nat
    decreases x + y
  {
    if x == 0 then y
    else if y == 0 then x
    else 2 * Or(x / 2, y / 2) + (if x % 2 == 1 || y % 2 == 1 then 1 else 0)
  }

  // 64-bit counters: modulo 2^64 as the sources keep them, or unbounded as the proofs see them.
  function Inc(wrap: bool, x: nat): nat {
    if wrap then (x + 1) % U64 else x + 1
  }

  function Minus(wrap: bool, x: nat, y: nat): int {
    if wrap then (x - y) % U64 else x - y
  }

  /** The low `k` bits of `x`. */
  function Low(x: nat, k: nat): nat {
    if k == 0 then 0 else 2 * Low(x / 2, k - 1) + x % 2
  }

  // ---- division -------------------------------------------------------------------------------

  lemma MultipleGrows(d: int, n: int)
    requires d > 0 && n >= 1
    ensures d * n >= d
  {
    assert d * n == d * (n - 1) + d;
  }

  lemma SmallMultiple(d: int, n: int, r: int)
    requires d > 0 && d * n == r && -d < r < d
    ensures n == 0 && r == 0
  {
    if n >= 1 {
      MultipleGrows(d, n);
    } else if n <= -1 {
      MultipleGrows(d, -n);
    }
  }

  /** Quotient and remainder are unique. */
  lemma DivModUnique(x: int, d: int, q: int, r: int)
    requires d > 0 && 0 <= r < d && x == d * q + r
    ensures x / d == q && x % d == r
  {
    SmallMultiple(d, x / d - q, r - x % d);
  }

  /** Reducing first by a multiple of the modulus changes nothing. */
  lemma ModOfMod(x: int, m: int, d: int)
    requires d > 0 && m > 0
    ensures m * d > 0 && (x % (m * d)) % d == x % d
  {
    MultipleGrows(d, m);
    var q, r := x / (m * d), x % (m * d);
    assert x == d * (m * q + r / d) + r % d by {
      assert x == (m * d) * q + r;
      assert (m * d) * q == d * (m * q);
      assert r == d * (r / d) + r % d;
    }
    DivModUnique(x, d, m * q + r / d, r % d);
  }

  lemma ScaledApart(i: nat, j: nat, stride: nat, size: nat)
    requires i < j && size <= stride
    ensures i * stride + size <= j * stride
  {
    assert (j - i - 1) * stride >= 0;
    assert j * stride == i * stride + stride + (j - i - 1) * stride;
  }

  // ---- masks and shifts -----------------------------------------------------------------------

  lemma NoBits(x: nat)
    ensures Pow2(0) == 1 && Shr(x, 0) == x && Low(x, 0) == 0
  {
  }

  lemma OneBit(x: nat, k: nat)
    requires k > 0
    ensures Pow2(k) == 2 * Pow2(k - 1) && Shr(x, k) == Shr(x / 2, k - 1) && Low(x, k) == 2 * Low(x / 2, k - 1) + x % 2
  {
  }

  lemma SplitOne(x: nat, p: nat, high: nat, low: nat)
    requires x / 2 == p * high + low && low < p
    ensures x == (2 * p) * high + (2 * low + x % 2) && 2 * low + x % 2 < 2 * p
  {
    assert (2 * p) * high == 2 * (p * high);
  }

  /** `x` is its high bits and its low bits. */
  lemma {:induction false} SplitBits(x: nat, k: nat)
    ensures x == Pow2(k) * Shr(x, k) + Low(x, k) && Low(x, k) < Pow2(k)
  {
    hide Pow2;
    hide Shr;
    hide Low;
    if k == 0 {
      NoBits(x);
    } else {
      SplitBits(x / 2, k - 1);
      OneBit(x, k);
      SplitOne(x, Pow2(k - 1), Shr(x / 2, k - 1), Low(x / 2, k - 1));
    }
  }

  lemma ShrLow(x: nat, k: nat)
    ensures Shr(x, k) == x / Pow2(k) && Low(x, k) == x % Pow2(k)
  {
    SplitBits(x, k);
    DivModUnique(x, Pow2(k), Shr(x, k), Low(x, k));
  }

  lemma {:induction false} AndLow(x: nat, k: nat)
    ensures And(x, Pow2(k) - 1) == Low(x, k)
  {
    if x == 0 {
      LowZero(k);
    } else if k > 0 {
      AndLow(x / 2, k - 1);
      assert (Pow2(k) - 1) / 2 == Pow2(k - 1) - 1;
    }
  }

  lemma {:induction false} LowZero(k: nat)
    ensures Low(0, k) == 0
  {
    if k > 0 { LowZero(k - 1); }
  }

  /** A mask of `k` ones is the remainder by `2^k`. */
  lemma AndMask(x: nat, k: nat)
    ensures And(x, Pow2(k) - 1) == x % Pow2(k)
  {
    AndLow(x, k);
    ShrLow(x, k);
  }

  lemma AndDouble(x: nat, y: nat)
    ensures And(x, 2 * y) == 2 * And(x / 2, y)
  {
    assert (2 * y) / 2 == y && (2 * y) % 2 == 0;
  }

  lemma {:induction false} Pow2Monotone(j: nat, k: nat)
    requires j <= k
    ensures Pow2(j) <= Pow2(k)
    ensures j < k ==> Pow2(j) < Pow2(k)
    decreases k - j
  {
    if j < k { Pow2Monotone(j, k - 1); }
  }

  /** Clearing the low `k` bits of an `n`-bit number: `x & ~(2^k - 1)`. */
  lemma {:induction false} AndNotLow(x: nat, n: nat, k: nat)
    requires k <= n && x < Pow2(n)
    ensures Pow2(k) <= Pow2(n)
    ensures And(x, Pow2(n) - Pow2(k)) == x - Low(x, k)
    decreases n
  {
    hide And;
    hide Pow2;
    hide Low;
    Pow2Monotone(k, n);
    if k == 0 {
      NoBits(x);
      AndAll(x, n);
    } else {
      OneBit(x, n);
      OneBit(x, k);
      AndNotLow(x / 2, n - 1, k - 1);
      AndDouble(x, Pow2(n - 1) - Pow2(k - 1));
    }
  }

  lemma SmallQuotient(d: nat, q: nat, x: nat)
    requires d > 0 && d * q <= x < d
    ensures q == 0
  {
    if q >= 1 { MultipleGrows(d, q); }
  }

  lemma AndAll(x: nat, n: nat)
    requires x < Pow2(n)
    ensures And(x, Pow2(n) - 1) == x
  {
    hide And;
    hide Pow2;
    hide Low;
    hide Shr;
    AndLow(x, n);
    SplitBits(x, n);
    SmallQuotient(Pow2(n), Shr(x, n), x);
  }

  lemma AndNotMask(x: nat, n: nat, k: nat)
    requires k <= n && x < Pow2(n)
    ensures Pow2(k) <= Pow2(n)
    ensures And(x, Pow2(n) - Pow2(k)) == x - x % Pow2(k)
  {
    AndNotLow(x, n, k);
    ShrLow(x, k);
  }

  lemma {:induction false} Pow2Sum(j: nat, k: nat)
    ensures Pow2(j + k) == Pow2(j) * Pow2(k)
  {
    if j > 0 {
      Pow2Sum(j - 1, k);
      assert Pow2(j + k) == 2 * (Pow2(j - 1) * Pow2(k));
    }
  }

  lemma Square(k: nat, p: nat)
    requires Pow2(k) == p
    ensures Pow2(2 * k) == p * p
  {
    hide Pow2;
    Pow2Sum(k, k);
  }

  lemma Pow2Words()
    ensures Pow2(32) == U32 && Pow2(64) == U64
  {
    assert Pow2(8) == 256;
    Square(8, 256);
    Square(16, 0x1_0000);
    Square(32, U32);
  }

  // ---- counters -------------------------------------------------------------------------------

  /** Differences and equality survive the wrap, for counters less than 2^64 apart. */
  lemma WrappedMinus(x: nat, y: nat)
    requires y <= x < y + U64
    ensures Minus(true, x % U64, y % U64) == x - y
    ensures x % U64 == y % U64 <==> x == y
  {
  }

  lemma WrappedInc(x: nat)
    ensures Inc(true, x % U64) == (x + 1) % U64
  {
  }

  /** Positions less than a capacity apart never share a slot. */
  lemma DistinctSlots(p: nat, q: nat, k: nat)
    requires p < q < p + Pow2(k)
    ensures p % Pow2(k) != q % Pow2(k)
  {
    hide Pow2;
    var c := Pow2(k);
    if p % c == q % c {
      assert q - p == c * (q / c - p / c);
      SmallMultiple(c, q / c - p / c, q - p);
    }
  }
}

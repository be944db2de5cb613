/** The size arithmetic of memory_pool/memory_pool.hpp: `align_up` and the bit smearing of
    `next_pow2`, on 64-bit words. */
module PoolArith {
  import opened Bits

  /** `(n + a - 1) & ~(a - 1)`. */
  function AlignUp(n: nat, a: nat): nat
    requires 1 <= a <= U64
  {
    And((n + a - 1) % U64, U64 - a)
  }

  /** The least multiple of a power of two that is not below `n`. */
  lemma AlignUpIs(n: nat, j: nat)
    requires j <= 63 && n + Pow2(j) - 1 < U64
    ensures Pow2(j) <= U64
    ensures var r := AlignUp(n, Pow2(j)); r % Pow2(j) == 0 && n <= r < n + Pow2(j)
  {
    hide And;
    hide Pow2;
    Cleared(n + Pow2(j) - 1, j);
  }

  /** Clearing the low bits rounds down to a multiple. */
  lemma Cleared(x: nat, j: nat)
    requires j <= 63 && x < U64
    ensures Pow2(j) <= U64
    ensures var r := And(x, U64 - Pow2(j)); r % Pow2(j) == 0 && x - Pow2(j) < r <= x
  {
    hide And;
    hide Pow2;
    Pow2Words();
    Pow2Monotone(j, 64);
    AndNotMask(x, 64, j);
    RoundDown(x, Pow2(j));
  }

  /** Above the last multiple the sum wraps, and the result is 0. */
  lemma AlignUpWraps(n: nat, j: nat)
    requires j <= 63 && n < U64 <= n + Pow2(j) - 1
    ensures Pow2(j) <= U64 && AlignUp(n, Pow2(j)) == 0
  {
    hide And;
    hide Pow2;
    Pow2Words();
    Pow2Monotone(j, 64);
    var x := n + Pow2(j) - 1 - U64;
    DivModUnique(n + Pow2(j) - 1, U64, 1, x);
    AndNotMask(x, 64, j);
    DivModUnique(x, Pow2(j), 0, x);
  }

  lemma RoundDown(x: nat, p: nat)
    requires p >= 1
    ensures (x - x % p) % p == 0 && x - p < x - x % p <= x
  {
    var q, r := x / p, x % p;
    assert x == p * q + r;
    DivModUnique(p * q, p, q, 0);
  }

  // ---- smearing the top bit -------------------------------------------------------------------

  function BitLength(x: nat): nat {
    if x == 0 then 0 else 1 + BitLength(x / 2)
  }

  lemma {:induction false} BitLengthIs(x: nat)
    requires x > 0
    ensures BitLength(x) >= 1
    ensures Pow2(BitLength(x) - 1) <= x < Pow2(BitLength(x))
    ensures Shr(x, BitLength(x) - 1) == 1
  {
    if x > 1 { BitLengthIs(x / 2); }
  }

  lemma {:induction false} ShrOr(x: nat, y: nat, s: nat)
    ensures Shr(Or(x, y), s) == Or(Shr(x, s), Shr(y, s))
  {
    if s > 0 {
      ShrOr(x / 2, y / 2, s - 1);
      assert Or(x, y) / 2 == Or(x / 2, y / 2);
    }
  }

  lemma {:induction false} ShrShr(x: nat, a: nat, b: nat)
    ensures Shr(Shr(x, a), b) == Shr(x, a + b)
  {
    if a > 0 { ShrShr(x / 2, a - 1, b); }
  }

  lemma {:induction false} ShrOnes(w: nat, s: nat)
    requires s <= w
    ensures Shr(Pow2(w) - 1, s) == Pow2(w - s) - 1
  {
    if s > 0 {
      ShrOnes(w - 1, s - 1);
      assert (Pow2(w) - 1) / 2 == Pow2(w - 1) - 1;
    }
  }

  lemma {:induction false} OrOnes(x: nat, t: nat, w: nat)
    requires Shr(x, t) == Pow2(w) - 1
    ensures Or(x, Pow2(t) - 1) == Pow2(w + t) - 1
  {
    if t > 0 {
      OrOnes(x / 2, t - 1, w);
      assert (Pow2(t) - 1) / 2 == Pow2(t - 1) - 1;
      assert Pow2(w + t) == 2 * Pow2(w + t - 1);
      if x == 0 { ShrZero(t); Pow2One(w); }
    }
  }

  lemma {:induction false} ShrZero(t: nat)
    ensures Shr(0, t) == 0
  {
    if t > 0 { ShrZero(t - 1); }
  }

  lemma Pow2One(w: nat)
    requires Pow2(w) == 1
    ensures w == 0
  {
  }

  /** The top `w` of the `m` bits of `x` are ones. */
  predicate TopOnes(x: nat, m: nat, w: nat) {
    w <= m && Shr(x, m - w) == Pow2(w) - 1
  }

  function Min(a: nat, b: nat): nat {
    if a < b then a else b
  }

  lemma SmearCore(x: nat, s: nat, t: nat, w: nat)
    requires t <= w && Shr(x, s + t) == Pow2(w) - 1
    ensures Shr(Or(x, Shr(x, w)), s) == Pow2(w + t) - 1
  {
    hide Or;
    hide Pow2;
    hide Shr;
    ShrShr(x, s, t);
    ShrShr(x, w, s);
    ShrShr(x, s + t, w - t);
    ShrOnes(w, w - t);
    OrOnes(Shr(x, s), t, w);
    ShrOr(x, Shr(x, w), s);
  }

  /** One smearing step doubles the run of ones at the top. */
  lemma SmearStep(x: nat, m: nat, w: nat)
    requires TopOnes(x, m, w)
    ensures TopOnes(Or(x, Shr(x, w)), m, Min(2 * w, m))
  {
    hide Or;
    hide Pow2;
    hide Shr;
    var w' := Min(2 * w, m);
    SmearCore(x, m - w', w' - w, w);
  }

  /** A shift beyond the length leaves nothing. */
  lemma ShrBeyond(x: nat, m: nat, d: nat)
    requires TopOnes(x, m, m) && m < d
    ensures Shr(x, d) == 0
  {
    hide Shr;
    ShrNone(x);
    ShrOnes(m, m);
    ShrShr(x, m, d - m);
    ShrZero(d - m);
  }

  lemma OrZero(x: nat)
    ensures Or(x, 0) == x
  {
  }

  /** The same for a shift that may exceed the length: then there is nothing left to smear. */
  lemma Smear(x: nat, m: nat, d: nat)
    requires TopOnes(x, m, Min(d, m))
    ensures TopOnes(Or(x, Shr(x, d)), m, Min(2 * d, m))
  {
    hide Or;
    hide Shr;
    hide TopOnes;
    if d <= m {
      SmearStep(x, m, d);
    } else {
      ShrBeyond(x, m, d);
      OrZero(x);
    }
  }

  lemma LengthBound(x: nat, m: nat, k: nat)
    requires m >= 1 && Pow2(m - 1) <= x < Pow2(m)
    ensures x < Pow2(k) <==> m <= k
  {
    hide Pow2;
    if m <= k { Pow2Monotone(m, k); } else { Pow2Monotone(k, m - 1); }
  }

  /** `next_pow2`: the least power of two that is not below `n`, and 0 when that is 2^64. */
  method NextPow2(n: nat) returns (r: nat, ghost k: nat)
    requires n < U64
    ensures n <= U64 / 2 ==> k <= 63 && r == Pow2(k) && n <= r && (n >= 1 ==> r < 2 * n)
    ensures n > U64 / 2 ==> r == 0
  {
    hide Or;
    hide Shr;
    hide TopOnes;
    if n <= 1 {
      return 1, 0;
    }
    var x := n - 1;
    ghost var m := BitLength(x);
    BitLengthIs(x);
    TopBit(x, m);
    Smear(x, m, 1);
    x := Or(x, Shr(x, 1));
    Smear(x, m, 2);
    x := Or(x, Shr(x, 2));
    Smear(x, m, 4);
    x := Or(x, Shr(x, 4));
    Smear(x, m, 8);
    x := Or(x, Shr(x, 8));
    Smear(x, m, 16);
    x := Or(x, Shr(x, 16));
    Smear(x, m, 32);
    x := Or(x, Shr(x, 32));
    k := m;
    Smeared(n, x, m);
    r := (x + 1) % U64;
  }

  lemma TopBit(x: nat, m: nat)
    requires m >= 1 && Shr(x, m - 1) == 1
    ensures TopOnes(x, m, Min(1, m))
  {
    assert Pow2(1) == 2;
  }

  lemma Smeared(n: nat, x: nat, m: nat)
    requires 1 < n < U64 && m >= 1 && Pow2(m - 1) <= n - 1 < Pow2(m) && TopOnes(x, m, Min(64, m))
    ensures n <= U64 / 2 ==> m <= 63 && (x + 1) % U64 == Pow2(m) && n <= Pow2(m) < 2 * n
    ensures n > U64 / 2 ==> (x + 1) % U64 == 0
  {
    Doubles(m - 1);
    Doubles(63);
    hide Pow2;
    hide Shr;
    Pow2Words();
    LengthBound(n - 1, m, 64);
    LengthBound(n - 1, m, 63);
    ShrNone(x);
    if m <= 63 { Pow2Monotone(m, 63); }
  }

  lemma ShrNone(x: nat)
    ensures Shr(x, 0) == x
  {
  }

  lemma Doubles(k: nat)
    ensures Pow2(k + 1) == 2 * Pow2(k)
  {
  }
}

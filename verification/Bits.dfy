/** Powers of two, shifts, single bits and bit lengths of integers: the plain
    mathematical meaning of the Integer operators << and >> and of GetBit and
    BitCount. */
module Bits {

  function Pow2(k: nat): (r: nat)
    ensures r > 0
  {
    if k == 0 then 1 else 2 * Pow2(k - 1)
  }

  lemma Pow2Step(k: nat)
    requires k > 0
    ensures Pow2(k) == 2 * Pow2(k - 1)
  {
  }

  lemma Pow2First()
    ensures Pow2(0) == 1 && Pow2(1) == 2
  {
    assert Pow2(1) == 2 * Pow2(0);
  }

  lemma Pow2Four()
    ensures Pow2(4) == 16
  {
    assert Pow2(4) == 2 * Pow2(3) == 4 * Pow2(2) == 8 * Pow2(1) == 16 * Pow2(0);
  }

  lemma Pow2Eight()
    ensures Pow2(8) == 256
  {
    Pow2Four();
    assert Pow2(8) == 2 * Pow2(7) == 4 * Pow2(6) == 8 * Pow2(5) == 16 * Pow2(4);
  }

  /** n << k */
  function Shl(n: int, k: nat): (r: int)
    ensures n >= 0 ==> r >= n
  {
    if k == 0 then n else 2 * Shl(n, k - 1)
  }

  lemma ShlNat(a: nat, k: nat)
    ensures Shl(a, k) >= 0
  {
  }

  lemma ShlSmall(n: int)
    ensures Shl(n, 0) == n && Shl(n, 1) == 2 * n
  {
    assert Shl(n, 0) == n;
  }

  lemma ShlStep(n: int, k: nat)
    requires k > 0
    ensures Shl(n, k) == 2 * Shl(n, k - 1) && (n >= 0 ==> Shl(n, k - 1) >= 0)
  {
  }

  /** n >> k */
  function Shr(n: nat, k: nat): (r: nat)
    ensures r <= n
  {
    if k == 0 then n else Shr(n / 2, k - 1)
  }

  /** The low k bits of n. */
  function Low(n: nat, k: nat): (r: nat)
    ensures r < Pow2(k)
  {
    if k == 0 then 0 else n % 2 + 2 * Low(n / 2, k - 1)
  }

  /** Bit k of n, as GetBit returns it. */
  function Bit(n: nat, k: nat): (b: nat)
    ensures b < 2
  {
    Shr(n, k) % 2
  }

  lemma {:induction false} SplitLow(n: nat, k: nat)
    ensures n == Shl(Shr(n, k), k) + Low(n, k)
  {
    if k > 0 {
      SplitLow(n / 2, k - 1);
    }
  }

  lemma {:induction false} SplitUnique(hi: nat, lo: nat, k: nat)
    requires lo < Pow2(k)
    ensures Shl(hi, k) + lo >= 0
    ensures Shr(Shl(hi, k) + lo, k) == hi && Low(Shl(hi, k) + lo, k) == lo
  {
    if k > 0 {
      var n := Shl(hi, k) + lo;
      assert n / 2 == Shl(hi, k - 1) + lo / 2 && n % 2 == lo % 2;
      SplitUnique(hi, lo / 2, k - 1);
    }
  }

  lemma {:induction false} ShlAdd(a: int, b: int, k: nat)
    ensures Shl(a + b, k) == Shl(a, k) + Shl(b, k)
  {
    if k > 0 { ShlAdd(a, b, k - 1); }
  }

  lemma {:induction false} ShlZero(k: nat)
    ensures Shl(0, k) == 0
  {
    if k > 0 { ShlZero(k - 1); }
  }

  lemma {:induction false} ShlOne(k: nat)
    ensures Shl(1, k) == Pow2(k)
  {
    if k > 0 { ShlOne(k - 1); }
  }

  lemma {:induction false} ShlPow2(n: int, k: nat)
    ensures Shl(n, k) == n * Pow2(k)
  {
    if k > 0 { ShlPow2(n, k - 1); }
  }

  lemma {:induction false} ShlShl(n: int, a: nat, b: nat)
    ensures Shl(Shl(n, a), b) == Shl(n, a + b)
  {
    if b > 0 { ShlShl(n, a, b - 1); }
  }

  lemma {:induction false} ShlMonotone(m: int, n: int, k: nat)
    ensures m <= n ==> Shl(m, k) <= Shl(n, k)
    ensures m < n ==> Shl(m, k) < Shl(n, k)
  {
    if k > 0 { ShlMonotone(m, n, k - 1); }
  }

  lemma {:induction false} ShrShr(n: nat, a: nat, b: nat)
    ensures Shr(Shr(n, a), b) == Shr(n, a + b)
  {
    if a > 0 { ShrShr(n / 2, a - 1, b); }
  }

  /** Shr as a quotient, Low as a remainder. */
  lemma ShrIsDiv(n: nat, k: nat)
    ensures Shr(n, k) == n / Pow2(k) && Low(n, k) == n % Pow2(k)
  {
    SplitLow(n, k);
    ShlPow2(Shr(n, k), k);
    DivModUnique(n, Pow2(k), Shr(n, k), Low(n, k));
  }

  /** Dropping k bits and then one more is dropping k + 1. */
  lemma ShiftStep(n: nat, k: nat)
    ensures Shr(n, k) == 2 * Shr(n, k + 1) + Bit(n, k)
  {
    ShrShr(n, k, 1);
    assert Shr(Shr(n, k), 1) == Shr(n, k) / 2;
  }

  lemma {:induction false} Pow2Add(a: nat, b: nat)
    ensures Pow2(a + b) == Pow2(a) * Pow2(b)
  {
    ShlShl(1, a, b);
    ShlOne(a); ShlOne(a + b);
    ShlPow2(Pow2(a), b);
  }

  lemma {:induction false} Pow2Monotone(a: nat, b: nat)
    requires a <= b
    ensures Pow2(a) <= Pow2(b)
    ensures a < b ==> Pow2(a) < Pow2(b)
  {
    if a < b { Pow2Monotone(a, b - 1); }
  }

  lemma MulMonotone(x: nat, y: int, z: int)
    requires y <= z
    ensures x * y <= x * z
  {
  }

  /** Quotient and remainder are determined by their defining equation. */
  lemma DivModUnique(n: int, d: int, q: int, r: int)
    requires d > 0 && n == q * d + r && 0 <= r < d
    ensures n / d == q && n % d == r
  {
    var q', r' := n / d, n % d;
    assert n == q' * d + r';
    assert (q - q') * d == r' - r;
    if q > q' {
      MulMonotone(d, 1, q - q');
    } else if q < q' {
      MulMonotone(d, q - q', -1);
    }
  }

  /** The number of significant bits. */
  function BitCount(n: nat): (c: nat)
  {
    if n == 0 then 0 else 1 + BitCount(n / 2)
  }

  lemma BitCountPositive(n: nat)
    ensures n > 0 <==> BitCount(n) > 0
  {
  }

  lemma BitCountOne()
    ensures BitCount(1) == 1
  {
    assert BitCount(0) == 0;
  }

  lemma {:induction false} BitCountBound(n: nat)
    ensures n < Pow2(BitCount(n))
    ensures n > 0 ==> BitCount(n) > 0 && Pow2(BitCount(n) - 1) <= n
  {
    if n > 0 {
      BitCountBound(n / 2);
    }
  }

  lemma BitCountUpper(n: nat, k: nat)
    ensures n < Pow2(k) <==> BitCount(n) <= k
  {
    BitCountBound(n);
    if BitCount(n) <= k {
      Pow2Monotone(BitCount(n), k);
    } else {
      Pow2Monotone(k, BitCount(n) - 1);
    }
  }

  lemma {:induction false} ShrSmall(n: nat, k: nat)
    ensures n < Pow2(k) <==> Shr(n, k) == 0
  {
    if k > 0 { ShrSmall(n / 2, k - 1); }
  }
}

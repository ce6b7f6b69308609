/** AbstractEuclideanDomain::Gcd and QuotientRing::MultiplicativeInverse of
    algebra.cpp, on polynomials over GF(2): the Euclidean algorithm over three
    rotating slots. */
module QuotientRings {
  import opened Bits
  import opened BinaryPolynomials
  import opened PolynomialMod2s

  /** g0 and g1 have the same common divisors as a and b. */
  ghost predicate SameDivisors(g0: nat, g1: nat, a: nat, b: nat)
  {
    forall d :: (PolyDivides(d, g0) && PolyDivides(d, g1)) <==> (PolyDivides(d, a) && PolyDivides(d, b))
  }

  lemma DividesZero(d: nat)
    ensures PolyDivides(d, 0)
  {
    PolyCongRefl(0, d);
  }

  lemma DividesCombination(d: nat, a: nat, q: nat, b: nat)
    requires PolyDivides(d, b)
    ensures PolyDivides(d, a) <==> PolyDivides(d, Xor(Mul(q, b), a))
  {
    hide Xor, Mul, PolyCong;
    var t := Mul(q, b);
    MulZero(q);
    PolyCongMul(q, b, 0, d);
    XorZero(0);
    if PolyDivides(d, a) {
      PolyCongXor(t, 0, a, 0, d);
    }
    if PolyDivides(d, Xor(t, a)) {
      PolyCongXor(t, 0, Xor(t, a), 0, d);
      XorCancel(a, t);
    }
  }

  /** One division keeps the common divisors. */
  lemma DivisorsStep(g0: nat, g1: nat, g2: nat, y: nat, a: nat, b: nat)
    requires SameDivisors(g0, g1, a, b) && g0 == Xor(Mul(y, g1), g2)
    ensures SameDivisors(g1, g2, a, b)
  {
    hide Xor, Mul, PolyDivides;
    forall d
      ensures (PolyDivides(d, g1) && PolyDivides(d, g2)) <==> (PolyDivides(d, a) && PolyDivides(d, b))
    {
      if PolyDivides(d, g1) {
        DividesCombination(d, g2, y, g1);
      }
      assert (PolyDivides(d, g0) && PolyDivides(d, g1)) <==> (PolyDivides(d, a) && PolyDivides(d, b));
    }
  }

  /** The divisors of the result are the common divisors of a and b. */
  method Gcd(a: nat, b: nat) returns (result: nat)
    ensures forall d :: PolyDivides(d, result) <==> PolyDivides(d, a) && PolyDivides(d, b)
  {
    hide Xor, Mul, PolyDivides, BitCount, Rem;
    var g: seq<nat> := [b, a, 0];
    var i0, i1, i2 := 0, 1, 2;
    while g[i1] != 0
      invariant |g| == 3 && 0 <= i0 < 3 && 0 <= i1 < 3 && 0 <= i2 < 3
      invariant i0 != i1 && i1 != i2 && i0 != i2
      invariant SameDivisors(g[i0], g[i1], a, b)
      decreases BitCount(g[i1])
    {
      var division := Divide(g[i0], g[i1]);
      DivisorsStep(g[i0], g[i1], division.remainder, division.quotient, a, b);
      g := g[i2 := division.remainder];
      i0, i1, i2 := i1, i2, i0;
    }
    result := g[i0];
    forall d
      ensures PolyDivides(d, result) <==> PolyDivides(d, a) && PolyDivides(d, b)
    {
      DividesZero(d);
      assert (PolyDivides(d, g[i0]) && PolyDivides(d, g[i1])) <==> (PolyDivides(d, a) && PolyDivides(d, b));
    }
  }

  ghost predicate RelativelyPrime(a: nat, b: nat)
  {
    forall d :: PolyDivides(d, a) && PolyDivides(d, b) ==> d == 1
  }

  lemma OnlyOneDividesOne(d: nat)
    ensures PolyDivides(d, 1) ==> d == 1
    ensures PolyDivides(1, d)
  {
    XorZero(1);
    XorZero(d);
    MulZero(d);
    PolyCongBy(d, 0, d, 1);
    if PolyDivides(d, 1) {
      var q: nat :| DifferByMultiple(1, 0, q, d);
      MulZero(q);
      MulBitCount(q, d);
      assert BitCount(1) == 1;
      assert BitCount(d) == 1;
      assert BitCount(d) == 1 + BitCount(d / 2);
    }
  }

  lemma DividesItself(d: nat)
    ensures PolyDivides(d, d)
  {
    MulZero(d);
    XorZero(d);
    PolyCongBy(d, 0, 1, d);
  }

  /** The gcd is one exactly for relatively prime arguments. */
  lemma GcdOne(g: nat, a: nat, b: nat)
    requires SameDivisors(g, 0, a, b)
    ensures g == 1 <==> RelativelyPrime(a, b)
  {
    hide PolyDivides;
    DividesItself(g);
    DividesZero(g);
    forall d | PolyDivides(d, a) && PolyDivides(d, b)
      ensures g == 1 ==> d == 1
    {
      OnlyOneDividesOne(d);
      assert PolyDivides(d, g);
    }
    assert PolyDivides(g, a) && PolyDivides(g, b);
  }

  /** Bezout: g0 and g1 are multiples of a modulo m, with the cofactors v0 and v1. */
  ghost predicate Cofactors(a: nat, m: nat, g0: nat, g1: nat, v0: nat, v1: nat)
  {
    PolyCong(g0, Mul(a, v0), m) && PolyCong(g1, Mul(a, v1), m)
  }

  /** The degrees of the cofactors, for a modulus of positive degree. */
  ghost predicate CofactorDegrees(m: nat, g0: nat, g1: nat, v0: nat, v1: nat)
  {
    BitCount(m) >= 2 ==>
      && (v1 == 0 || BitCount(v1) + BitCount(g0) <= BitCount(m) + 1)
      && (v0 == 0 || BitCount(v0) + BitCount(g1) <= BitCount(m) + 1)
      && (v0 == 0 || BitCount(v0) < BitCount(m))
      && (g1 != 0 ==> BitCount(g0) >= 2)
  }

  lemma CofactorStep(a: nat, m: nat, g0: nat, g1: nat, g2: nat, v0: nat, v1: nat, y: nat)
    requires Cofactors(a, m, g0, g1, v0, v1) && g0 == Xor(Mul(y, g1), g2)
    ensures Cofactors(a, m, g1, g2, v1, Xor(v0, Mul(v1, y)))
  {
    hide Xor, Mul, PolyCong;
    var t := Mul(y, g1);
    // g2 == g0 + y g1 == a v0 + a v1 y
    XorCancel(g2, t);
    XorComm(g0, t);
    MulComm(y, g1);
    PolyCongMul(y, g1, Mul(a, v1), m);
    MulAssoc(a, v1, y);
    PolyCongXor(g0, Mul(a, v0), t, Mul(a, Mul(v1, y)), m);
    MulDistrib(a, v0, Mul(v1, y));
  }

  lemma QuotientDegree(g0: nat, g1: nat, g2: nat, y: nat)
    requires g0 == Xor(Mul(y, g1), g2) && BitCount(g2) < BitCount(g1) && y > 0
    ensures BitCount(y) + BitCount(g1) == BitCount(g0) + 1
  {
    hide Xor, Mul, BitCount;
    BitCountPositive(g1);
    BitCountPositive(y);
    MulBitCount(y, g1);
    XorBitCount(Mul(y, g1), g2);
  }

  lemma EmptyQuotient(g1: nat, g2: nat)
    ensures Xor(Mul(0, g1), g2) == g2
  {
    MulZero(g1);
    XorZero(g2);
  }

  lemma RemainderShorter(g0: nat, g1: nat, g2: nat, y: nat)
    requires g0 == Xor(Mul(y, g1), g2) && BitCount(g2) < BitCount(g1)
    ensures BitCount(g2) <= BitCount(g0)
  {
    hide Xor, Mul, BitCount;
    if y > 0 {
      QuotientDegree(g0, g1, g2, y);
      BitCountPositive(y);
    } else {
      EmptyQuotient(g1, g2);
    }
  }

  lemma NoNewCofactor(v0: nat, v1: nat, y: nat)
    requires v1 == 0 || y == 0
    ensures Xor(v0, Mul(v1, y)) == v0
  {
    hide Xor, Mul;
    MulZero(v1);
    MulZero(y);
    XorZero(v0);
  }

  lemma LongerCofactor(v0: nat, v1: nat, y: nat)
    requires v1 > 0 && y > 0
    ensures BitCount(Xor(v0, Mul(v1, y))) <= BitCount(v0) || BitCount(Xor(v0, Mul(v1, y))) <= BitCount(v1) + BitCount(y) - 1
  {
    hide Xor, Mul, BitCount;
    MulBitCount(v1, y);
    XorBitCountMax(v0, Mul(v1, y));
  }

  /** The new cofactor is as long as the division makes it. */
  lemma NewCofactorDegree(bound: nat, g0: nat, g1: nat, g2: nat, v0: nat, v1: nat, y: nat)
    requires g0 == Xor(Mul(y, g1), g2) && BitCount(g2) < BitCount(g1)
    requires v1 == 0 || BitCount(v1) + BitCount(g0) <= bound
    requires v0 == 0 || BitCount(v0) + BitCount(g1) <= bound
    ensures var v2 := Xor(v0, Mul(v1, y)); v2 == 0 || BitCount(v2) + BitCount(g1) <= bound
  {
    hide Xor, Mul, BitCount;
    BitCountPositive(v0);
    BitCountPositive(Xor(v0, Mul(v1, y)));
    if v1 > 0 && y > 0 {
      QuotientDegree(g0, g1, g2, y);
      LongerCofactor(v0, v1, y);
    } else {
      NoNewCofactor(v0, v1, y);
    }
  }

  lemma CofactorDegreeStep(m: nat, g0: nat, g1: nat, g2: nat, v0: nat, v1: nat, y: nat)
    requires CofactorDegrees(m, g0, g1, v0, v1) && g1 != 0
    requires g0 == Xor(Mul(y, g1), g2) && BitCount(g2) < BitCount(g1)
    ensures CofactorDegrees(m, g1, g2, v1, Xor(v0, Mul(v1, y)))
  {
    hide Xor, Mul, BitCount;
    if BitCount(m) >= 2 {
      RemainderShorter(g0, g1, g2, y);
      NewCofactorDegree(BitCount(m) + 1, g0, g1, g2, v0, v1, y);
      BitCountPositive(g2);
    }
  }

  /** The inverse of a modulo m, of lower degree than m, when a and m are relatively
      prime; zero otherwise. */
  method MultiplicativeInverse(m: nat, a: nat) returns (inverse: nat)
    ensures RelativelyPrime(a, m) ==> PolyCong(1, Mul(a, inverse), m) && (BitCount(m) >= 2 ==> BitCount(inverse) < BitCount(m))
    ensures !RelativelyPrime(a, m) ==> inverse == 0
  {
    hide Xor, Mul, PolyCong, PolyDivides, BitCount, Rem, Cofactors, CofactorDegrees, RelativelyPrime;
    var g: seq<nat> := [m, a, 0];
    var v: seq<nat> := [0, 1, 0];
    var y: nat := 0;
    var i0, i1, i2 := 0, 1, 2;
    StartInverse(m, a);
    while g[i1] != 0
      invariant |g| == 3 && |v| == 3 && 0 <= i0 < 3 && 0 <= i1 < 3 && 0 <= i2 < 3
      invariant i0 != i1 && i1 != i2 && i0 != i2
      invariant SameDivisors(g[i0], g[i1], a, m)
      invariant Cofactors(a, m, g[i0], g[i1], v[i0], v[i1])
      invariant CofactorDegrees(m, g[i0], g[i1], v[i0], v[i1])
      decreases BitCount(g[i1])
    {
      var division := Divide(g[i0], g[i1]);
      y := division.quotient;
      DivisorsStep(g[i0], g[i1], division.remainder, y, a, m);
      CofactorStep(a, m, g[i0], g[i1], division.remainder, v[i0], v[i1], y);
      CofactorDegreeStep(m, g[i0], g[i1], division.remainder, v[i0], v[i1], y);
      g := g[i2 := division.remainder];
      v := v[i2 := Xor(v[i0], Mul(v[i1], y))];
      i0, i1, i2 := i1, i2, i0;
    }
    GcdOne(g[i0], a, m);
    FinishInverse(a, m, g[i0], v[i0], v[i1]);
    if g[i0] == 1 {
      var division := Divide(v[i0], 1);
      DivideByOne(division.quotient, division.remainder);
      inverse := division.quotient;
    } else {
      inverse := 0;
    }
  }

  lemma StartInverse(m: nat, a: nat)
    ensures SameDivisors(m, a, a, m) && Cofactors(a, m, m, a, 0, 1) && CofactorDegrees(m, m, a, 0, 1)
  {
    hide Xor, Mul;
    MulZero(a);
    MulZero(m);
    XorZero(m);
    PolyCongBy(m, 0, 1, m);
    PolyCongRefl(a, m);
    assert BitCount(1) == 1;
  }

  lemma FinishInverse(a: nat, m: nat, g0: nat, v0: nat, v1: nat)
    requires Cofactors(a, m, g0, 0, v0, v1) && CofactorDegrees(m, g0, 0, v0, v1)
    ensures g0 == 1 ==> PolyCong(1, Mul(a, v0), m)
    ensures BitCount(m) >= 2 ==> BitCount(v0) < BitCount(m)
  {
    assert BitCount(0) == 0;
  }

  lemma DivideByOne(q: nat, r: nat)
    requires BitCount(r) < BitCount(1)
    ensures Xor(Mul(q, 1), r) == q
  {
    assert BitCount(1) == 1;
    assert r == 0;
    MulZero(q);
    XorZero(q);
  }
}

/** Polynomials over GF(2), coefficient of x^i in bit i of a natural number: the
    plain definitions that the word-level code is compared with.  The degree of a
    non-zero polynomial is BitCount - 1. */
module BinaryPolynomials {
  import opened Bits

  /** Sum, and bitwise exclusive or. */
  function Xor(a: nat, b: nat): (r: nat)
    decreases a
  {
    if a == 0 then b else if b == 0 then a
    else (a % 2 + b % 2) % 2 + 2 * Xor(a / 2, b / 2)
  }

  lemma {:induction false} XorStep(a: nat, b: nat)
    ensures Xor(a, b) == (a % 2 + b % 2) % 2 + 2 * Xor(a / 2, b / 2)
  {
  }

  lemma XorZero(a: nat)
    ensures Xor(a, 0) == a && Xor(0, a) == a
  {
  }

  lemma XorHalves(a: nat, b: nat)
    ensures Xor(a, b) / 2 == Xor(a / 2, b / 2) && Xor(a, b) % 2 == (a % 2 + b % 2) % 2
  {
    XorStep(a, b);
  }

  /** Coefficients are added modulo 2. */
  lemma {:induction false} XorBit(a: nat, b: nat, i: nat)
    ensures Bit(Xor(a, b), i) == (Bit(a, i) + Bit(b, i)) % 2
    decreases i
  {
    hide Xor;
    XorHalves(a, b);
    if i > 0 {
      XorBit(a / 2, b / 2, i - 1);
    }
  }

  lemma {:induction false} XorComm(a: nat, b: nat)
    ensures Xor(a, b) == Xor(b, a)
    decreases a
  {
    if a > 0 && b > 0 { XorComm(a / 2, b / 2); }
  }

  lemma {:induction false} XorSelf(a: nat)
    ensures Xor(a, a) == 0
  {
    if a > 0 { XorSelf(a / 2); }
  }

  lemma FromHalves(x: nat, y: nat)
    requires x % 2 == y % 2 && x / 2 == y / 2
    ensures x == y
  {
  }

  lemma ParityAssoc(x: nat, y: nat, z: nat)
    ensures ((x % 2 + y % 2) % 2 + z % 2) % 2 == (x % 2 + (y % 2 + z % 2) % 2) % 2
  {
  }

  lemma {:induction false} XorAssoc(a: nat, b: nat, c: nat)
    ensures Xor(Xor(a, b), c) == Xor(a, Xor(b, c))
    decreases a
  {
    hide Xor;
    if a == 0 {
      XorZero(b);
      XorZero(Xor(b, c));
    } else {
      XorAssoc(a / 2, b / 2, c / 2);
      XorHalves(a, b);
      XorHalves(b, c);
      XorHalves(Xor(a, b), c);
      XorHalves(a, Xor(b, c));
      ParityAssoc(a, b, c);
      FromHalves(Xor(Xor(a, b), c), Xor(a, Xor(b, c)));
    }
  }

  lemma XorCancel(a: nat, b: nat)
    ensures Xor(Xor(a, b), b) == a && Xor(b, Xor(b, a)) == a
    ensures Xor(a, b) == 0 <==> a == b
  {
    XorAssoc(a, b, b);
    XorSelf(b);
    XorZero(a);
    XorAssoc(b, b, a);
    XorSelf(a);
    if Xor(a, b) == 0 { XorZero(b); }
  }

  /** (a + b) + (c + d) == (a + c) + (b + d) */
  lemma XorExchange(a: nat, b: nat, c: nat, d: nat)
    ensures Xor(Xor(a, b), Xor(c, d)) == Xor(Xor(a, c), Xor(b, d))
  {
    XorAssoc(a, b, Xor(c, d));
    XorAssoc(b, c, d);
    XorComm(b, c);
    XorAssoc(c, b, d);
    XorAssoc(a, c, Xor(b, d));
  }

  lemma XorDouble(a: nat, b: nat)
    ensures Xor(2 * a, 2 * b) == 2 * Xor(a, b)
  {
    hide Xor;
    XorHalves(2 * a, 2 * b);
    FromHalves(Xor(2 * a, 2 * b), 2 * Xor(a, b));
  }

  lemma {:induction false} XorShl(a: nat, b: nat, k: nat)
    ensures Shl(a, k) >= 0 && Shl(b, k) >= 0
    ensures Xor(Shl(a, k), Shl(b, k)) == Shl(Xor(a, b), k)
  {
    if k > 0 {
      XorShl(a, b, k - 1);
      hide Xor;
      XorDouble(Shl(a, k - 1), Shl(b, k - 1));
    }
  }

  lemma {:induction false} XorShr(a: nat, b: nat, k: nat)
    ensures Shr(Xor(a, b), k) == Xor(Shr(a, k), Shr(b, k))
  {
    if k > 0 {
      XorHalves(a, b);
      XorShr(a / 2, b / 2, k - 1);
    }
  }

  lemma LowHalves(n: nat, k: nat)
    requires k > 0
    ensures Low(n, k) % 2 == n % 2 && Low(n, k) / 2 == Low(n / 2, k - 1)
  {
  }

  lemma {:induction false} XorLow(a: nat, b: nat, k: nat)
    ensures Low(Xor(a, b), k) == Xor(Low(a, k), Low(b, k))
  {
    hide Xor;
    if k > 0 {
      XorHalves(a, b);
      XorLow(a / 2, b / 2, k - 1);
      LowHalves(a, k);
      LowHalves(b, k);
      XorHalves(Low(a, k), Low(b, k));
      LowHalves(Xor(a, b), k);
      FromHalves(Low(Xor(a, b), k), Xor(Low(a, k), Low(b, k)));
    } else {
      XorZero(0);
    }
  }

  lemma {:induction false} XorBound(a: nat, b: nat, k: nat)
    requires a < Pow2(k) && b < Pow2(k)
    ensures Xor(a, b) < Pow2(k)
  {
    if k > 0 && a > 0 && b > 0 { XorBound(a / 2, b / 2, k - 1); }
  }

  /** Numbers without a common bit position are added without carries. */
  lemma {:induction false} XorDisjoint(hi: nat, lo: nat, k: nat)
    requires lo < Pow2(k)
    ensures Shl(hi, k) >= 0 && Xor(Shl(hi, k), lo) == Shl(hi, k) + lo
  {
    hide Xor;
    if k > 0 {
      XorDisjoint(hi, lo / 2, k - 1);
      var h := Shl(hi, k - 1);
      assert h >= 0 && Shl(hi, k) == 2 * h && (2 * h) / 2 == h && (2 * h) % 2 == 0;
      XorStep(2 * h, lo);
    } else {
      XorZero(hi);
    }
  }

  /** Product without carries. */
  function Mul(a: nat, b: nat): (r: nat)
    decreases b
  {
    if b == 0 then 0 else Xor(if b % 2 == 1 then a else 0, 2 * Mul(a, b / 2))
  }

  lemma MulStep(a: nat, b: nat)
    ensures Mul(a, b) == Xor(if b % 2 == 1 then a else 0, 2 * Mul(a, b / 2))
  {
  }

  lemma {:induction false} MulDouble(a: nat, b: nat)
    ensures Mul(2 * a, b) == 2 * Mul(a, b) && Mul(a, 2 * b) == 2 * Mul(a, b)
    decreases b
  {
    if b > 0 {
      MulDouble(a, b / 2);
      XorDouble(if b % 2 == 1 then a else 0, 2 * Mul(a, b / 2));
      MulStep(2 * a, b);
    }
    MulStep(a, 2 * b);
    XorZero(2 * Mul(a, b));
  }

  lemma MulNothing(a: nat)
    ensures Mul(a, 0) == 0
  {
  }

  lemma {:induction false} MulZero(a: nat)
    ensures Mul(0, a) == 0 && Mul(a, 0) == 0
    ensures Mul(1, a) == a && Mul(a, 1) == a
  {
    hide Xor, Mul;
    MulNothing(a);
    MulStep(a, 1);
    XorZero(a);
    if a > 0 {
      MulZero(a / 2);
      MulStep(0, a);
      MulStep(1, a);
      XorStep(a % 2, 2 * (a / 2));
      XorZero(a / 2);
      XorZero(0);
    } else {
      MulNothing(1);
    }
  }

  lemma {:induction false} MulDistrib(a: nat, b: nat, c: nat)
    ensures Mul(a, Xor(b, c)) == Xor(Mul(a, b), Mul(a, c))
    decreases b + c
  {
    hide Xor;
    if b > 0 && c > 0 {
      MulDistrib(a, b / 2, c / 2);
      XorHalves(b, c);
      MulStep(a, b);
      MulStep(a, c);
      MulStep(a, Xor(b, c));
      var s, t := if b % 2 == 1 then a else 0, if c % 2 == 1 then a else 0;
      XorExchange(s, 2 * Mul(a, b / 2), t, 2 * Mul(a, c / 2));
      XorDouble(Mul(a, b / 2), Mul(a, c / 2));
      XorSelf(a);
      XorZero(a);
      XorZero(0);
    }
    XorZero(b);
    XorZero(c);
    XorZero(Mul(a, b));
    XorZero(Mul(a, c));
  }

  lemma {:induction false} MulDistribLeft(a: nat, b: nat, c: nat)
    ensures Mul(Xor(a, b), c) == Xor(Mul(a, c), Mul(b, c))
    decreases c
  {
    if c > 0 {
      MulDistribLeft(a, b, c / 2);
      var s, t := if c % 2 == 1 then a else 0, if c % 2 == 1 then b else 0;
      XorExchange(s, 2 * Mul(a, c / 2), t, 2 * Mul(b, c / 2));
      XorDouble(Mul(a, c / 2), Mul(b, c / 2));
    }
  }

  lemma {:induction false} MulComm(a: nat, b: nat)
    ensures Mul(a, b) == Mul(b, a)
    decreases b
  {
    hide Xor, Mul;
    MulZero(a);
    if b > 0 {
      MulComm(a, b / 2);
      MulStep(a, b);
      // b == b % 2 + 2 (b / 2), and the left factor distributes
      XorStep(b % 2, 2 * (b / 2));
      XorZero(b / 2);
      MulDistribLeft(b % 2, 2 * (b / 2), a);
      MulDouble(b / 2, a);
    }
  }

  lemma {:induction false} MulAssoc(a: nat, b: nat, c: nat)
    ensures Mul(Mul(a, b), c) == Mul(a, Mul(b, c))
    decreases c
  {
    if c > 0 {
      MulAssoc(a, b, c / 2);
      var s := if c % 2 == 1 then b else 0;
      MulDistrib(a, s, 2 * Mul(b, c / 2));
      MulDouble(a, Mul(b, c / 2));
      MulZero(a);
    }
  }

  lemma {:induction false} MulShl(a: nat, b: nat, k: nat)
    ensures Shl(a, k) >= 0 && Shl(b, k) >= 0
    ensures Mul(Shl(a, k), b) == Shl(Mul(a, b), k) && Mul(a, Shl(b, k)) == Shl(Mul(a, b), k)
  {
    if k > 0 {
      MulShl(a, b, k - 1);
      MulDouble(Shl(a, k - 1), b);
      MulDouble(a, Shl(b, k - 1));
    }
  }

  // ------------------------------------------------------------------
  // Degrees

  lemma {:induction false} XorBitCount(a: nat, b: nat)
    ensures BitCount(a) > BitCount(b) ==> BitCount(Xor(a, b)) == BitCount(a) == BitCount(Xor(b, a))
    ensures BitCount(a) == BitCount(b) > 0 ==> BitCount(Xor(a, b)) < BitCount(a)
    decreases a
  {
    XorComm(a, b);
    if a > 0 && b > 0 {
      XorBitCount(a / 2, b / 2);
      XorHalves(a, b);
    }
  }

  lemma XorBitCountMax(a: nat, b: nat)
    ensures BitCount(Xor(a, b)) <= if BitCount(a) > BitCount(b) then BitCount(a) else BitCount(b)
  {
    XorBitCount(a, b);
    XorBitCount(b, a);
  }

  lemma {:induction false} ShlBitCount(a: nat, k: nat)
    requires a > 0
    ensures Shl(a, k) > 0 && BitCount(Shl(a, k)) == BitCount(a) + k
  {
    if k > 0 { ShlBitCount(a, k - 1); }
  }

  lemma {:induction false} MulBitCount(a: nat, b: nat)
    requires a > 0 && b > 0
    ensures BitCount(Mul(a, b)) == BitCount(a) + BitCount(b) - 1 && Mul(a, b) > 0
    decreases b
  {
    if b == 1 {
      MulZero(a);
    } else {
      MulBitCount(a, b / 2);
      var m := Mul(a, b / 2);
      assert BitCount(2 * m) == 1 + BitCount(m);
      XorBitCount(2 * m, if b % 2 == 1 then a else 0);
      assert BitCount(b / 2) >= 1;
    }
  }

  // ------------------------------------------------------------------
  // Congruence and remainder

  ghost predicate DifferByMultiple(a: nat, b: nat, q: nat, m: nat) { Xor(a, b) == Mul(q, m) }

  /** a and b are equal modulo the polynomial m. */
  ghost predicate PolyCong(a: nat, b: nat, m: nat)
  {
    exists q :: DifferByMultiple(a, b, q, m)
  }

  ghost predicate PolyDivides(d: nat, a: nat)
  {
    PolyCong(a, 0, d)
  }

  lemma PolyCongBy(a: nat, b: nat, q: nat, m: nat)
    requires Xor(a, b) == Mul(q, m)
    ensures PolyCong(a, b, m) && PolyCong(b, a, m)
  {
    XorComm(a, b);
    assert DifferByMultiple(a, b, q, m);
    assert DifferByMultiple(b, a, q, m);
  }

  lemma PolyCongRefl(a: nat, m: nat)
    ensures PolyCong(a, a, m)
  {
    XorSelf(a);
    MulZero(m);
    PolyCongBy(a, a, 0, m);
  }

  lemma PolyCongSym(a: nat, b: nat, m: nat)
    requires PolyCong(a, b, m)
    ensures PolyCong(b, a, m)
  {
    var q :| DifferByMultiple(a, b, q, m);
    PolyCongBy(a, b, q, m);
  }

  lemma PolyCongTrans(a: nat, b: nat, c: nat, m: nat)
    requires PolyCong(a, b, m) && PolyCong(b, c, m)
    ensures PolyCong(a, c, m)
  {
    var p :| DifferByMultiple(a, b, p, m);
    var q :| DifferByMultiple(b, c, q, m);
    XorExchange(a, b, b, c);
    XorCancel(a, b);
    XorAssoc(a, b, Xor(b, c));
    XorCancel(c, b);
    MulDistribLeft(p, q, m);
    PolyCongBy(a, c, Xor(p, q), m);
  }

  lemma PolyCongXor(a: nat, b: nat, c: nat, d: nat, m: nat)
    requires PolyCong(a, b, m) && PolyCong(c, d, m)
    ensures PolyCong(Xor(a, c), Xor(b, d), m)
  {
    var p :| DifferByMultiple(a, b, p, m);
    var q :| DifferByMultiple(c, d, q, m);
    XorExchange(a, c, b, d);
    MulDistribLeft(p, q, m);
    PolyCongBy(Xor(a, c), Xor(b, d), Xor(p, q), m);
  }

  lemma PolyCongMul(c: nat, a: nat, b: nat, m: nat)
    requires PolyCong(a, b, m)
    ensures PolyCong(Mul(c, a), Mul(c, b), m) && PolyCong(Mul(a, c), Mul(b, c), m)
  {
    var q :| DifferByMultiple(a, b, q, m);
    MulDistrib(c, a, b);
    MulAssoc(c, q, m);
    PolyCongBy(Mul(c, a), Mul(c, b), Mul(c, q), m);
    MulComm(a, c);
    MulComm(b, c);
  }

  lemma PolyCongShl(a: nat, b: nat, k: nat, m: nat)
    requires PolyCong(a, b, m)
    ensures Shl(a, k) >= 0 && Shl(b, k) >= 0 && PolyCong(Shl(a, k), Shl(b, k), m)
  {
    hide Xor, Mul, Shl;
    ShlNat(a, k);
    ShlNat(b, k);
    var q: nat :| DifferByMultiple(a, b, q, m);
    ShlNat(q, k);
    XorShl(a, b, k);
    MulShl(q, m, k);
    PolyCongBy(Shl(a, k), Shl(b, k), Shl(q, k), m);
  }

  /** Polynomials of lower degree than m are equal when they are congruent. */
  lemma PolyCongUnique(a: nat, b: nat, m: nat)
    requires PolyCong(a, b, m) && BitCount(a) < BitCount(m) && BitCount(b) < BitCount(m)
    ensures a == b
  {
    var q :| DifferByMultiple(a, b, q, m);
    XorBitCountMax(a, b);
    if q > 0 { MulBitCount(q, m); }
    MulZero(m);
    XorCancel(a, b);
  }

  /** Remainder of long division. */
  function Rem(a: nat, m: nat): (r: nat)
    requires m > 0
    ensures BitCount(r) < BitCount(m)
    decreases BitCount(a)
  {
    if BitCount(a) < BitCount(m) then a
    else
      var shifted := Shl(m, BitCount(a) - BitCount(m));
      ShlBitCount(m, BitCount(a) - BitCount(m));
      XorBitCount(a, shifted);
      Rem(Xor(a, shifted), m)
  }

  lemma {:induction false} RemCong(a: nat, m: nat)
    requires m > 0
    ensures PolyCong(a, Rem(a, m), m)
    decreases BitCount(a)
  {
    if BitCount(a) < BitCount(m) {
      PolyCongRefl(a, m);
    } else {
      var k := BitCount(a) - BitCount(m);
      ShlBitCount(m, k);
      XorBitCount(a, Shl(m, k));
      RemCong(Xor(a, Shl(m, k)), m);
      MulZero(m);
      MulShl(1, m, k);
      XorCancel(Shl(m, k), a);
      PolyCongBy(a, Xor(a, Shl(m, k)), Shl(1, k), m);
      PolyCongTrans(a, Xor(a, Shl(m, k)), Rem(a, m), m);
    }
  }

  /** Rem is the only reduced polynomial congruent to a. */
  lemma RemUnique(a: nat, r: nat, m: nat)
    requires m > 0 && PolyCong(r, a, m) && BitCount(r) < BitCount(m)
    ensures r == Rem(a, m)
  {
    RemCong(a, m);
    PolyCongTrans(r, a, Rem(a, m), m);
    PolyCongUnique(r, Rem(a, m), m);
  }
}

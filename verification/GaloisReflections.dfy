/** The block product of GCM is the product of polynomials over GF(2) modulo
    x^128 + x^7 + x^2 + x + 1, with the bits of a block read from the first on. */
module GaloisReflections {
  import opened Bits
  import opened BinaryPolynomials
  import opened GaloisProducts

  /** The low k bits of v in reverse order. */
  function Reflect(v: nat, k: nat): (r: nat)
  {
    if k == 0 then 0 else (if v % 2 == 1 then Pow2(k - 1) else 0) + Reflect(v / 2, k - 1)
  }

  /** x^128 + x^7 + x^2 + x + 1 */
  function Modulus(): (m: nat)
    ensures m > 0
  {
    Pow2(BLOCK_BITS) + 0x87
  }

  lemma {:induction false} ReflectBound(v: nat, k: nat)
    ensures Reflect(v, k) < Pow2(k)
  {
    if k > 0 { ReflectBound(v / 2, k - 1); }
  }

  /** The bit that becomes the highest, apart from the others. */
  lemma ReflectTop(v: nat, k: nat)
    requires k > 0
    ensures Reflect(v, k) == Xor(if v % 2 == 1 then Pow2(k - 1) else 0, Reflect(v / 2, k - 1))
  {
    hide Pow2, Shl, Xor;
    ReflectBound(v / 2, k - 1);
    XorDisjoint(1, Reflect(v / 2, k - 1), k - 1);
    ShlOne(k - 1);
    XorZero(Reflect(v / 2, k - 1));
  }

  lemma {:induction false} ReflectXor(a: nat, b: nat, k: nat)
    ensures Reflect(Xor(a, b), k) == Xor(Reflect(a, k), Reflect(b, k))
    decreases k
  {
    hide Xor, Pow2;
    XorZero(0);
    if k > 0 {
      ReflectTop(a, k);
      ReflectTop(b, k);
      ReflectTop(Xor(a, b), k);
      XorHalves(a, b);
      ReflectXor(a / 2, b / 2, k - 1);
      var p := Pow2(k - 1);
      XorSelf(p);
      XorZero(p);
      XorExchange(if a % 2 == 1 then p else 0, Reflect(a / 2, k - 1), if b % 2 == 1 then p else 0, Reflect(b / 2, k - 1));
    }
  }

  lemma {:induction false} ReflectNothing(k: nat)
    ensures Reflect(0, k) == 0
  {
    if k > 0 { ReflectNothing(k - 1); }
  }

  /** One more place for a short number doubles its reflection. */
  lemma {:induction false} ReflectWider(w: nat, k: nat)
    requires w < Pow2(k)
    ensures Reflect(w, k + 1) == 2 * Reflect(w, k)
    decreases k
  {
    if k == 0 {
      ReflectNothing(1);
    } else {
      ReflectWider(w / 2, k - 1);
    }
  }

  lemma {:induction false} ReflectShifted(h: nat, n: nat, k: nat)
    ensures Shl(h, k) >= 0 && Reflect(Shl(h, k), n + k) == Reflect(h, n)
    decreases k
  {
    ShlNat(h, k);
    if k > 0 {
      ReflectShifted(h, n, k - 1);
      assert Shl(h, k) / 2 == Shl(h, k - 1) && Shl(h, k) % 2 == 0;
    }
  }

  lemma ReflectNibble(v: nat, k: nat)
    requires k >= 4
    ensures Reflect(v, k) == v % 2 * Pow2(k - 1) + v / 2 % 2 * Pow2(k - 2) + v / 4 % 2 * Pow2(k - 3) + v / 8 % 2 * Pow2(k - 4)
                           + Reflect(v / 16, k - 4)
  {
    hide Pow2;
    var a, b, c, d := v / 2, v / 4, v / 8, v / 16;
    assert a / 2 == b && b / 2 == c && c / 2 == d;
    ReflectStep(v, k);
    ReflectStep(a, k - 1);
    ReflectStep(b, k - 2);
    ReflectStep(c, k - 3);
  }

  lemma ReflectStep(v: nat, k: nat)
    requires k > 0
    ensures Reflect(v, k) == v % 2 * Pow2(k - 1) + Reflect(v / 2, k - 1)
  {
  }

  lemma ReflectReducer()
    ensures Reflect(REDUCER, BLOCK_BITS) == 0x87
  {
    hide Reflect, Shl, Pow2;
    ReducerFits();
    ReflectShifted(0xe1, 8, 120);
    ReflectNibble(0xe1, 8);
    ReflectNibble(0xe, 4);
    SmallPowers();
    assert Reflect(0, 0) == 0 by { ReflectNothing(0); }
  }

  lemma SmallPowers()
    ensures Pow2(0) == 1 && Pow2(1) == 2 && Pow2(2) == 4 && Pow2(3) == 8
    ensures Pow2(4) == 16 && Pow2(5) == 32 && Pow2(6) == 64 && Pow2(7) == 128
  {
    assert Pow2(1) == 2 * Pow2(0);
    assert Pow2(2) == 2 * Pow2(1);
    assert Pow2(3) == 2 * Pow2(2);
    assert Pow2(4) == 2 * Pow2(3);
    assert Pow2(5) == 2 * Pow2(4);
    assert Pow2(6) == 2 * Pow2(5);
    assert Pow2(7) == 2 * Pow2(6);
  }

  /** Modulo the polynomial, MulX is multiplication by x. */
  lemma ReflectMulX(v: nat)
    requires v < Pow2(BLOCK_BITS)
    ensures PolyCong(Reflect(MulX(v), BLOCK_BITS), 2 * Reflect(v, BLOCK_BITS), Modulus())
  {
    hide Reflect, Xor, Pow2, PolyCong, Mul;
    var k := BLOCK_BITS;
    var low := Reflect(v / 2, k - 1);
    ReflectXor(v / 2, if v % 2 == 1 then REDUCER else 0, k);
    ReflectReducer();
    ReflectNothing(k);
    ReflectStep(v, k);
    assert Pow2(k) == 2 * Pow2(k - 1) by { Pow2Step(k); }
    ReflectWider(v / 2, k - 1);
    ReflectBound(v / 2, k - 1);
    if v % 2 == 1 {
      DoubledTop(low, k);
    } else {
      XorZero(2 * low);
      PolyCongRefl(2 * low, Modulus());
    }
  }

  lemma DoubledTop(low: nat, k: nat)
    requires k == BLOCK_BITS && 2 * low < Pow2(k)
    ensures PolyCong(Xor(2 * low, 0x87), Pow2(k) + 2 * low, Modulus())
  {
    hide Xor, Pow2, PolyCong, Mul, Shl;
    var x, y := 2 * low, 0x87;
    ShlOne(k);
    XorDisjoint(1, x, k);
    assert y < Pow2(k) by { SmallConstant(); }
    XorDisjoint(1, y, k);
    var top := Pow2(k);
    // (x + y) + (top + x) == y + top
    XorComm(x, y);
    XorExchange(y, x, top, x);
    XorSelf(x);
    XorZero(Xor(y, top));
    XorComm(y, top);
    MulZero(Modulus());
    PolyCongBy(Xor(x, y), Xor(top, x), 1, Modulus());
  }

  lemma SmallConstant()
    ensures 0x87 < Pow2(BLOCK_BITS)
  {
    hide Pow2;
    Pow2Eight();
    Pow2Monotone(8, BLOCK_BITS);
  }

  lemma {:induction false} ReflectXPower(v: nat, n: nat)
    requires v < Pow2(BLOCK_BITS)
    ensures XPower(v, n) < Pow2(BLOCK_BITS)
    ensures Shl(Reflect(v, BLOCK_BITS), n) >= 0
    ensures PolyCong(Reflect(XPower(v, n), BLOCK_BITS), Shl(Reflect(v, BLOCK_BITS), n), Modulus())
    decreases n
  {
    hide Reflect, Pow2, PolyCong, Modulus, MulX, Shl;
    var r := Reflect(v, BLOCK_BITS);
    ShlNat(r, n);
    if n == 0 {
      assert Shl(r, 0) == r by { ShlSmall(r); }
      PolyCongRefl(r, Modulus());
    } else {
      var w := MulX(v);
      MulXBound(v);
      ReflectXPower(w, n - 1);
      ReflectMulX(v);
      ShlNat(Reflect(w, BLOCK_BITS), n - 1);
      PolyCongShl(Reflect(w, BLOCK_BITS), 2 * r, n - 1, Modulus());
      assert Shl(2 * r, n - 1) == Shl(r, n) by { ShlShl(r, 1, n - 1); ShlSmall(r); }
      PolyCongTrans(Reflect(XPower(v, n), BLOCK_BITS), Shl(Reflect(w, BLOCK_BITS), n - 1), Shl(r, n), Modulus());
    }
  }

  lemma {:induction false} ReflectWindow(h: nat, n: nat, w: nat)
    requires h < Pow2(BLOCK_BITS)
    ensures PolyCong(Reflect(Window(h, 0, n, w), BLOCK_BITS), Mul(Reflect(h, BLOCK_BITS), Reflect(w, n)), Modulus())
    decreases n
  {
    hide Reflect, Pow2, PolyCong, Modulus, Xor, XPower, Mul, Shl;
    var r := Reflect(h, BLOCK_BITS);
    MulZero(r);
    if n == 0 {
      ReflectNothing(BLOCK_BITS);
      assert Reflect(w, 0) == 0 by { ReflectNoBits(w); }
      PolyCongRefl(0, Modulus());
    } else {
      ReflectWindow(h, n - 1, w / 2);
      ReflectTop(w, n);
      var rest, restMul := Window(h, 0, n - 1, w / 2), Mul(r, Reflect(w / 2, n - 1));
      if w % 2 == 1 {
        var p := XPower(h, n - 1);
        ReflectXPower(h, n - 1);
        ReflectXor(p, rest, BLOCK_BITS);
        MulDistrib(r, Pow2(n - 1), Reflect(w / 2, n - 1));
        TimesPower(r, n - 1);
        PolyCongXor(Reflect(p, BLOCK_BITS), Shl(r, n - 1), Reflect(rest, BLOCK_BITS), restMul, Modulus());
      } else {
        XorZero(rest);
        XorZero(Reflect(w / 2, n - 1));
      }
    }
  }

  lemma ReflectNoBits(w: nat)
    ensures Reflect(w, 0) == 0
  {
  }

  lemma TimesPower(r: nat, k: nat)
    ensures Mul(r, Pow2(k)) == Shl(r, k)
  {
    hide Pow2, Shl, Mul;
    MulShl(r, 1, k);
    ShlOne(k);
    MulZero(r);
  }

  /** GaloisProduct is multiplication in GF(2)[x] / (x^128 + x^7 + x^2 + x + 1). */
  lemma ProductIsPolynomialProduct(a: nat, b: nat)
    requires a < Pow2(BLOCK_BITS)
    ensures Reflect(GaloisProduct(a, b), BLOCK_BITS)
         == Rem(Mul(Reflect(a, BLOCK_BITS), Reflect(b, BLOCK_BITS)), Modulus())
  {
    hide Reflect, Pow2, PolyCong, Window, Mul, Rem, BitCount;
    ReflectWindow(a, BLOCK_BITS, b);
    var r := Reflect(GaloisProduct(a, b), BLOCK_BITS);
    ReflectBound(GaloisProduct(a, b), BLOCK_BITS);
    BitCountUpper(r, BLOCK_BITS);
    assert BitCount(Modulus()) > BLOCK_BITS by { BitCountUpper(Modulus(), BLOCK_BITS); }
    RemUnique(Mul(Reflect(a, BLOCK_BITS), Reflect(b, BLOCK_BITS)), r, Modulus());
  }
}

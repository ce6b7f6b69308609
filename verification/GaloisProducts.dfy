/** The product of GCM on 128-bit blocks, bit by bit as gcm_gf_mult of gcm.cpp takes
    it, and its laws.  A block is the number whose highest bit is the first bit of
    the block, that is the coefficient of x^0. */
module GaloisProducts {
  import opened Bits
  import opened BinaryPolynomials

  const BLOCK_BITS: nat := 128

  /** 0xe1 in the first byte of the block */
  const REDUCER: nat := 0xe100_0000_0000_0000_0000_0000_0000_0000

  /** V times x. */
  function MulX(v: nat): (r: nat)
  {
    Xor(v / 2, if v % 2 == 1 then REDUCER else 0)
  }

  /** V times x^n. */
  function XPower(v: nat, n: nat): (r: nat)
    decreases n
  {
    if n == 0 then v else XPower(MulX(v), n - 1)
  }

  /** h times the n coefficients held in v, the first of which belongs to x^s. */
  function Window(h: nat, s: nat, n: nat, v: nat): (r: nat)
  {
    if n == 0 then 0
    else Xor(if v % 2 == 1 then XPower(h, s + n - 1) else 0, Window(h, s, n - 1, v / 2))
  }

  /** The product of two blocks. */
  function GaloisProduct(a: nat, b: nat): (r: nat)
  {
    Window(a, 0, BLOCK_BITS, b)
  }

  /** gcm_gf_mult: the bits of b from the first on, with a times x^i beside. */
  method GfMult(a: nat, b: nat) returns (z: nat)
    ensures z == GaloisProduct(a, b)
  {
    hide Xor, XPower, Window, MulX, Shr, Bit;
    z := 0;
    var v := a;
    WindowStart(a, b);
    for i := 0 to 16
      invariant v == XPower(a, 8 * i) && z == Window(a, 0, 8 * i, Shr(b, BLOCK_BITS - 8 * i))
    {
      for j := 0 to 8
        invariant v == XPower(a, 8 * i + j) && z == Window(a, 0, 8 * i + j, Shr(b, BLOCK_BITS - (8 * i + j)))
      {
        var x := Bit(b, BLOCK_BITS - 1 - (8 * i + j));
        WindowNextBit(a, b, 8 * i + j);
        z := Xor(z, if x == 1 then v else 0);
        XPowerAdd(a, 8 * i + j, 1);
        XPowerOne(v);
        v := MulX(v);
      }
    }
    assert Shr(b, 0) == b by { NoShr(b); }
  }

  lemma WindowStart(a: nat, b: nat)
    ensures XPower(a, 0) == a && Window(a, 0, 0, Shr(b, BLOCK_BITS)) == 0
  {
  }

  lemma NoShr(b: nat)
    ensures Shr(b, 0) == b
  {
  }

  lemma XPowerOne(v: nat)
    ensures XPower(v, 1) == MulX(v)
  {
    assert XPower(MulX(v), 0) == MulX(v);
  }

  lemma WindowNextBit(a: nat, b: nat, n: nat)
    requires n < BLOCK_BITS
    ensures Window(a, 0, n + 1, Shr(b, BLOCK_BITS - (n + 1)))
         == Xor(Window(a, 0, n, Shr(b, BLOCK_BITS - n)), if Bit(b, BLOCK_BITS - 1 - n) == 1 then XPower(a, n) else 0)
  {
    hide Xor, XPower, Shr;
    var k := BLOCK_BITS - 1 - n;
    var v := Shr(b, k);
    ShiftStep(b, k);
    assert v / 2 == Shr(b, k + 1) && v % 2 == Bit(b, k);
    XorComm(if v % 2 == 1 then XPower(a, n) else 0, Window(a, 0, n, v / 2));
  }

  // ------------------------------------------------------------------
  // Linearity

  lemma MulXLinear(a: nat, b: nat)
    ensures MulX(Xor(a, b)) == Xor(MulX(a), MulX(b))
  {
    hide Xor;
    XorHalves(a, b);
    var x := if a % 2 == 1 then REDUCER else 0;
    var y := if b % 2 == 1 then REDUCER else 0;
    XorExchange(a / 2, b / 2, x, y);
    XorSelf(REDUCER);
    XorZero(REDUCER);
    XorZero(0);
  }

  lemma {:induction false} XPowerLinear(a: nat, b: nat, n: nat)
    ensures XPower(Xor(a, b), n) == Xor(XPower(a, n), XPower(b, n))
    decreases n
  {
    hide Xor, MulX;
    if n > 0 {
      MulXLinear(a, b);
      XPowerLinear(MulX(a), MulX(b), n - 1);
    }
  }

  lemma XPowerZero(n: nat)
    ensures XPower(0, n) == 0
  {
    hide Xor, MulX;
    XPowerLinear(0, 0, n);
    XorSelf(XPower(0, n));
    XorZero(0);
  }

  lemma {:induction false} XPowerAdd(v: nat, a: nat, b: nat)
    ensures XPower(XPower(v, a), b) == XPower(v, a + b)
    decreases a
  {
    hide MulX;
    if a > 0 {
      XPowerAdd(MulX(v), a - 1, b);
    }
  }

  /** Low zero bits are just shifted out. */
  lemma {:induction false} XPowerEven(h: nat, n: nat)
    ensures Shl(h, n) >= 0 && XPower(Shl(h, n), n) == h
  {
    hide Xor;
    ShlNat(h, n);
    if n > 0 {
      XPowerEven(h, n - 1);
      var v: nat := Shl(h, n);
      assert v == 2 * Shl(h, n - 1);
      XorZero(v / 2);
    }
  }

  lemma {:induction false} WindowLinear(h: nat, s: nat, n: nat, u: nat, v: nat)
    ensures Window(h, s, n, Xor(u, v)) == Xor(Window(h, s, n, u), Window(h, s, n, v))
    decreases n
  {
    hide Xor, XPower;
    XorZero(0);
    if n > 0 {
      WindowLinear(h, s, n - 1, u / 2, v / 2);
      XorHalves(u, v);
      var p := XPower(h, s + n - 1);
      XorSelf(p);
      XorZero(p);
      XorExchange(if u % 2 == 1 then p else 0, Window(h, s, n - 1, u / 2), if v % 2 == 1 then p else 0, Window(h, s, n - 1, v / 2));
    }
  }

  lemma {:induction false} WindowSplit(h: nat, s: nat, n: nat, m: nat, v: nat)
    ensures Window(h, s, n + m, v) == Xor(Window(h, s, n, Shr(v, m)), Window(h, s + n, m, Low(v, m)))
    decreases m
  {
    hide Xor, XPower;
    if m == 0 {
      XorZero(Window(h, s, n, v));
    } else {
      WindowSplit(h, s, n, m - 1, v / 2);
      LowHalves(v, m);
      var bit := if v % 2 == 1 then XPower(h, s + n + m - 1) else 0;
      var high, rest := Window(h, s, n, Shr(v, m)), Window(h, s + n, m - 1, Low(v / 2, m - 1));
      XorAssoc(bit, high, rest);
      XorComm(bit, high);
      XorAssoc(high, bit, rest);
    }
  }

  /** A later window is the same one times a power of x. */
  lemma {:induction false} WindowShift(h: nat, s: nat, n: nat, v: nat, k: nat)
    ensures Window(h, s + k, n, v) == XPower(Window(h, s, n, v), k)
    decreases n
  {
    hide Xor, XPower;
    XPowerZero(k);
    if n > 0 {
      WindowShift(h, s, n - 1, v / 2, k);
      XPowerAdd(h, s + n - 1, k);
      XPowerLinear(if v % 2 == 1 then XPower(h, s + n - 1) else 0, Window(h, s, n - 1, v / 2), k);
    }
  }

  lemma {:induction false} WindowNothing(h: nat, s: nat, n: nat)
    ensures Window(h, s, n, 0) == 0
  {
    hide Xor, XPower;
    if n > 0 {
      WindowNothing(h, s, n - 1);
      XorZero(0);
    }
  }

  lemma {:induction false} WindowBit(h: nat, s: nat, n: nat, m: nat)
    requires m < n
    ensures Window(h, s, n, Pow2(m)) == XPower(h, s + n - 1 - m)
    decreases m
  {
    hide Xor, XPower;
    XorZero(XPower(h, s + n - 1 - m));
    if m == 0 {
      WindowNothing(h, s, n - 1);
    } else {
      WindowBit(h, s, n - 1, m - 1);
    }
  }

  lemma MulXBound(v: nat)
    requires v < Pow2(BLOCK_BITS)
    ensures MulX(v) < Pow2(BLOCK_BITS)
  {
    hide Xor, Pow2;
    assert REDUCER < Pow2(BLOCK_BITS) by { ReducerFits(); }
    XorBound(v / 2, if v % 2 == 1 then REDUCER else 0, BLOCK_BITS);
  }

  /** 0xe1 shifted to the first byte. */
  lemma ReducerFits()
    ensures REDUCER == Shl(0xe1, 120) && REDUCER < Pow2(BLOCK_BITS)
  {
    hide Shl, Pow2;
    ShlPow2(0xe1, 120);
    Pow2Add(60, 60);
    Pow2Add(120, 8);
    assert Pow2(60) == 0x1000_0000_0000_0000 by { Sixty(); }
    assert Pow2(8) == 256 by { Pow2Eight(); }
  }

  lemma Sixty()
    ensures Pow2(60) == 0x1000_0000_0000_0000
  {
    hide Pow2;
    Pow2Four();
    Pow2Eight();
    Pow2Add(8, 4);
    Pow2Add(12, 12);
    Pow2Add(24, 24);
    Pow2Add(48, 12);
  }
}

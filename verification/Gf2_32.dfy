/** GF2_32 of gf2_32.cpp: multiplication and inversion modulo x^32 + m on 32-bit
    words.  A word is a natural number below 2^32. */
module Gf2_32 {
  import opened Bits
  import opened BinaryPolynomials

  const WORD: nat := 0x1_0000_0000

  lemma WordSize()
    ensures Pow2(32) == WORD && Pow2(31) == 0x8000_0000
  {
    assert Pow2(8) == 256;
    Pow2Add(8, 8);
    Pow2Add(16, 16);
    assert Pow2(32) == 2 * Pow2(31);
  }

  /** The modulus polynomial for the modulus word m. */
  function Modulus(m: nat): nat { WORD + m }

  lemma ModulusFacts(m: nat)
    requires m < WORD
    ensures BitCount(Modulus(m)) == 33 && Modulus(m) == Xor(WORD, m)
  {
    WordSize();
    hide Xor, Pow2, BitCount, Shl;
    BitCountUpper(Modulus(m), 33);
    BitCountUpper(Modulus(m), 32);
    assert Pow2(33) == 2 * WORD by { WordDouble(); }
    ShlOne(32);
    XorDisjoint(1, m, 32);
  }

  lemma WordDouble()
    ensures Pow2(33) == 2 * WORD
  {
    WordSize();
    assert Pow2(33) == 2 * Pow2(32);
  }

  /** a << 1 on a word. */
  function ShiftLeft(a: nat): (r: nat)
    ensures r < WORD
  {
    (2 * a) % WORD
  }

  lemma ShiftLeftCases(a: nat)
    requires a < WORD
    ensures a < 0x8000_0000 ==> ShiftLeft(a) == 2 * a
    ensures a >= 0x8000_0000 ==> 2 * a == Xor(WORD, ShiftLeft(a))
  {
    hide Xor, Shl;
    if a >= 0x8000_0000 {
      var s := ShiftLeft(a);
      assert 2 * a == WORD + s;
      WordSize();
      ShlOne(32);
      XorDisjoint(1, s, 32);
    }
  }

  /** The word that represents x * a: the shifted word, with the modulus word added
      when the top bit is lost. */
  function TimesX(m: nat, a: nat): nat
  {
    if a >= 0x8000_0000 then Xor(ShiftLeft(a), m) else ShiftLeft(a)
  }

  lemma TimesXCorrect(m: nat, a: nat)
    requires m < WORD && a < WORD
    ensures TimesX(m, a) < WORD && PolyCong(TimesX(m, a), 2 * a, Modulus(m))
  {
    hide Xor, PolyCong;
    WordSize();
    ShiftLeftCases(a);
    ModulusFacts(m);
    if a >= 0x8000_0000 {
      var s := ShiftLeft(a);
      XorBound(s, m, 32);
      // (s + m) + (2^32 + s) == m + 2^32
      XorComm(WORD, s);
      XorExchange(s, m, s, WORD);
      XorSelf(s);
      XorZero(Xor(m, WORD));
      XorComm(m, WORD);
      MulZero(Modulus(m));
      PolyCongBy(TimesX(m, a), 2 * a, 1, Modulus(m));
    } else {
      PolyCongRefl(2 * a, Modulus(m));
    }
  }

  /** One more bit of the multiplier. */
  lemma HornerStep(m: nat, ax: nat, h: nat, bit: nat, result: nat, next: nat)
    requires m < WORD && result < WORD && bit < 2
    requires PolyCong(result, Mul(ax, h), Modulus(m))
    requires next == Xor(TimesX(m, result), if bit == 1 then ax else 0)
    ensures PolyCong(next, Mul(ax, 2 * h + bit), Modulus(m))
  {
    hide Xor, PolyCong, TimesX;
    var M := Modulus(m);
    TimesXCorrect(m, result);
    PolyCongShl(result, Mul(ax, h), 1, M);
    assert Shl(result, 1) == 2 * result && Shl(Mul(ax, h), 1) == 2 * Mul(ax, h);
    PolyCongTrans(TimesX(m, result), 2 * result, 2 * Mul(ax, h), M);
    var term := if bit == 1 then ax else 0;
    PolyCongRefl(term, M);
    PolyCongXor(TimesX(m, result), 2 * Mul(ax, h), term, term, M);
    MulStep(ax, 2 * h + bit);
    assert (2 * h + bit) / 2 == h && (2 * h + bit) % 2 == bit;
    XorComm(term, 2 * Mul(ax, h));
  }

  /** table[2 * bit + top] is what the loop adds to the shifted result. */
  lemma TableEntry(m: nat, a: nat, table: seq<nat>, bit: nat, result: nat)
    requires m < WORD && a < WORD && result < WORD && bit < 2
    requires |table| == 4 && table[0] == 0 && table[1] == m
    requires table[2] == TimesX(m, a) && table[3] == Xor(m, TimesX(m, a))
    ensures Xor(ShiftLeft(result), table[2 * bit + if result >= 0x8000_0000 then 1 else 0])
         == Xor(TimesX(m, result), if bit == 1 then TimesX(m, a) else 0)
  {
    hide Xor, ShiftLeft;
    var s := ShiftLeft(result);
    XorZero(s);
    XorZero(TimesX(m, result));
    XorAssoc(s, m, TimesX(m, a));
  }

  method Multiply(m: nat, a: nat, b: nat) returns (product: nat)
    requires m < WORD && a < WORD && b < WORD
    ensures product < WORD && PolyCong(product, Mul(a, b), Modulus(m))
  {
    hide Xor, PolyCong, Shr, Mul, TimesX;
    var shifted := ShiftLeft(a);
    var table := [0, m] + if a >= 0x8000_0000 then [Xor(m, shifted), shifted] else [shifted, Xor(m, shifted)];
    MakeTable(m, a, shifted);
    ghost var M, ax := Modulus(m), table[2];
    TimesXCorrect(m, a);
    TopBit(b);
    var result: nat := table[2 * Bit(b, 31)];
    MulZero(ax);
    PolyCongRefl(result, M);
    for i := 30 downto 0
      invariant result < WORD && PolyCong(result, Mul(ax, Shr(b, i + 1)), M)
    {
      var top := if result >= 0x8000_0000 then 1 else 0;
      var next := Xor(ShiftLeft(result), table[2 * Bit(b, i + 1) + top]);
      TableEntry(m, a, table, Bit(b, i + 1), result);
      HornerStep(m, ax, Shr(b, i + 2), Bit(b, i + 1), result, next);
      ShiftStep(b, i + 1);
      NextBound(m, ax, result, Bit(b, i + 1));
      result := next;
    }
    product := if b % 2 == 1 then Xor(result, a) else result;
    LastBit(m, a, ax, b, result);
  }

  lemma NextBound(m: nat, ax: nat, result: nat, bit: nat)
    requires m < WORD && ax < WORD && result < WORD
    ensures Xor(TimesX(m, result), if bit == 1 then ax else 0) < WORD
  {
    TimesXCorrect(m, result);
    WordSize();
    XorBound(TimesX(m, result), if bit == 1 then ax else 0, 32);
  }

  lemma MakeTable(m: nat, a: nat, shifted: nat)
    requires m < WORD && a < WORD && shifted == ShiftLeft(a)
    ensures var t2 := if a >= 0x8000_0000 then Xor(m, shifted) else shifted;
            var t3 := if a >= 0x8000_0000 then shifted else Xor(m, shifted);
            t2 == TimesX(m, a) && t3 == Xor(m, TimesX(m, a))
  {
    hide Xor;
    XorComm(m, shifted);
    XorCancel(shifted, m);
  }

  lemma TopBit(b: nat)
    requires b < WORD
    ensures Shr(b, 31) == Bit(b, 31) < 2
  {
    WordSize();
    ShrSmall(b, 32);
    ShiftStep(b, 31);
  }

  lemma LastBit(m: nat, a: nat, ax: nat, b: nat, result: nat)
    requires m < WORD && a < WORD && result < WORD
    requires PolyCong(ax, 2 * a, Modulus(m)) && PolyCong(result, Mul(ax, Shr(b, 1)), Modulus(m))
    ensures var product := if b % 2 == 1 then Xor(result, a) else result;
            product < WORD && PolyCong(product, Mul(a, b), Modulus(m))
  {
    var h := b / 2;
    assert Shr(b, 1) == h;
    hide Xor, PolyCong, Mul;
    var M := Modulus(m);
    PolyCongMul(h, ax, 2 * a, M);
    MulDouble(a, h);
    PolyCongTrans(result, Mul(ax, h), 2 * Mul(a, h), M);
    MulStep(a, b);
    var term := if b % 2 == 1 then a else 0;
    PolyCongRefl(term, M);
    PolyCongXor(result, 2 * Mul(a, h), term, term, M);
    XorComm(term, 2 * Mul(a, h));
    XorZero(result);
    WordSize();
    XorBound(result, a, 32);
  }

  // ------------------------------------------------------------------
  // Inversion

  /** a and b share no factor of positive degree. */
  ghost predicate Coprime(a: nat, b: nat)
  {
    forall d {:trigger PolyDivides(d, a)} :: PolyDivides(d, a) && PolyDivides(d, b) ==> BitCount(d) <= 1
  }

  /** The two unsigned comparisons of the source compare degrees. */
  lemma ComparesDegrees(g0: nat, g1: nat)
    requires g0 > 0 && g1 > 0
    ensures (g1 < g0 || (Xor(g0, g1) < g0 && Xor(g0, g1) < g1)) <==> BitCount(g1) <= BitCount(g0)
    ensures BitCount(g1) <= BitCount(g0) ==> (Xor(g0, g1) >= g1 <==> BitCount(g1) < BitCount(g0))
  {
    hide Xor, BitCount;
    XorBitCount(g0, g1);
    XorBitCount(g1, g0);
    XorComm(g0, g1);
    var x := Xor(g0, g1);
    SmallerDegree(g0, g1);
    SmallerDegree(g1, g0);
    SmallerDegree(x, g0);
    SmallerDegree(x, g1);
    SmallerDegree(g0, x);
    SmallerDegree(g1, x);
    BitCountPositive(g0);
  }

  lemma SmallerDegree(a: nat, b: nat)
    ensures BitCount(a) < BitCount(b) ==> a < b
  {
    BitCountBound(a);
    BitCountBound(b);
    if BitCount(a) < BitCount(b) { Pow2Monotone(BitCount(a), BitCount(b) - 1); }
  }

  /** The invariant of the inversion loop. */
  ghost predicate Euclid(a: nat, M: nat, g0: nat, g1: nat, v0: nat, v1: nat)
  {
    && g0 > 0 && 2 <= BitCount(g1) <= 32 && BitCount(g0) <= 32
    && PolyCong(g0, Mul(a, v0), M) && PolyCong(g1, Mul(a, v1), M)
    && BitCount(v1) + BitCount(g0) <= 34 && BitCount(v0) + BitCount(g1) <= 34
    && BitCount(v0) <= 32 && BitCount(v1) <= 32
    && Coprime(g0, g1)
  }

  /** Divisors of b and of a + s * b divide a. */
  lemma DivisorOfSum(d: nat, a: nat, b: nat, s: nat)
    requires PolyDivides(d, Xor(a, Mul(s, b))) && PolyDivides(d, b)
    ensures PolyDivides(d, a)
  {
    hide Xor, PolyCong, Mul;
    MulZero(s);
    PolyCongMul(s, b, 0, d);
    PolyCongXor(Xor(a, Mul(s, b)), 0, Mul(s, b), 0, d);
    XorCancel(a, Mul(s, b));
    XorZero(0);
  }

  /** Removing the leading term: g0 and v0 take g1 and v1, shifted by the difference
      of the degrees. */
  lemma EuclidReduce(a: nat, M: nat, g0: nat, g1: nat, v0: nat, v1: nat)
    requires Euclid(a, M, g0, g1, v0, v1) && BitCount(g1) <= BitCount(g0)
    ensures var j := BitCount(g0) - BitCount(g1);
            && Shl(g1, j) >= 0 && Shl(v1, j) >= 0
            && Euclid(a, M, Xor(g0, Shl(g1, j)), g1, Xor(v0, Shl(v1, j)), v1)
            && BitCount(Xor(g0, Shl(g1, j))) < BitCount(g0)
  {
    var j := BitCount(g0) - BitCount(g1);
    ReducedDegrees(g0, g1, v0, v1, j);
    var s, h, w := Shl(1, j), Shl(g1, j), Shl(v1, j);
    hide Xor, PolyCong, Mul, BitCount, Shl;
    ShlNat(1, j);
    // g0 + x^j g1 == a (v0 + x^j v1)
    PolyCongShl(g1, Mul(a, v1), j, M);
    PolyCongXor(g0, Mul(a, v0), h, Shl(Mul(a, v1), j), M);
    MulShl(a, v1, j);
    MulDistrib(a, v0, w);
    MulZero(g1);
    MulShl(1, g1, j);
    forall d {:trigger PolyDivides(d, Xor(g0, h))} | PolyDivides(d, Xor(g0, h)) && PolyDivides(d, g1)
      ensures BitCount(d) <= 1
    {
      DivisorOfSum(d, g0, g1, s);
      assert PolyDivides(d, g0);
    }
    if Xor(g0, h) == 0 {
      // g1 would divide g0
      PolyCongRefl(0, g1);
      DivisorOfSelf(g1);
      DivisorOfSum(g1, g0, g1, s);
    }
  }

  lemma DivisorOfSelf(g: nat)
    ensures PolyDivides(g, g)
  {
    MulZero(g);
    XorZero(g);
    PolyCongBy(g, 0, 1, g);
  }

  lemma ReducedDegrees(g0: nat, g1: nat, v0: nat, v1: nat, j: nat)
    requires g0 > 0 && BitCount(g1) >= 2 && BitCount(g0) == BitCount(g1) + j
    requires BitCount(v1) + BitCount(g0) <= 34 && BitCount(v0) + BitCount(g1) <= 34 && BitCount(v0) <= 32
    ensures Shl(g1, j) > 0 && Shl(v1, j) >= 0
    ensures BitCount(Xor(g0, Shl(g1, j))) < BitCount(g0)
    ensures BitCount(Xor(v0, Shl(v1, j))) + BitCount(g1) <= 34
    ensures BitCount(Xor(v0, Shl(v1, j))) <= 32
  {
    hide Xor, Shl, BitCount;
    BitCountPositive(g1);
    ShlBitCount(g1, j);
    XorBitCount(g0, Shl(g1, j));
    ShiftedCofactor(v1, j, 34 - BitCount(g1));
    XorBitCountMax(v0, Shl(v1, j));
  }

  lemma ShiftedCofactor(v: nat, j: nat, bound: nat)
    requires BitCount(v) + j <= bound
    ensures Shl(v, j) >= 0 && BitCount(Shl(v, j)) <= bound
  {
    if v > 0 { ShlBitCount(v, j); } else { ShlZero(j); }
  }

  lemma EuclidSwap(a: nat, M: nat, g0: nat, g1: nat, v0: nat, v1: nat)
    requires Euclid(a, M, g0, g1, v0, v1) && g0 != 1
    ensures Euclid(a, M, g1, g0, v1, v0)
  {
    hide PolyCong, Mul;
    AtLeastTwo(g0);
    forall d {:trigger PolyDivides(d, g1)} | PolyDivides(d, g1) && PolyDivides(d, g0)
      ensures BitCount(d) <= 1
    {
      assert PolyDivides(d, g0);
    }
  }

  lemma AtLeastTwo(g: nat)
    requires g > 1
    ensures BitCount(g) >= 2
  {
    assert BitCount(g) == 1 + BitCount(g / 2);
  }

  /** Shifts g2 and v2 left until g2 has the degree of g0; no bit is lost. */
  method Align(g0: nat, g1: nat, v1: nat) returns (g2: nat, v2: nat)
    requires 0 < g0 < WORD && g1 > 0 && 2 <= BitCount(g1) <= BitCount(g0) && BitCount(v1) + BitCount(g0) <= 34
    ensures var j := BitCount(g0) - BitCount(g1);
            g2 == Shl(g1, j) && v2 == Shl(v1, j)
  {
    hide Xor, BitCount, Shl;
    g2, v2 := g1, v1;
    ghost var j: nat := 0;
    assert Shl(g1, 0) == g1 && Shl(v1, 0) == v1 by { ShlSmall(g1); ShlSmall(v1); }
    ShlBitCount(g1, 0);
    ComparesDegrees(g0, g2);
    while Xor(g0, g2) >= g2
      invariant g2 > 0 && g2 == Shl(g1, j) && v2 == Shl(v1, j)
      invariant BitCount(g2) == BitCount(g1) + j <= BitCount(g0)
      invariant Xor(g0, g2) >= g2 <==> BitCount(g2) < BitCount(g0)
      decreases BitCount(g0) - j
    {
      ShlBitCount(g1, j + 1);
      NoOverflow(g0, g1, v1, j);
      g2 := ShiftLeft(g2);
      v2 := ShiftLeft(v2);
      j := j + 1;
      ComparesDegrees(g0, g2);
    }
  }

  lemma NoOverflow(g0: nat, g1: nat, v1: nat, j: nat)
    requires g1 > 0 && g0 < WORD && 2 <= BitCount(g1) && BitCount(g1) + j < BitCount(g0) && BitCount(v1) + BitCount(g0) <= 34
    ensures Shl(g1, j) >= 0 && Shl(v1, j) >= 0
    ensures ShiftLeft(Shl(g1, j)) == Shl(g1, j + 1) && ShiftLeft(Shl(v1, j)) == Shl(v1, j + 1)
  {
    hide Shl, BitCount, Pow2;
    WordSize();
    ShlBitCount(g1, j);
    BitCountUpper(g0, 32);
    BitCountUpper(Shl(g1, j), 31);
    ShiftedCofactor(v1, j, 31);
    BitCountUpper(Shl(v1, j), 31);
    ShlStep(g1, j + 1);
    ShlStep(v1, j + 1);
  }

  /** The first loop: a shifted until its top bit is set, and 1 with it. */
  method ShiftToTop(a: nat) returns (g2: nat, v2: nat)
    requires 2 <= a < WORD
    ensures BitCount(a) <= 32 && 0 < g2 < WORD && g2 >= 0x8000_0000
    ensures g2 == Shl(a, 32 - BitCount(a)) && v2 == Shl(1, 32 - BitCount(a))
  {
    hide BitCount, Shl, Pow2;
    g2, v2 := a, 1;
    ghost var k: nat := 0;
    WordSize();
    ShlSmall(a);
    ShlSmall(1);
    AtLeastTwo(a);
    BitCountUpper(a, 32);
    TopBitSet(g2);
    while g2 < 0x8000_0000
      invariant 0 < g2 < WORD && v2 < WORD && g2 == Shl(a, k) && v2 == Shl(1, k)
      invariant BitCount(g2) == BitCount(a) + k <= 32
      invariant g2 < 0x8000_0000 <==> BitCount(g2) < 32
      decreases 32 - k
    {
      ShlBitCount(a, k + 1);
      ShlStep(a, k + 1);
      ShlStep(1, k + 1);
      SmallPower(k + 1);
      g2 := ShiftLeft(g2);
      v2 := ShiftLeft(v2);
      k := k + 1;
      TopBitSet(g2);
    }
  }

  /** The part before the main loop: g0 becomes the modulus plus a shifted to degree
      32, v0 that shift. */
  method FirstReduction(m: nat, a: nat) returns (g0: nat, v0: nat)
    requires m < WORD && 2 <= a < WORD && Coprime(a, Modulus(m))
    ensures Euclid(a, Modulus(m), g0, a, v0, 1) && FirstTurn(m, a) == Test(g0, a)
  {
    hide Xor, BitCount, Shl, Coprime, Pow2, Euclid;
    var g2, v2 := ShiftToTop(a);
    AtLeastTwo(a);
    ghost var k := 33 - BitCount(a);
    ShlStep(a, k);
    ShlStep(1, k);
    SmallPower(k);
    ShiftLeftCases(g2);
    g2 := ShiftLeft(g2);
    v2 := ShiftLeft(v2);
    g0 := Xor(m, g2);
    v0 := Xor(0, v2);
    XorZero(v2);
    FirstInvariant(m, a, k, g2);
  }

  lemma TopBitSet(g: nat)
    requires g < WORD
    ensures g < 0x8000_0000 <==> BitCount(g) < 32
  {
    WordSize();
    BitCountUpper(g, 31);
  }

  lemma SmallPower(k: nat)
    requires k <= 31
    ensures 0 < Shl(1, k) <= 0x8000_0000
  {
    WordSize();
    ShlOne(k);
    Pow2Monotone(k, 31);
  }

  lemma FirstInvariant(m: nat, a: nat, k: nat, g2: nat)
    requires m < WORD && 2 <= a < WORD && Coprime(a, Modulus(m)) && g2 < WORD
    requires BitCount(a) + k == 33 && Shl(a, k) == Xor(WORD, g2)
    ensures Shl(1, k) >= 0 && Euclid(a, Modulus(m), Xor(m, g2), a, Shl(1, k), 1)
  {
    hide Xor, PolyCong, Mul, BitCount, Shl, Pow2, Coprime, Modulus;
    var M := Modulus(m);
    ModulusFacts(m);
    WordSize();
    ShlBitCount(1, k);
    BitCountOne();
    AtLeastTwo(a);
    BitCountUpper(a, 32);
    XorBound(m, g2, 32);
    BitCountUpper(Xor(m, g2), 32);
    FirstSum(m, a, k, g2);
    FirstCoprime(M, a, Shl(1, k));
    MulComm(a, Shl(1, k));
    MulZero(a);
    MulZero(M);
    XorCancel(M, Mul(a, Shl(1, k)));
    PolyCongBy(Xor(m, g2), Mul(a, Shl(1, k)), 1, M);
    PolyCongRefl(a, M);
  }

  /** g0 is the modulus plus the shifted a: their bits 32 cancel. */
  lemma FirstSum(m: nat, a: nat, k: nat, g2: nat)
    requires m < WORD && Shl(a, k) == Xor(WORD, g2)
    ensures Shl(1, k) >= 0 && Xor(m, g2) == Xor(Modulus(m), Mul(Shl(1, k), a))
  {
    hide Xor, Mul, Shl;
    ModulusFacts(m);
    ShlNat(1, k);
    XorExchange(WORD, m, WORD, g2);
    XorSelf(WORD);
    XorZero(Xor(m, g2));
    MulZero(a);
    MulShl(1, a, k);
  }

  lemma FirstCoprime(M: nat, a: nat, s: nat)
    requires BitCount(a) >= 2 && Coprime(a, M)
    ensures Coprime(Xor(M, Mul(s, a)), a) && Xor(M, Mul(s, a)) > 0
  {
    hide Xor, Mul, PolyCong, BitCount;
    var g0 := Xor(M, Mul(s, a));
    forall d {:trigger PolyDivides(d, g0)} | PolyDivides(d, g0) && PolyDivides(d, a)
      ensures BitCount(d) <= 1
    {
      DivisorOfSum(d, M, a, s);
      assert PolyDivides(d, a);
    }
    if g0 == 0 {
      DivisorOfSelf(a);
      PolyCongRefl(0, a);
      DivisorOfSum(a, M, a, s);
    }
  }

  method MultiplicativeInverse(m: nat, a: nat) returns (inverse: nat)
    requires m < WORD && a < WORD && (a == 0 || Coprime(a, Modulus(m)))
    ensures inverse < WORD
    ensures a == 0 ==> inverse == 0
    ensures a > 0 ==> PolyCong(1, Mul(a, inverse), Modulus(m))
    ensures a > 1 ==> Ends(FirstTurn(m, a))
  {
    hide Xor, BitCount, Shl, Coprime, Mul, PolyCong, Euclid, FirstTurn, Steps;
    if a <= 1 {
      MulZero(a);
      PolyCongRefl(1, Modulus(m));
      return a;
    }
    ghost var M := Modulus(m);
    var g0: nat, v0: nat := FirstReduction(m, a);
    var g1: nat, v1: nat := a, 1;
    EuclidFacts(a, M, g0, g1, v0, v1);
    ghost var steps: nat := 0;
    NoSteps(FirstTurn(m, a));
    while g0 != 1
      invariant Euclid(a, M, g0, g1, v0, v1)
      invariant Steps(FirstTurn(m, a), steps) == Test(g0, g1)
      decreases BitCount(g0) + BitCount(g1)
    {
      EuclidFacts(a, M, g0, g1, v0, v1);
      ComparesDegrees(g0, g1);
      ghost var test := Test(g0, g1);
      if !(g1 < g0 || (Xor(g0, g1) < g0 && Xor(g0, g1) < g1)) {
        EuclidSwap(a, M, g0, g1, v0, v1);
        g0, g1 := g1, g0;
        v0, v1 := v1, v0;
        EuclidFacts(a, M, g0, g1, v0, v1);
      }
      EuclidReduce(a, M, g0, g1, v0, v1);
      var g2, v2 := Align(g0, g1, v1);
      steps := OneTurn(FirstTurn(m, a), steps, test, g0, g1, v1);
      g0 := Xor(g0, g2);
      v0 := Xor(v0, v2);
    }
    EuclidFacts(a, M, g0, g1, v0, v1);
    inverse := v0;
  }

  lemma EuclidFacts(a: nat, M: nat, g0: nat, g1: nat, v0: nat, v1: nat)
    requires Euclid(a, M, g0, g1, v0, v1)
    ensures 0 < g0 < WORD && 0 < g1 < WORD && v0 < WORD && v1 < WORD
    ensures 2 <= BitCount(g1) && BitCount(v1) + BitCount(g0) <= 34
    ensures PolyCong(g0, Mul(a, v0), M)
  {
    WordSize();
    assert g1 > 0;
    hide BitCount;
    BitCountUpper(g0, 32);
    BitCountUpper(g1, 32);
    BitCountUpper(v0, 32);
    BitCountUpper(v1, 32);
  }

  /** Divide: the quotient times the divisor is the dividend again. */
  method Divide(m: nat, a: nat, b: nat) returns (quotient: nat)
    requires m < WORD && a < WORD && 0 < b < WORD && Coprime(b, Modulus(m))
    ensures quotient < WORD && PolyCong(Mul(quotient, b), a, Modulus(m))
  {
    hide Coprime, Mul, PolyCong;
    var inverse := MultiplicativeInverse(m, b);
    quotient := Multiply(m, a, inverse);
    ghost var M := Modulus(m);
    PolyCongMul(b, quotient, Mul(a, inverse), M);
    MulAssoc(a, inverse, b);
    MulComm(inverse, b);
    PolyCongMul(a, 1, Mul(b, inverse), M);
    MulZero(a);
    PolyCongSym(a, Mul(a, Mul(b, inverse)), M);
    PolyCongTrans(Mul(quotient, b), Mul(a, Mul(b, inverse)), a, M);
  }

  /** Multiplying with the inverse gives the word 1. */
  method InverseRoundTrip(m: nat, a: nat) returns (product: nat)
    requires m < WORD && 0 < a < WORD && Coprime(a, Modulus(m))
    ensures product == 1
  {
    hide Coprime, Mul, PolyCong, BitCount;
    var inverse := MultiplicativeInverse(m, a);
    product := Multiply(m, a, inverse);
    PolyCongSym(1, Mul(a, inverse), Modulus(m));
    PolyCongTrans(product, Mul(a, inverse), 1, Modulus(m));
    ModulusFacts(m);
    WordSize();
    BitCountUpper(product, 32);
    BitCountUpper(1, 32);
    PolyCongUnique(product, 1, Modulus(m));
  }

  // ------------------------------------------------------------------
  // For which words the inversion ends

  /** The words that steer the inversion: at the test of its loop, or while g2 is
      shifted. */
  datatype Turn = Test(g0: nat, g1: nat) | Shifting(g0: nat, g1: nat, g2: nat) {
    predicate Finished() { Test? && g0 == 1 }
  }

  function Step(t: Turn): (next: Turn)
  {
    match t
    case Test(g0, g1) =>
      if g0 == 1 then t
      else if g1 < g0 || (Xor(g0, g1) < g0 && Xor(g0, g1) < g1) then Shifting(g0, g1, g1)
      else Shifting(g1, g0, g0)
    case Shifting(g0, g1, g2) =>
      if Xor(g0, g2) >= g2 then Shifting(g0, g1, ShiftLeft(g2)) else Test(Xor(g0, g2), g1)
  }

  function Steps(t: Turn, n: nat): (r: Turn)
    decreases n
  {
    if n == 0 then t else Steps(Step(t), n - 1)
  }

  ghost predicate Ends(t: Turn)
  {
    exists n: nat :: Steps(t, n).Finished()
  }

  /** The word at the first test: the modulus with a shifted to bit 32, which is lost. */
  function FirstTurn(m: nat, a: nat): (t: Turn)
    requires 2 <= a < WORD
  {
    WordSize();
    BitCountUpper(a, 32);
    ShlNat(a, 32 - BitCount(a));
    Test(Xor(m, ShiftLeft(Shl(a, 32 - BitCount(a)))), a)
  }

  lemma FirstTurnSum(m: nat, a: nat)
    requires m < WORD && 2 <= a < WORD
    ensures BitCount(a) <= 32 && Shl(a, 32 - BitCount(a)) >= 0
    ensures var g2 := ShiftLeft(Shl(a, 32 - BitCount(a)));
      FirstTurn(m, a).g0 == Xor(m, g2) && Shl(a, 33 - BitCount(a)) == Xor(WORD, g2)
  {
    hide Xor, BitCount, Shl, Pow2;
    WordSize();
    BitCountUpper(a, 32);
    AtLeastTwo(a);
    var k := 32 - BitCount(a);
    ShlBitCount(a, k);
    BitCountUpper(Shl(a, k), 32);
    TopBitSet(Shl(a, k));
    ShiftLeftCases(Shl(a, k));
    ShlStep(a, k + 1);
  }

  /** A common factor of the words.  Once g2 is zero it stays so. */
  ghost predicate Common(d: nat, t: Turn)
  {
    match t
    case Test(g0, g1) => g0 < WORD && 0 < g1 < WORD && PolyDivides(d, g0) && PolyDivides(d, g1)
    case Shifting(g0, g1, g2) =>
      g2 == 0 ||
      (0 < g0 < WORD && 0 < g1 < WORD && BitCount(g2) <= BitCount(g0)
       && PolyDivides(d, g0) && PolyDivides(d, g1) && PolyDivides(d, g2))
  }

  lemma DividesSum(d: nat, a: nat, b: nat)
    requires PolyDivides(d, a) && PolyDivides(d, b)
    ensures PolyDivides(d, Xor(a, b)) && PolyDivides(d, 2 * a)
  {
    hide Xor, PolyCong, Shl;
    PolyCongXor(a, 0, b, 0, d);
    XorZero(0);
    PolyCongShl(a, 0, 1, d);
    ShlSmall(a);
    ShlSmall(0);
  }

  /** No step gets rid of the common factor, and with it g0 is never 1. */
  lemma CommonStep(d: nat, t: Turn)
    requires BitCount(d) >= 2 && Common(d, t)
    ensures Common(d, Step(t)) && !t.Finished()
  {
    hide Xor, PolyCong, BitCount, Pow2;
    WordSize();
    match t
    case Test(g0, g1) =>
      if g0 == 1 {
        BitCountOne();
        BitCountPositive(0);
        PolyCongUnique(1, 0, d);
      } else if g0 > 0 {
        ComparesDegrees(g0, g1);
      }
    case Shifting(g0, g1, g2) =>
      if g2 == 0 {
        XorZero(g0);
      } else {
        ComparesDegrees(g0, g2);
        DividesSum(d, g2, g2);
        DividesSum(d, g0, g2);
        BitCountUpper(g0, 32);
        BitCountUpper(g2, 31);
        BitCountUpper(g2, 32);
        XorBound(g0, g2, 32);
        DoubledBitCount(g2);
      }
  }

  lemma DoubledBitCount(g: nat)
    requires g > 0
    ensures BitCount(2 * g) == BitCount(g) + 1
  {
  }

  lemma {:induction false} CommonSteps(d: nat, t: Turn, n: nat)
    requires BitCount(d) >= 2 && Common(d, t)
    ensures !Steps(t, n).Finished()
    decreases n
  {
    hide Step, Common, BitCount;
    CommonStep(d, t);
    if n > 0 { CommonSteps(d, Step(t), n - 1); }
  }

  lemma {:induction false} StepsAdd(t: Turn, i: nat, n: nat)
    ensures Steps(t, i + n) == Steps(Steps(t, i), n)
    decreases i
  {
    hide Step;
    if i > 0 { StepsAdd(Step(t), i - 1, n); }
  }

  /** The shifting loop from its i-th turn to its end. */
  lemma {:induction false} ShiftSteps(g0: nat, g1: nat, v1: nat, i: nat, j: nat)
    requires 0 < g0 < WORD && g1 > 0 && 2 <= BitCount(g1) && BitCount(g1) + j == BitCount(g0) && i <= j
    requires BitCount(v1) + BitCount(g0) <= 34
    ensures Shl(g1, i) >= 0 && Shl(g1, j) >= 0
    ensures Steps(Shifting(g0, g1, Shl(g1, i)), j - i + 1) == Test(Xor(g0, Shl(g1, j)), g1)
    decreases j - i
  {
    hide Xor, BitCount, Shl, ShiftLeft;
    ShlBitCount(g1, i);
    ComparesDegrees(g0, Shl(g1, i));
    var t := Shifting(g0, g1, Shl(g1, i));
    assert Steps(t, j - i + 1) == Steps(Step(t), j - i);
    if i < j {
      NoOverflow(g0, g1, v1, i);
      ShiftSteps(g0, g1, v1, i + 1, j);
    }
  }

  /** One turn of the outer loop. */
  lemma OneTurn(first: Turn, n: nat, test: Turn, g0: nat, g1: nat, v1: nat) returns (later: nat)
    requires Steps(first, n) == test && Step(test) == Shifting(g0, g1, g1)
    requires 0 < g0 < WORD && g1 > 0 && 2 <= BitCount(g1) <= BitCount(g0) && BitCount(v1) + BitCount(g0) <= 34
    ensures Shl(g1, BitCount(g0) - BitCount(g1)) >= 0
    ensures Steps(first, later) == Test(Xor(g0, Shl(g1, BitCount(g0) - BitCount(g1))), g1)
  {
    hide Xor, BitCount, Shl, Steps, Step;
    var j := BitCount(g0) - BitCount(g1);
    ShlSmall(g1);
    ShiftSteps(g0, g1, v1, 0, j);
    FirstStep(test, j + 1);
    StepsAdd(first, n, j + 2);
    later := n + (j + 2);
  }

  /** From the invariant of the inversion on, the loop ends. */
  lemma {:induction false} EuclidEnds(a: nat, M: nat, g0: nat, g1: nat, v0: nat, v1: nat) returns (n: nat)
    requires Euclid(a, M, g0, g1, v0, v1)
    ensures Steps(Test(g0, g1), n).Finished()
    decreases BitCount(g0) + BitCount(g1)
  {
    hide Xor, BitCount, Shl, Euclid, Steps;
    EuclidFacts(a, M, g0, g1, v0, v1);
    ComparesDegrees(g0, g1);
    if g0 == 1 {
      assert Steps(Test(g0, g1), 0) == Test(g0, g1) by { NoSteps(Test(g0, g1)); }
      return 0;
    }
    if g1 < g0 || (Xor(g0, g1) < g0 && Xor(g0, g1) < g1) {
      n := TurnEnds(a, M, g0, g1, v0, v1);
    } else {
      EuclidSwap(a, M, g0, g1, v0, v1);
      n := TurnEnds(a, M, g1, g0, v1, v0);
    }
    FirstStep(Test(g0, g1), n);
    n := n + 1;
  }

  lemma {:induction false} TurnEnds(a: nat, M: nat, g0: nat, g1: nat, v0: nat, v1: nat) returns (n: nat)
    requires Euclid(a, M, g0, g1, v0, v1) && BitCount(g1) <= BitCount(g0)
    ensures Steps(Shifting(g0, g1, g1), n).Finished()
    decreases BitCount(g0) + BitCount(g1), 0
  {
    hide Xor, BitCount, Shl, Euclid, Steps;
    var j := BitCount(g0) - BitCount(g1);
    EuclidFacts(a, M, g0, g1, v0, v1);
    EuclidReduce(a, M, g0, g1, v0, v1);
    ShlSmall(g1);
    ShiftSteps(g0, g1, v1, 0, j);
    n := EuclidEnds(a, M, Xor(g0, Shl(g1, j)), g1, Xor(v0, Shl(v1, j)), v1);
    StepsAdd(Shifting(g0, g1, g1), j + 1, n);
    n := j + 1 + n;
  }

  lemma NoSteps(t: Turn)
    ensures Steps(t, 0) == t
  {
  }

  lemma FirstStep(t: Turn, n: nat)
    ensures Steps(t, n + 1) == Steps(Step(t), n)
  {
  }

  /** The inversion of a word ends exactly if the word is coprime to the modulus. */
  lemma InversionEnds(m: nat, a: nat)
    requires m < WORD && 2 <= a < WORD
    ensures Ends(FirstTurn(m, a)) <==> Coprime(a, Modulus(m))
  {
    hide Xor, BitCount, Shl, PolyCong, Mul, Steps, Modulus;
    var M, k := Modulus(m), 33 - BitCount(a);
    FirstTurnSum(m, a);
    AtLeastTwo(a);
    var g0 := FirstTurn(m, a).g0;
    var g2 := ShiftLeft(Shl(a, 32 - BitCount(a)));
    if Coprime(a, M) {
      FirstInvariant(m, a, k, g2);
      var n := EuclidEnds(a, M, g0, a, Shl(1, k), 1);
      assert Steps(FirstTurn(m, a), n).Finished();
    } else {
      var d :| PolyDivides(d, a) && PolyDivides(d, M) && BitCount(d) > 1;
      FirstCommon(m, a, k, g2, d);
      forall n: nat
        ensures !Steps(FirstTurn(m, a), n).Finished()
      {
        CommonSteps(d, FirstTurn(m, a), n);
      }
    }
  }

  /** With the modulus word 0 the modulus is x^32, and the inversion of x never ends. */
  lemma InversionFails()
    ensures !Ends(FirstTurn(0, 2))
  {
    hide Mul, PolyCong, Ends;
    InversionEnds(0, 2);
    var half := 0x8000_0000;
    FactorDivides(2, 1);
    FactorDivides(2, half);
    MulZero(2);
    MulDouble(1, half);
    MulZero(half);
    MulComm(2, half);
    assert Modulus(0) == 2 * half == Mul(2, half);
    assert Mul(2, 1) == 2;
    assert PolyDivides(2, 2) && PolyDivides(2, Modulus(0)) && BitCount(2) == 2 by { TwoBits(); }
  }

  lemma TwoBits()
    ensures BitCount(2) == 2
  {
    assert BitCount(2) == 1 + BitCount(1);
  }

  lemma FactorDivides(d: nat, q: nat)
    ensures PolyDivides(d, Mul(d, q))
  {
    hide Mul, PolyCong;
    MulComm(d, q);
    XorZero(Mul(d, q));
    PolyCongBy(Mul(d, q), 0, q, d);
  }

  lemma FirstCommon(m: nat, a: nat, k: nat, g2: nat, d: nat)
    requires m < WORD && 0 < a < WORD && g2 < WORD && Shl(a, k) == Xor(WORD, g2)
    requires PolyDivides(d, a) && PolyDivides(d, Modulus(m))
    ensures Common(d, Test(Xor(m, g2), a))
  {
    hide Xor, Shl, PolyCong, Mul, Modulus, Pow2;
    WordSize();
    FirstSum(m, a, k, g2);
    XorBound(m, g2, 32);
    var s := Shl(1, k);
    PolyCongMul(s, a, 0, d);
    MulZero(s);
    DividesSum(d, Modulus(m), Mul(s, a));
  }
}

/** PolynomialMod2 of gf2n.cpp: long division, multiplication, squaring through a
    table of spread nibbles, and the one-bit shift over words. */
module PolynomialMod2s {
  import opened Bits
  import opened BinaryPolynomials

  datatype Division = DivideByZero | Division(remainder: nat, quotient: nat)

  /** Divide: one bit of the dividend after the other, highest first. */
  method Divide(dividend: nat, divisor: nat) returns (result: Division)
    ensures result.DivideByZero? <==> divisor == 0
    ensures result.Division? ==>
      && dividend == Xor(Mul(result.quotient, divisor), result.remainder)
      && BitCount(result.remainder) < BitCount(divisor)
      && result.remainder == Rem(dividend, divisor)
  {
    hide Xor, Mul, Shl, Shr, BitCount, Rem, Bit;
    if divisor == 0 {
      return DivideByZero;
    }
    BitCountPositive(divisor);
    var degree := BitCount(divisor) - 1;
    var remainder: nat, quotient: nat := 0, 0;
    var i: nat := BitCount(dividend);
    ghost var q: nat := 0;
    NothingRead(dividend, divisor);
    while i > 0
      invariant i <= BitCount(dividend)
      invariant BitCount(remainder) <= degree
      invariant quotient == Shl(q, i) && Shr(dividend, i) == Xor(Mul(q, divisor), remainder)
      decreases i
    {
      i := i - 1;
      var bit := Bit(dividend, i);
      DivisionStep(dividend, divisor, i, q, remainder, bit);
      remainder := 2 * remainder + bit;
      TopCoefficient(remainder, degree);
      if Bit(remainder, degree) == 1 {
        TakeOutDivisor(divisor, q, remainder);
        remainder := Xor(remainder, divisor);
        SetQuotientBit(q, i);
        quotient := quotient + Shl(1, i);
        q := 2 * q + 1;
      } else {
        KeepQuotient(q, i);
        q := 2 * q;
      }
    }
    WholeShift(dividend, q);
    IsRemainder(dividend, divisor, quotient, remainder);
    result := Division(remainder, quotient);
  }

  lemma NothingRead(dividend: nat, divisor: nat)
    ensures Shl(0, BitCount(dividend)) == 0 && Shr(dividend, BitCount(dividend)) == 0
    ensures Mul(0, divisor) == 0 && Xor(0, 0) == 0 && BitCount(0) == 0
  {
    ShlZero(BitCount(dividend));
    BitCountBound(dividend);
    ShrSmall(dividend, BitCount(dividend));
    MulZero(divisor);
  }

  lemma WholeShift(dividend: nat, q: nat)
    ensures Shl(q, 0) == q && Shr(dividend, 0) == dividend
  {
  }

  lemma DivisionStep(dividend: nat, divisor: nat, i: nat, q: nat, remainder: nat, bit: nat)
    requires Shr(dividend, i + 1) == Xor(Mul(q, divisor), remainder) && bit == Bit(dividend, i)
    ensures Shr(dividend, i) == Xor(Mul(2 * q, divisor), 2 * remainder + bit)
  {
    ShiftStep(dividend, i);
    MulDouble(q, divisor);
    AppendBit(Mul(q, divisor), remainder, bit);
  }

  lemma AppendBit(a: nat, b: nat, bit: nat)
    requires bit < 2
    ensures Xor(2 * a, 2 * b + bit) == 2 * Xor(a, b) + bit
  {
    hide Xor;
    XorHalves(2 * a, 2 * b + bit);
    FromHalves(Xor(2 * a, 2 * b + bit), 2 * Xor(a, b) + bit);
  }

  /** After the shift the remainder has at most degree + 1 bits, and GetBit(degree)
      tells whether it has all of them. */
  lemma TopCoefficient(r: nat, degree: nat)
    requires BitCount(r / 2) <= degree
    ensures BitCount(r) <= degree + 1
    ensures Bit(r, degree) == 1 <==> BitCount(r) == degree + 1
  {
    BitCountUpper(r, degree + 1);
    BitCountUpper(r, degree);
    ShrSmall(r, degree + 1);
    ShrSmall(r, degree);
    ShiftStep(r, degree);
  }

  lemma TakeOutDivisor(divisor: nat, q: nat, r: nat)
    requires BitCount(r) == BitCount(divisor) > 0
    ensures BitCount(Xor(r, divisor)) < BitCount(divisor)
    ensures Xor(Mul(2 * q, divisor), r) == Xor(Mul(2 * q + 1, divisor), Xor(r, divisor))
  {
    hide Xor, Mul;
    XorBitCount(r, divisor);
    AppendBit(q, 0, 1);
    XorZero(q);
    MulDistribLeft(2 * q, 1, divisor);
    MulZero(divisor);
    XorExchange(Mul(2 * q, divisor), divisor, r, divisor);
    XorSelf(divisor);
    XorZero(Xor(Mul(2 * q, divisor), r));
  }

  lemma SetQuotientBit(q: nat, i: nat)
    ensures Shl(q, i + 1) + Shl(1, i) == Shl(2 * q + 1, i)
  {
    KeepQuotient(q, i);
    ShlAdd(2 * q, 1, i);
  }

  lemma KeepQuotient(q: nat, i: nat)
    ensures Shl(q, i + 1) == Shl(2 * q, i)
  {
    ShlShl(q, 1, i);
    assert Shl(q, 1) == 2 * q;
  }

  lemma IsRemainder(dividend: nat, divisor: nat, q: nat, r: nat)
    requires divisor > 0 && dividend == Xor(Mul(q, divisor), r) && BitCount(r) < BitCount(divisor)
    ensures r == Rem(dividend, divisor)
  {
    XorCancel(Mul(q, divisor), r);
    PolyCongBy(dividend, r, q, divisor);
    RemUnique(dividend, r, divisor);
  }

  /** Times: Horner's rule over the bits of b. */
  method Times(a: nat, b: nat) returns (result: nat)
    ensures result == Mul(a, b)
  {
    hide Xor, Mul, Shr, BitCount, Bit;
    result := 0;
    var i: nat := BitCount(b);
    NothingRead(b, a);
    MulZero(a);
    while i > 0
      invariant i <= BitCount(b) && result == Mul(a, Shr(b, i))
    {
      i := i - 1;
      ShiftStep(b, i);
      MulStep(a, Shr(b, i));
      XorComm(2 * result, a);
      XorZero(2 * result);
      result := 2 * result;
      if Bit(b, i) == 1 {
        result := Xor(result, a);
      }
    }
    WholeShift(b, 0);
  }

  // ------------------------------------------------------------------
  // Words

  const WORD_BITS: nat := 64

  ghost predicate Words(ws: seq<nat>)
  {
    forall i :: 0 <= i < |ws| ==> ws[i] < Pow2(WORD_BITS)
  }

  /** The polynomial held in a block of words, lowest word first. */
  function Value(ws: seq<nat>): (v: nat)
  {
    if |ws| == 0 then 0 else Shl(Value(ws[1..]), WORD_BITS) + ws[0]
  }

  /** operator<<= for one bit: the carry runs through the words and may need a new
      word at the top. */
  method ShiftLeftOne(regIn: seq<nat>) returns (reg: seq<nat>)
    requires Words(regIn)
    ensures Words(reg) && Value(reg) == 2 * Value(regIn)
  {
    hide Pow2, Shl, Value;
    reg := regIn;
    var carry: nat := 0;
    var r: nat := 0;
    ValueEmpty();
    assert reg[..0] == [] && regIn[..0] == [];
    while r < |reg|
      invariant r <= |reg| == |regIn| && carry < 2 && Words(reg[..r])
      invariant reg[r..] == regIn[r..]
      invariant Value(reg[..r]) + Shl(carry, WORD_BITS * r) == 2 * Value(regIn[..r])
    {
      var u := regIn[r];
      ShiftedWord(u, carry);
      ghost var before := reg[..r];
      var word := Low(2 * u, WORD_BITS) + carry;
      AppendWord(before, word);
      AppendWord(regIn[..r], u);
      CarryStep(u, carry, r);
      reg := reg[r := word];
      carry := Shr(u, WORD_BITS - 1);
      assert reg[..r + 1] == before + [word] && regIn[..r + 1] == regIn[..r] + [u];
      r := r + 1;
    }
    assert reg[..r] == reg && regIn[..r] == regIn;
    if carry != 0 {
      AppendWord(reg, carry);
      SmallWord();
      reg := reg + [carry];
    } else {
      ShlZero(WORD_BITS * r);
    }
  }

  lemma ValueEmpty()
    ensures Value([]) == 0 && Shl(0, 0) == 0 && WORD_BITS * 0 == 0
  {
  }

  lemma SmallWord()
    ensures 2 < Pow2(WORD_BITS)
  {
    assert Pow2(WORD_BITS) == 2 * Pow2(63) == 4 * Pow2(62);
  }

  lemma {:induction false} AppendWord(ws: seq<nat>, w: nat)
    ensures Value(ws + [w]) == Value(ws) + Shl(w, WORD_BITS * |ws|)
  {
    if |ws| == 0 {
      assert Value([w]) == Shl(Value([]), WORD_BITS) + w;
      ShlZero(WORD_BITS);
    } else {
      assert (ws + [w])[1..] == ws[1..] + [w];
      AppendWord(ws[1..], w);
      ShlAdd(Value(ws[1..]), Shl(w, WORD_BITS * |ws[1..]|), WORD_BITS);
      ShlShl(w, WORD_BITS * |ws[1..]|, WORD_BITS);
    }
  }

  /** Twice a word is its shifted low part plus the bit that leaves it. */
  lemma ShiftedWord(u: nat, carry: nat)
    requires u < Pow2(WORD_BITS) && carry < 2
    ensures Shr(u, WORD_BITS - 1) < 2
    ensures 2 * u == Shl(Shr(u, WORD_BITS - 1), WORD_BITS) + Low(2 * u, WORD_BITS)
    ensures Low(2 * u, WORD_BITS) + carry < Pow2(WORD_BITS)
  {
    hide Shl, Shr, Low;
    assert Shr(2 * u, WORD_BITS) == Shr(u, WORD_BITS - 1) && Low(2 * u, WORD_BITS) == 2 * Low(u, WORD_BITS - 1) by {
      DoubleShift(u);
    }
    SplitLow(2 * u, WORD_BITS);
    assert Pow2(WORD_BITS) == 2 * Pow2(WORD_BITS - 1);
    ShrSmall(u, WORD_BITS);
    ShiftStep(u, WORD_BITS - 1);
  }

  lemma DoubleShift(u: nat)
    ensures Shr(2 * u, WORD_BITS) == Shr(u, WORD_BITS - 1) && Low(2 * u, WORD_BITS) == 2 * Low(u, WORD_BITS - 1)
  {
    assert (2 * u) / 2 == u && (2 * u) % 2 == 0;
  }

  lemma CarryStep(u: nat, carry: nat, r: nat)
    requires 2 * u == Shl(Shr(u, WORD_BITS - 1), WORD_BITS) + Low(2 * u, WORD_BITS)
    ensures Shl(Low(2 * u, WORD_BITS) + carry, WORD_BITS * r) + Shl(Shr(u, WORD_BITS - 1), WORD_BITS * (r + 1))
         == 2 * Shl(u, WORD_BITS * r) + Shl(carry, WORD_BITS * r)
  {
    hide Shl, Shr, Low;
    var k, c := WORD_BITS * r, Shr(u, WORD_BITS - 1);
    ShlShl(c, WORD_BITS, k);
    ShlAdd(Low(2 * u, WORD_BITS), carry, k);
    ShlAdd(Shl(c, WORD_BITS), Low(2 * u, WORD_BITS), k);
    ShlAdd(u, u, k);
  }

  // ------------------------------------------------------------------
  // Squaring

  /** The bits of a moved to the even positions. */
  ghost function Spread(a: nat): (r: nat)
  {
    if a == 0 then 0 else a % 2 + 4 * Spread(a / 2)
  }

  /** Over GF(2) the square only spreads the coefficients. */
  lemma {:induction false} SquareIsSpread(a: nat)
    ensures Mul(a, a) == Spread(a)
  {
    if a > 0 {
      SquareIsSpread(a / 2);
      SquareStep(a);
      SpreadStep(a);
    } else {
      MulZero(0);
    }
  }

  lemma SquareStep(a: nat)
    ensures Mul(a, a) == a % 2 + 4 * Mul(a / 2, a / 2)
  {
    hide Xor, Mul;
    var h, b, m := a / 2, a % 2, Mul(a / 2, a / 2);
    MulStep(a, a);
    LowBitApart(a);
    MulDistribLeft(b, 2 * h, h);
    MulDouble(h, h);
    MulZero(h);
    XorZero(2 * m);
    XorZero(4 * m);
    if b == 1 {
      SquareOdd(a, h, m);
    }
  }

  /** a + 2 (h + 2 m) == (1 + 2 h) + (2 h + 4 m) == 1 + 4 m */
  lemma SquareOdd(a: nat, h: nat, m: nat)
    requires a == Xor(1, 2 * h)
    ensures Xor(a, 2 * Xor(h, 2 * m)) == 1 + 4 * m
  {
    hide Xor;
    XorDouble(h, 2 * m);
    XorAssoc(1, 2 * h, Xor(2 * h, 4 * m));
    XorCancel(4 * m, 2 * h);
    LowBitApart(1 + 4 * m);
  }

  lemma LowBitApart(a: nat)
    ensures a == Xor(a % 2, 2 * (a / 2))
  {
    hide Xor;
    XorHalves(a % 2, 2 * (a / 2));
    XorZero(a / 2);
    FromHalves(a, Xor(a % 2, 2 * (a / 2)));
  }

  lemma {:induction false} SpreadSplit(hi: nat, lo: nat, k: nat)
    requires lo < Pow2(k)
    ensures Shl(hi, k) + lo >= 0
    ensures Spread(Shl(hi, k) + lo) == Shl(Spread(hi), 2 * k) + Spread(lo)
  {
    hide Spread, Shl;
    if k > 0 {
      hide Pow2;
      var h, s := Shl(hi, k - 1), Shl(Spread(hi), 2 * k - 2);
      var n := 2 * h + lo;
      ShlStep(hi, k);
      ShlStep(Spread(hi), 2 * k);
      ShlStep(Spread(hi), 2 * k - 1);
      Pow2Step(k);
      assert n / 2 == h + lo / 2 && n % 2 == lo % 2;
      SpreadSplit(hi, lo / 2, k - 1);
      SpreadStep(n);
      SpreadStep(lo);
      assert Spread(n) == lo % 2 + 4 * (s + Spread(lo / 2));
    } else {
      ShlSmall(hi);
      ShlSmall(Spread(hi));
      assert lo == 0;
      SpreadZero();
    }
  }

  lemma {:induction false} SpreadBound(n: nat, k: nat)
    requires n < Pow2(k)
    ensures Spread(n) < Pow2(2 * k)
  {
    hide Spread;
    if k > 0 {
      hide Pow2;
      Pow2Step(k);
      SpreadBound(n / 2, k - 1);
      SpreadStep(n);
      Pow2Step(2 * k);
      Pow2Step(2 * k - 1);
    } else {
      SpreadZero();
    }
  }

  lemma SpreadStep(n: nat)
    ensures Spread(n) == n % 2 + 4 * Spread(n / 2)
  {
  }

  const SQUARE_MAP: seq<nat> := [0, 1, 4, 5, 16, 17, 20, 21, 64, 65, 68, 69, 80, 81, 84, 85]

  lemma MapStep(n: nat)
    requires 0 < n < 16
    ensures SQUARE_MAP[n] == n % 2 + 4 * SQUARE_MAP[n / 2]
  {
  }

  lemma {:induction false} MapIsSpread(n: nat)
    requires n < 16
    ensures SQUARE_MAP[n] == Spread(n)
  {
    hide Spread;
    if n == 0 {
      SpreadZero();
    } else {
      MapIsSpread(n / 2);
      MapStep(n);
      SpreadStep(n);
    }
  }

  /** One result word: the low `nibbles` nibbles of u looked up in the map.  The or
      of the source meets only zero bits, so it is a sum. */
  method SpreadWord(u: nat, nibbles: nat) returns (word: nat)
    requires u < Pow2(4 * nibbles)
    ensures word == Spread(u) && word < Pow2(8 * nibbles)
  {
    hide Pow2, Shl, Shr, Low, Spread;
    word := 0;
    NoNibbles(u);
    for j := 0 to nibbles
      invariant word == Spread(Low(u, 4 * j)) && word < Pow2(8 * j)
    {
      var nibble := Shr(u, 4 * j) % 16;
      NibbleStep(u, j);
      word := word + Shl(SQUARE_MAP[nibble], 8 * j);
    }
    ShrSmall(u, 4 * nibbles);
    SplitLow(u, 4 * nibbles);
    ShlZero(4 * nibbles);
  }

  lemma NoNibbles(u: nat)
    ensures Spread(Low(u, 4 * 0)) == 0 && 4 * 0 == 0 && 8 * 0 == 0
  {
  }

  lemma NibbleStep(u: nat, j: nat)
    ensures Shr(u, 4 * j) % 16 < 16
    ensures Spread(Low(u, 4 * (j + 1))) == Spread(Low(u, 4 * j)) + Shl(SQUARE_MAP[Shr(u, 4 * j) % 16], 8 * j)
    ensures Spread(Low(u, 4 * (j + 1))) < Pow2(8 * (j + 1))
  {
    hide Pow2, Shl, Shr, Low, Spread;
    var nibble := Shr(u, 4 * j) % 16;
    LowExtend(u, 4 * j);
    MapIsSpread(nibble);
    SpreadSplit(nibble, Low(u, 4 * j), 4 * j);
    SpreadBound(Low(u, 4 * (j + 1)), 4 * (j + 1));
  }

  lemma LowExtend(u: nat, k: nat)
    ensures Low(u, k + 4) == Shl(Shr(u, k) % 16, k) + Low(u, k)
  {
    hide Shl, Shr, Low, Pow2;
    var h := Shr(u, k);
    SplitLow(u, k);
    ShrShr(u, k, 4);
    assert Shr(h, 4) == h / 16 by { FourShifts(h); }
    var q, r := h / 16, h % 16;
    assert h == 16 * q + r;
    ShlAdd(16 * q, r, k);
    ShlShl(q, 4, k);
    assert Shl(q, 4) == 16 * q by { FourShifts(q); }
    NibbleFits(u, k, r);
    SplitUnique(q, Shl(r, k) + Low(u, k), k + 4);
  }

  lemma FourShifts(h: nat)
    ensures Shr(h, 4) == h / 16 && Shl(h, 4) == 16 * h
  {
    assert Shr(h, 4) == Shr(h / 2, 3) == Shr(h / 2 / 2, 2) == Shr(h / 2 / 2 / 2, 1) == Shr(h / 2 / 2 / 2 / 2, 0);
    assert Shl(h, 4) == 2 * Shl(h, 3) == 4 * Shl(h, 2) == 8 * Shl(h, 1) == 16 * Shl(h, 0);
  }

  lemma NibbleFits(u: nat, k: nat, r: nat)
    requires r < 16
    ensures 0 <= Shl(r, k) + Low(u, k) < Pow2(k + 4)
  {
    ShlMonotone(r, 15, k);
    ShlMonotone(0, r, k);
    ShlZero(k);
    ShlOne(k);
    ShlAdd(15, 1, k);
    ShlShl(1, 4, k);
    assert Shl(1, 4) == 16;
    ShlOne(k + 4);
  }

  /** Squared: every word gives two. */
  method Squared(reg: seq<nat>) returns (result: seq<nat>)
    requires Words(reg)
    ensures Words(result) && |result| == 2 * |reg| && Value(result) == Mul(Value(reg), Value(reg))
  {
    hide Pow2, Shl, Shr, Low, Spread, Value, Mul;
    result := [];
    ValueEmpty();
    SpreadZero();
    assert reg[..0] == [];
    for i := 0 to |reg|
      invariant Words(result) && |result| == 2 * i
      invariant Value(result) == Spread(Value(reg[..i])) && Value(reg[..i]) < Pow2(WORD_BITS * i)
    {
      var u := reg[i];
      HalfWords(u);
      var lo := SpreadWord(Low(u, 32), 8);
      var hi := SpreadWord(Shr(u, 32), 8);
      AppendWord(result, lo);
      AppendWord(result + [lo], hi);
      assert result + [lo] + [hi] == result + [lo, hi];
      AppendWord(reg[..i], u);
      assert reg[..i + 1] == reg[..i] + [u];
      TwoWords(Value(reg[..i]), u, i);
      result := result + [lo, hi];
    }
    assert reg[..|reg|] == reg;
    SquareIsSpread(Value(reg));
  }

  lemma SpreadZero()
    ensures Spread(0) == 0 && Pow2(0) == 1
  {
  }

  lemma HalfWords(u: nat)
    requires u < Pow2(WORD_BITS)
    ensures Low(u, 32) < Pow2(4 * 8) && Shr(u, 32) < Pow2(4 * 8)
  {
    hide Pow2, Shr;
    ShrShr(u, 32, 32);
    ShrSmall(u, 64);
    ShrSmall(Shr(u, 32), 32);
  }

  lemma TwoWords(below: nat, u: nat, i: nat)
    requires u < Pow2(WORD_BITS) && below < Pow2(WORD_BITS * i)
    ensures Spread(below + Shl(u, WORD_BITS * i))
         == Spread(below) + Shl(Spread(Low(u, 32)), WORD_BITS * (2 * i)) + Shl(Spread(Shr(u, 32)), WORD_BITS * (2 * i + 1))
    ensures 0 <= below + Shl(u, WORD_BITS * i) < Pow2(WORD_BITS * (i + 1))
  {
    hide Pow2, Shl, Shr, Low, Spread;
    var k := WORD_BITS * i;
    SpreadSplit(u, below, k);
    SplitLow(u, 32);
    SpreadSplit(Shr(u, 32), Low(u, 32), 32);
    ShlAdd(Shl(Spread(Shr(u, 32)), 64), Spread(Low(u, 32)), 2 * k);
    ShlShl(Spread(Shr(u, 32)), 64, 2 * k);
    ShlMonotone(u + 1, Pow2(WORD_BITS), k);
    ShlAdd(u, 1, k);
    ShlOne(k);
    ShlOne(WORD_BITS);
    ShlShl(1, WORD_BITS, k);
    ShlOne(WORD_BITS + k);
  }
}

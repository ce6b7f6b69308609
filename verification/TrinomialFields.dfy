/** GF2NT of gf2n.cpp: multiplication in GF(2)[x] / (x^t0 + x^t1 + 1), and the
    word-level reduction that folds the words above t0 back by two shifted copies. */
module TrinomialFields {
  import opened Bits
  import opened BinaryPolynomials
  import opened PolynomialMod2s
  import opened WordBlocks

  /** x^t0 + x^t1 + 1 */
  function Trinomial(t0: nat, t1: nat): (m: nat)
    ensures m > 0
  {
    Pow2(t0) + Pow2(t1) + 1
  }

  /** The field object: the exponents and the words of the modulus. */
  datatype GF2NT = GF2NT(t0: nat, t1: nat, modulus: seq<nat>) {
    ghost predicate Valid()
    {
      && t0 > t1 > 0
      && Words(modulus) && |modulus| == BitsToWords(t0 + 1)
      && Value(modulus) == Trinomial(t0, t1)
    }
  }

  lemma PowBitCount(k: nat)
    ensures BitCount(Pow2(k)) == k + 1
  {
    hide Pow2, Shl, BitCount;
    ShlBitCount(1, k);
    ShlOne(k);
    assert BitCount(1) == 1 by { BitCountOne(); }
  }

  lemma TrinomialSum(t0: nat, t1: nat)
    requires t0 > t1 > 0
    ensures Trinomial(t0, t1) == Xor(Xor(Pow2(t0), Pow2(t1)), 1)
    ensures Trinomial(t0, t1) == Xor(Pow2(t0), Pow2(t1) + 1) && Pow2(t1) + 1 < Pow2(t0)
  {
    hide Shl, Xor;
    Pow2Monotone(t1, t0);
    ShlOne(t0);
    XorDisjoint(1, Pow2(t1), t0);
    var h := Pow2(t0 - 1) + Pow2(t1 - 1);
    ShlSmall(h);
    Pow2Step(1);
    XorDisjoint(h, 1, 1);
    assert Pow2(t1) % 2 == 0 && Pow2(t0) % 2 == 0;
    XorDisjoint(1, Pow2(t1) + 1, t0);
  }

  lemma TrinomialDegree(t0: nat, t1: nat)
    requires t0 > t1 > 0
    ensures BitCount(Trinomial(t0, t1)) == t0 + 1
  {
    hide Pow2, BitCount, Xor;
    TrinomialSum(t0, t1);
    PowBitCount(t0);
    PowBitCount(t1);
    BitCountOne();
    XorBitCount(Pow2(t0), Pow2(t1));
    XorBitCount(Xor(Pow2(t0), Pow2(t1)), 1);
    BitCountPositive(Trinomial(t0, t1));
  }

  // ------------------------------------------------------------------
  // Folding

  /** x^t0 is x^t1 + 1 modulo the trinomial, at every place. */
  lemma Fold(h: nat, k: nat, t0: nat, t1: nat)
    requires t0 > t1 > 0
    ensures Shl(h, k + t0) >= 0 && Shl(h, k + t1) >= 0 && Shl(h, k) >= 0
    ensures PolyCong(Shl(h, k + t0), Xor(Shl(h, k), Shl(h, k + t1)), Trinomial(t0, t1))
  {
    hide Pow2, Shl, Xor, Mul, PolyCong;
    TrinomialSum(t0, t1);
    ShlNat(h, k + t0);
    ShlNat(h, k + t1);
    ShlNat(h, k);
    var at: nat := Shl(h, k);
    TimesPower(h, k, t0);
    TimesPower(h, k, t1);
    MulZero(at);
    MulDistrib(at, Pow2(t0), Pow2(t1));
    MulDistrib(at, Xor(Pow2(t0), Pow2(t1)), 1);
    var top, mid: nat := Shl(h, k + t0), Shl(h, k + t1);
    XorAssoc(top, mid, at);
    XorComm(mid, at);
    PolyCongBy(top, Xor(at, mid), at, Trinomial(t0, t1));
  }

  lemma TimesPower(h: nat, k: nat, t: nat)
    ensures Shl(h, k) >= 0 && Shl(h, k + t) >= 0
    ensures Mul(Shl(h, k), Pow2(t)) == Shl(h, k + t)
  {
    hide Pow2, Shl, Mul;
    ShlNat(h, k);
    ShlNat(h, k + t);
    MulShl(Shl(h, k), 1, t);
    ShlOne(t);
    MulZero(Shl(h, k));
    ShlShl(h, k, t);
  }

  /** Two parts of a word pushed s places down across a word boundary. */
  lemma SplitDown(temp: nat, s: nat, j: nat)
    requires 0 < s < WORD_BITS && temp < Pow2(WORD_BITS) && j > 0
    ensures Shr(temp, s) < Pow2(WORD_BITS) && Low(Shl(temp, WORD_BITS - s), WORD_BITS) < Pow2(WORD_BITS)
    ensures Shl(Shr(temp, s), WORD_BITS * j) >= 0 && Shl(Low(Shl(temp, WORD_BITS - s), WORD_BITS), WORD_BITS * (j - 1)) >= 0
    ensures Xor(Shl(Shr(temp, s), WORD_BITS * j), Shl(Low(Shl(temp, WORD_BITS - s), WORD_BITS), WORD_BITS * (j - 1)))
         == Shl(temp, WORD_BITS * j - s)
  {
    hide Pow2, Shl, Shr, Low, Xor;
    var up: nat := WORD_BITS - s;
    var hi := Shr(temp, s);
    ShlNat(temp, up);
    var w: nat := Shl(temp, up);
    var lo := Low(w, WORD_BITS);
    assert Shr(w, WORD_BITS) == hi by {
      ShrShr(w, up, s);
      ShlRoundTrip(temp, up);
    }
    SplitLow(w, WORD_BITS);
    XorDisjoint(hi, lo, WORD_BITS);
    var at: nat := WORD_BITS * (j - 1);
    ShlNat(hi, WORD_BITS);
    XorShl(Shl(hi, WORD_BITS), lo, at);
    ShlShl(hi, WORD_BITS, at);
    ShlShl(temp, up, at);
    ShlNat(lo, at);
    ShlNat(hi, WORD_BITS * j);
  }

  lemma ShlRoundTrip(n: nat, k: nat)
    ensures Shl(n, k) >= 0 && Shr(Shl(n, k), k) == n && Low(Shl(n, k), k) == 0
  {
    hide Shl, Shr, Low;
    ShlNat(n, k);
    SplitUnique(n, 0, k);
  }

  /** Adds word i, shifted down by t places, to the words below it. */
  method AddShifted(b: array<nat>, i: nat, temp: nat, t: nat)
    requires i < b.Length && Words(b[..]) && temp < Pow2(WORD_BITS)
    requires t >= WORD_BITS && t <= WORD_BITS * i
    modifies b
    ensures Words(b[..]) && b[i..] == old(b[i..])
    ensures Shl(temp, WORD_BITS * i - t) >= 0
    ensures Value(b[..i]) == Xor(old(Value(b[..i])), Shl(temp, WORD_BITS * i - t))
  {
    hide Pow2, Shl, Shr, Low, Xor, Value;
    var j: nat := i - t / WORD_BITS;
    var s := t % WORD_BITS;
    ghost var before := b[..];
    ghost var below := before[..i];
    assert WORD_BITS * i - t == WORD_BITS * j - s;
    ShlNat(temp, WORD_BITS * j - s);
    if s != 0 {
      SplitDown(temp, s, j);
      var high, low := Shr(temp, s), Low(Shl(temp, WORD_BITS - s), WORD_BITS);
      XorAt(below, j, high);
      ghost var middle := below[j := Xor(below[j], high)];
      XorAt(middle, j - 1, low);
      WordXor(b[j], high);
      WordXor(b[j - 1], low);
      b[j] := Xor(b[j], high);
      b[j - 1] := Xor(b[j - 1], low);
      assert b[..i] == middle[j - 1 := Xor(middle[j - 1], low)];
      XorAssoc(Value(below), Shl(high, WORD_BITS * j), Shl(low, WORD_BITS * (j - 1)));
    } else {
      XorAt(below, j, temp);
      WordXor(b[j], temp);
      b[j] := Xor(b[j], temp);
      assert b[..i] == below[j := Xor(below[j], temp)];
    }
  }

  /** One word folded away. */
  lemma FoldWord(below: seq<nat>, temp: nat, t0: nat, t1: nat)
    requires Words(below) && temp < Pow2(WORD_BITS) && 0 < t1 < t0 <= WORD_BITS * |below|
    ensures Shl(temp, WORD_BITS * |below| - t0) >= 0 && Shl(temp, WORD_BITS * |below| - (t0 - t1)) >= 0
    ensures PolyCong(Xor(Xor(Value(below), Shl(temp, WORD_BITS * |below| - t0)), Shl(temp, WORD_BITS * |below| - (t0 - t1))),
                     Value(below + [temp]), Trinomial(t0, t1))
  {
    hide Pow2, Shl, Xor, Value, PolyCong;
    var at, m := WORD_BITS * |below|, Trinomial(t0, t1);
    var v := Value(below);
    Fold(temp, at - t0, t0, t1);
    var low: nat, mid: nat := Shl(temp, at - t0), Shl(temp, at - (t0 - t1));
    AppendWord(below, temp);
    ValueBound(below);
    XorDisjoint(temp, v, at);
    XorComm(Shl(temp, at), v);
    XorAssoc(v, low, mid);
    PolyCongSym(Shl(temp, at), Xor(low, mid), m);
    PolyCongRefl(v, m);
    PolyCongXor(v, v, Xor(low, mid), Shl(temp, at), m);
  }

  // ------------------------------------------------------------------
  // The partial word at the top

  /** Adds the bits of word i from place `part` up, held in high, shifted down by t:
      the piece below the first word reached is written only if it can be non-zero. */
  method AddPartialShifted(b: array<nat>, i: nat, high: nat, part: nat, t: nat)
    requires i < b.Length && Words(b[..]) && part < WORD_BITS && high < Pow2(WORD_BITS - part)
    requires WORD_BITS <= t < WORD_BITS * i + part
    modifies b
    ensures Words(b[..])
    ensures Shl(high, WORD_BITS * i + part - t) >= 0
    ensures Value(b[..i + 1]) == Xor(old(Value(b[..i + 1])), Shl(high, WORD_BITS * i + part - t))
  {
    hide Pow2, Shl, Shr, Low, Xor, Value;
    PartFits(high, part);
    var temp: nat := Shl(high, part);
    var s := t % WORD_BITS;
    var j: nat := i - t / WORD_BITS;
    ghost var block := b[..i + 1];
    ShlNat(high, WORD_BITS * i + part - t);
    if s != 0 {
      var down := Shr(temp, s);
      DownFits(temp, s);
      XorAt(block, j, down);
      ghost var middle := block[j := Xor(block[j], down)];
      WordXor(b[j], down);
      b[j] := Xor(b[j], down);
      assert b[..i + 1] == middle;
      if s > part {
        var low := Low(Shl(temp, WORD_BITS - s), WORD_BITS);
        SplitDown(temp, s, j);
        ShlShl(high, part, WORD_BITS * j - s);
        XorAt(middle, j - 1, low);
        WordXor(b[j - 1], low);
        b[j - 1] := Xor(b[j - 1], low);
        assert b[..i + 1] == middle[j - 1 := Xor(middle[j - 1], low)];
        XorAssoc(Value(block), Shl(down, WORD_BITS * j), Shl(low, WORD_BITS * (j - 1)));
      } else {
        NothingBelow(high, part, s);
        assert Low(Shl(temp, WORD_BITS - s), WORD_BITS) == 0;
        ShlShl(high, part - s, WORD_BITS * j);
      }
    } else {
      ShlShl(high, part, WORD_BITS * j);
      XorAt(block, j, temp);
      WordXor(b[j], temp);
      b[j] := Xor(b[j], temp);
      assert b[..i + 1] == block[j := Xor(block[j], temp)];
    }
  }

  lemma PartFits(high: nat, part: nat)
    requires part < WORD_BITS && high < Pow2(WORD_BITS - part)
    ensures 0 <= Shl(high, part) < Pow2(WORD_BITS)
  {
    hide Pow2, Shl;
    assert 0 < Pow2(part);
    StackedBound(high, 0, WORD_BITS - part, part);
  }

  lemma DownFits(temp: nat, s: nat)
    requires temp < Pow2(WORD_BITS)
    ensures Shr(temp, s) < Pow2(WORD_BITS)
  {
  }

  /** A shift no longer than the empty part below leaves nothing for the next word. */
  lemma NothingBelow(high: nat, part: nat, s: nat)
    requires 0 < s <= part < WORD_BITS
    ensures Shl(high, part) >= 0 && Shl(Shl(high, part), WORD_BITS - s) >= 0 && Shl(high, part - s) >= 0
    ensures Shr(Shl(high, part), s) == Shl(high, part - s)
    ensures Low(Shl(Shl(high, part), WORD_BITS - s), WORD_BITS) == 0
  {
    hide Shl, Shr, Low;
    ShlNat(high, part);
    ShlNat(high, part - s);
    ShlNat(high, part + WORD_BITS - s);
    ShlShl(high, part - s, s);
    ShlRoundTrip(Shl(high, part - s), s);
    ShlShl(high, part, WORD_BITS - s);
    ShlShl(high, part - s, WORD_BITS);
    ShlRoundTrip(Shl(high, part - s), WORD_BITS);
  }

  /** The bits from t0 up in the word that holds bit t0 are folded down. */
  method FoldPartialWord(b: array<nat>, t0: nat, t1: nat)
    requires Words(b[..]) && t1 > 0 && t0 - t1 >= WORD_BITS && t0 % WORD_BITS != 0 && t0 / WORD_BITS < b.Length
    modifies b
    ensures Words(b[..])
    ensures Value(b[..t0 / WORD_BITS + 1]) < Pow2(t0)
    ensures PolyCong(Value(b[..t0 / WORD_BITS + 1]), old(Value(b[..t0 / WORD_BITS + 1])), Trinomial(t0, t1))
  {
    hide Pow2, Shl, Shr, Low, Xor, Value, PolyCong;
    var i := t0 / WORD_BITS;
    var part := t0 % WORD_BITS;
    ghost var block := b[..i + 1];
    TopPart(block, part);
    var high := Shr(b[i], part);
    ghost var cropped := block[i := Low(b[i], part)];
    CropLast(block, part);
    b[i] := Low(b[i], part);
    assert b[..i + 1] == cropped;

    DownFits(block[i], part);
    XorAt(cropped, 0, high);
    WordXor(b[i - t0 / WORD_BITS], high);
    b[i - t0 / WORD_BITS] := Xor(b[i - t0 / WORD_BITS], high);
    assert b[..i + 1] == cropped[0 := Xor(cropped[0], high)];
    ShlSmall(high);

    AddPartialShifted(b, i, high, part, t0 - t1);
    assert WORD_BITS * i + part - (t0 - t1) == t1;
    FoldedPart(Value(block), high, part, t0, t1);
  }

  lemma TopPart(block: seq<nat>, part: nat)
    requires Words(block) && |block| > 0 && part < WORD_BITS
    ensures Shr(block[|block| - 1], part) < Pow2(WORD_BITS - part)
    ensures Shr(block[|block| - 1], part) == Shr(Value(block), WORD_BITS * (|block| - 1) + part)
    ensures Low(block[|block| - 1], part) < Pow2(WORD_BITS)
  {
    hide Pow2, Shr, Value, Low;
    var i := |block| - 1;
    ShrShr(block[i], part, WORD_BITS - part);
    ShrSmall(block[i], WORD_BITS);
    ShrSmall(Shr(block[i], part), WORD_BITS - part);
    PrefixIsLow(block, i);
    assert block[i..] == [block[i]];
    OneWord(block[i]);
    ShrShr(Value(block), WORD_BITS * i, part);
    CropLast(block, part);
    assert block[i := Low(block[i], part)][i] < Pow2(WORD_BITS);
  }

  lemma OneWord(w: nat)
    ensures Value([w]) == w
  {
    assert Value([w]) == Shl(Value([]), WORD_BITS) + w;
    ShlZero(WORD_BITS);
  }

  lemma FoldedPart(v: nat, high: nat, part: nat, t0: nat, t1: nat)
    requires high == Shr(v, t0) && t1 > 0 && t0 >= t1 + WORD_BITS && part < WORD_BITS && high < Pow2(WORD_BITS - part)
    ensures Shl(high, t1) >= 0
    ensures Xor(Xor(Low(v, t0), high), Shl(high, t1)) < Pow2(t0)
    ensures PolyCong(Xor(Xor(Low(v, t0), high), Shl(high, t1)), v, Trinomial(t0, t1))
  {
    hide Pow2, Shl, Shr, Low, Xor, PolyCong;
    var low, m := Low(v, t0), Trinomial(t0, t1);
    ShlNat(high, t0);
    ShlNat(high, t1);
    SplitLow(v, t0);
    XorDisjoint(high, low, t0);
    Fold(high, 0, t0, t1);
    ShlSmall(high);
    PolyCongRefl(low, m);
    PolyCongSym(Shl(high, t0), Xor(high, Shl(high, t1)), m);
    PolyCongXor(low, low, Xor(high, Shl(high, t1)), Shl(high, t0), m);
    XorComm(low, Shl(high, t0));
    XorAssoc(low, high, Shl(high, t1));
    assert 0 < Pow2(t1);
    StackedBound(high, 0, WORD_BITS - part, t1);
    Pow2Monotone(WORD_BITS - part, t0);
    Pow2Monotone(t1 + WORD_BITS - part, t0);
    XorBound(high, Shl(high, t1), t0);
    XorBound(low, Xor(high, Shl(high, t1)), t0);
  }

  // ------------------------------------------------------------------
  // Reduction

  /** Reduced when t0 - t1 is at least a word: whole words first, then the partial
      one, then the low words are copied to the result. */
  method ReducedSparse(a: seq<nat>, t0: nat, t1: nat) returns (result: seq<nat>)
    requires Words(a) && |a| > 0 && t1 > 0 && t0 - t1 >= WORD_BITS
    ensures Words(result) && |result| == BitsToWords(t0)
    ensures Value(result) == Rem(Value(a), Trinomial(t0, t1))
  {
    hide Pow2, Shl, Shr, Low, Xor, Value, PolyCong, Rem, Trinomial;
    var b := new nat[|a|](k requires 0 <= k < |a| => a[k]);
    assert b[..] == a;
    ghost var m := Trinomial(t0, t1);
    PolyCongRefl(Value(a), m);
    var i := b.Length - 1;
    assert b[..i + 1] == a;
    while i >= BitsToWords(t0)
      invariant -1 <= i < b.Length && Words(b[..])
      invariant i == b.Length - 1 || i >= BitsToWords(t0) - 1
      invariant PolyCong(Value(b[..i + 1]), Value(a), m)
    {
      var temp := b[i];
      ghost var below, above := b[..i], b[..i + 1];
      assert above == below + [temp];
      AddShifted(b, i, temp, t0);
      AddShifted(b, i, temp, t0 - t1);
      FoldWord(below, temp, t0, t1);
      PolyCongTrans(Value(b[..i]), Value(above), Value(a), m);
      i := i - 1;
    }
    if i == BitsToWords(t0) - 1 && t0 % WORD_BITS != 0 {
      ghost var above := b[..i + 1];
      FoldPartialWord(b, t0, t1);
      PolyCongTrans(Value(b[..i + 1]), Value(above), Value(a), m);
    }
    var n := if b.Length < BitsToWords(t0) then b.Length else BitsToWords(t0);
    assert n == i + 1;
    SmallEnough(b[..n], t0);
    RemainderFound(Value(b[..n]), Value(a), t0, t1);
    result := b[..n] + seq(BitsToWords(t0) - n, _ => 0);
    ZeroPadded(b[..n], BitsToWords(t0) - n);
  }

  lemma SmallEnough(block: seq<nat>, t0: nat)
    requires Words(block) && |block| <= BitsToWords(t0)
    requires |block| == BitsToWords(t0) && t0 % WORD_BITS != 0 ==> Value(block) < Pow2(t0)
    ensures Value(block) < Pow2(t0)
  {
    hide Pow2, Value;
    ValueBound(block);
    if WORD_BITS * |block| <= t0 {
      Pow2Monotone(WORD_BITS * |block|, t0);
    }
  }

  lemma RemainderFound(r: nat, a: nat, t0: nat, t1: nat)
    requires t0 > t1 > 0 && r < Pow2(t0) && PolyCong(r, a, Trinomial(t0, t1))
    ensures r == Rem(a, Trinomial(t0, t1))
  {
    hide Pow2, PolyCong, Rem, BitCount, Trinomial;
    TrinomialDegree(t0, t1);
    BitCountUpper(r, t0);
    RemUnique(a, r, Trinomial(t0, t1));
  }

  lemma {:induction false} ZeroPadded(block: seq<nat>, k: nat)
    requires Words(block)
    ensures Words(block + seq(k, _ => 0)) && Value(block + seq(k, _ => 0)) == Value(block)
  {
    hide Shl, Value, Pow2;
    var zeros := seq(k, _ => 0);
    forall i | 0 <= i < |block + zeros|
      ensures (block + zeros)[i] < Pow2(WORD_BITS)
    {
      assert 0 < Pow2(WORD_BITS);
    }
    if k == 0 {
      assert block + zeros == block;
    } else {
      ZeroPadded(block, k - 1);
      var shorter := seq(k - 1, _ => 0);
      assert block + zeros == block + shorter + [0];
      AppendWord(block + shorter, 0);
      ShlZero(WORD_BITS * |block + shorter|);
    }
  }

  /** Reduced: the remainder of a modulo the trinomial. */
  method Reduced(field: GF2NT, a: seq<nat>) returns (result: nat)
    requires field.Valid() && Words(a) && (|a| > 0 || field.t0 - field.t1 < WORD_BITS)
    ensures result == Rem(Value(a), Trinomial(field.t0, field.t1)) && BitCount(result) <= field.t0
  {
    hide Pow2, Rem, Value, BitCount, Trinomial, Mul;
    TrinomialDegree(field.t0, field.t1);
    if field.t0 - field.t1 < WORD_BITS {
      var division := Divide(Value(a), Value(field.modulus));
      result := division.remainder;
    } else {
      var words := ReducedSparse(a, field.t0, field.t1);
      result := Value(words);
    }
  }

  // ------------------------------------------------------------------
  // Multiplication

  /** Multiply: the bits of b from m - 1 down; the bits that leave the words, or stay
      above bit m - 1, never come back. */
  method Multiply(field: GF2NT, a: seq<nat>, b: seq<nat>) returns (result: seq<nat>)
    requires field.Valid() && Words(a) && Words(b)
    ensures Words(result) && |result| == BitsToWords(field.t0)
    ensures Value(result) == Rem(Mul(Low(Value(a), field.t0), Low(Value(b), field.t0)), Trinomial(field.t0, field.t1))
  {
    hide Pow2, Shl, Shr, Low, Xor, Value, PolyCong, Rem, Trinomial, Mul, Bit;
    var m := field.t0;
    ghost var modulus := Trinomial(m, field.t1);
    var words := BitsToWords(m);
    var aSize := if |a| < words then |a| else words;
    var r := new nat[words](_ => 0);
    ghost var x, y := Low(Value(a), m), Low(Value(b), m);
    ZeroBlock(r[..]);
    StartMultiply(x, y, m, modulus);
    var i := m;
    while i > 0
      invariant 0 <= i <= m && Words(r[..])
      invariant PolyCong(Low(Value(r[..]), m), Mul(x, Shr(y, i)), modulus)
    {
      i := i - 1;
      ghost var before := Value(r[..]);
      GetBitIsBit(r[..], m - 1);
      if GetBit(r[..], m - 1) == 1 {
        ShiftWordsLeftByOne(r);
        XorWords(r, field.modulus, words);
        ReducedDouble(before, field, words);
      } else {
        ShiftWordsLeftByOne(r);
        PlainDouble(before, m, modulus, words);
      }
      ghost var doubled := Value(r[..]);
      GetBitIsBit(b, i);
      LowBitOf(Value(b), m, i);
      if GetBit(b, i) == 1 {
        XorWords(r, a, aSize);
        AddFactor(doubled, a, aSize, m);
      }
      HornerStep(before, doubled, Value(r[..]), x, y, i, m, modulus);
    }
    ghost var block := r[..];
    CropResult(block, m);
    if m % WORD_BITS != 0 {
      r[words - 1] := Low(r[words - 1], m % WORD_BITS);
      assert r[..] == block[words - 1 := Low(block[words - 1], m % WORD_BITS)];
    }
    result := r[..];
    FinishMultiply(Value(result), x, y, field);
  }

  lemma ZeroBlock(block: seq<nat>)
    requires forall i :: 0 <= i < |block| ==> block[i] == 0
    ensures Words(block) && Value(block) == 0
  {
    hide Value, Pow2;
    assert Words([]);
    ZeroPadded([], |block|);
    assert [] + seq(|block|, _ => 0) == block;
    ValueEmpty();
  }

  lemma StartMultiply(x: nat, y: nat, m: nat, modulus: nat)
    requires y < Pow2(m)
    ensures PolyCong(Low(0, m), Mul(x, Shr(y, m)), modulus)
  {
    hide Pow2, Shr, Low, Mul, PolyCong;
    ShrSmall(y, m);
    MulZero(x);
    LowOfZero(m);
    PolyCongRefl(0, modulus);
  }

  lemma LowOfZero(m: nat)
    ensures Low(0, m) == 0
  {
    hide Low, Shl;
    SplitUnique(0, 0, m);
    ShlZero(m);
  }

  /** Cutting to more bits first changes nothing. */
  lemma {:induction false} LowLow(n: nat, k: nat, m: nat)
    requires m <= k
    ensures Low(Low(n, k), m) == Low(n, m)
    decreases m
  {
    if m > 0 {
      LowHalves(n, k);
      LowLow(n / 2, k - 1, m - 1);
    }
  }

  lemma ShlDouble(h: nat, m: nat)
    requires m > 0
    ensures Shl(2 * h, m - 1) == Shl(h, m)
  {
    hide Shl;
    ShlStep(h, m);
    ShlAdd(h, h, m - 1);
  }

  /** The low m bits are bit m - 1 and those below it. */
  lemma LowTop(n: nat, m: nat)
    requires m > 0
    ensures Low(n, m) == Shl(Bit(n, m - 1), m - 1) + Low(n, m - 1)
  {
    hide Shl, Shr, Low, Bit;
    SplitLow(n, m);
    SplitLow(n, m - 1);
    ShiftStep(n, m - 1);
    var h, bit := Shr(n, m), Bit(n, m - 1);
    ShlAdd(2 * h, bit, m - 1);
    ShlDouble(h, m);
  }

  /** The low bits of n with bit m - 1 taken out. */
  lemma TopBit(n: nat, m: nat)
    requires m > 0
    ensures Low(2 * n, m) == 2 * Low(n, m - 1)
    ensures 2 * Low(n, m) == (if Bit(n, m - 1) == 1 then Pow2(m) else 0) + 2 * Low(n, m - 1)
  {
    hide Shl, Low, Pow2, Bit;
    LowHalves(2 * n, m);
    LowTop(n, m);
    var bit := Bit(n, m - 1);
    ShlStep(bit, m);
    if bit == 1 {
      ShlOne(m);
    } else {
      ShlZero(m);
    }
  }

  /** Shifted with bit m - 1 set: the modulus takes the carry out again. */
  lemma ReducedDouble(before: nat, field: GF2NT, words: nat)
    requires field.Valid() && words == BitsToWords(field.t0) && Bit(before, field.t0 - 1) == 1
    ensures words <= |field.modulus|
    ensures PolyCong(Low(Xor(Low(2 * before, WORD_BITS * words), Value(field.modulus[..words])), field.t0),
                     2 * Low(before, field.t0), Trinomial(field.t0, field.t1))
  {
    hide Pow2, Low, Xor, Value, PolyCong, Mul, Trinomial, Bit;
    var m, big := field.t0, Trinomial(field.t0, field.t1);
    var cut, top := Low(2 * before, m), Pow2(m);
    PrefixIsLow(field.modulus, words);
    LowLow(2 * before, WORD_BITS * words, m);
    LowLow(big, WORD_BITS * words, m);
    XorLow(Low(2 * before, WORD_BITS * words), Low(big, WORD_BITS * words), m);
    TopBit(before, m);
    TrinomialLow(m, field.t1);
    var tail := Low(big, m);
    TopApart(m, cut);
    CarryReduced(top, cut, tail, big);
  }

  /** (x^m + cut) + (cut + tail) == x^m + tail == the modulus */
  lemma CarryReduced(top: nat, cut: nat, tail: nat, big: nat)
    requires big == Xor(top, tail)
    ensures PolyCong(Xor(cut, tail), Xor(top, cut), big)
  {
    hide Xor, PolyCong, Mul;
    XorExchange(top, cut, tail, cut);
    XorSelf(cut);
    XorZero(Xor(top, tail));
    XorComm(cut, tail);
    MulZero(big);
    PolyCongBy(Xor(top, cut), Xor(cut, tail), 1, big);
  }

  lemma TopApart(m: nat, cut: nat)
    requires cut < Pow2(m)
    ensures Pow2(m) + cut == Xor(Pow2(m), cut)
  {
    hide Pow2, Xor, Shl;
    ShlOne(m);
    XorDisjoint(1, cut, m);
  }

  lemma TrinomialLow(t0: nat, t1: nat)
    requires t0 > t1 > 0
    ensures Trinomial(t0, t1) == Xor(Pow2(t0), Low(Trinomial(t0, t1), t0))
  {
    hide Pow2, Xor, Low, Shl;
    TrinomialSum(t0, t1);
    ShlOne(t0);
    SplitUnique(1, Pow2(t1) + 1, t0);
  }

  lemma PlainDouble(before: nat, m: nat, modulus: nat, words: nat)
    requires m > 0 && words == BitsToWords(m) && Bit(before, m - 1) == 0
    ensures PolyCong(Low(Low(2 * before, WORD_BITS * words), m), 2 * Low(before, m), modulus)
  {
    hide Pow2, Low, PolyCong, Bit;
    TopBit(before, m);
    LowLow(2 * before, WORD_BITS * words, m);
    PolyCongRefl(2 * Low(before, m), modulus);
  }

  lemma {:induction false} LowBitOf(n: nat, m: nat, i: nat)
    requires i < m
    ensures Bit(Low(n, m), i) == Bit(n, i)
    decreases i
  {
    LowHalves(n, m);
    if i > 0 {
      LowBitOf(n / 2, m - 1, i - 1);
    }
  }

  lemma AddFactor(doubled: nat, a: seq<nat>, aSize: nat, m: nat)
    requires Words(a) && aSize == if |a| < BitsToWords(m) then |a| else BitsToWords(m)
    ensures Low(Xor(doubled, Value(a[..aSize])), m) == Xor(Low(doubled, m), Low(Value(a), m))
  {
    hide Low, Xor, Value, Pow2;
    XorLow(doubled, Value(a[..aSize]), m);
    if aSize == |a| {
      assert a[..aSize] == a;
    } else {
      PrefixIsLow(a, aSize);
      LowLow(Value(a), WORD_BITS * aSize, m);
    }
  }

  lemma HornerStep(before: nat, doubled: nat, after: nat, x: nat, y: nat, i: nat, m: nat, modulus: nat)
    requires PolyCong(Low(before, m), Mul(x, Shr(y, i + 1)), modulus)
    requires PolyCong(Low(doubled, m), 2 * Low(before, m), modulus)
    requires Bit(y, i) == 1 ==> Low(after, m) == Xor(Low(doubled, m), x)
    requires Bit(y, i) == 0 ==> after == doubled
    ensures PolyCong(Low(after, m), Mul(x, Shr(y, i)), modulus)
  {
    hide Low, Xor, Mul, PolyCong, Shr, Bit, Shl;
    var s, bit := Shr(y, i + 1), Bit(y, i);
    ShiftStep(y, i);
    MulStep(x, 2 * s + bit);
    assert (2 * s + bit) / 2 == s && (2 * s + bit) % 2 == bit;
    var product := Mul(x, s);
    PolyCongShl(Low(before, m), product, 1, modulus);
    ShlSmall(Low(before, m));
    ShlSmall(product);
    PolyCongTrans(Low(doubled, m), 2 * Low(before, m), 2 * product, modulus);
    if bit == 1 {
      PolyCongRefl(x, modulus);
      PolyCongXor(x, x, Low(doubled, m), 2 * product, modulus);
      XorComm(x, Low(doubled, m));
    } else {
      XorZero(2 * product);
    }
  }

  lemma CropResult(block: seq<nat>, m: nat)
    requires Words(block) && |block| == BitsToWords(m) && m > 0
    ensures m % WORD_BITS == 0 ==> Value(block) == Low(Value(block), m)
    ensures m % WORD_BITS != 0 ==> var cropped := block[|block| - 1 := Low(block[|block| - 1], m % WORD_BITS)];
      Words(cropped) && Value(cropped) == Low(Value(block), m)
  {
    hide Low, Value, Pow2, Shl;
    if m % WORD_BITS == 0 {
      PrefixIsLow(block, |block|);
      assert block[..|block|] == block;
    } else {
      CropLast(block, m % WORD_BITS);
    }
  }

  lemma FinishMultiply(v: nat, x: nat, y: nat, field: GF2NT)
    requires field.Valid() && v < Pow2(field.t0)
    requires PolyCong(v, Mul(x, Shr(y, 0)), Trinomial(field.t0, field.t1))
    ensures v == Rem(Mul(x, y), Trinomial(field.t0, field.t1))
  {
    hide Pow2, Mul, PolyCong, Rem, Trinomial;
    RemainderFound(v, Mul(x, y), field.t0, field.t1);
  }
}

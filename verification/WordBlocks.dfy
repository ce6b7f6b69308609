/** Blocks of 64-bit words as polynomials over GF(2): the word helpers of words.h
    and single-bit access, on the polynomial that a block holds. */
module WordBlocks {
  import opened Bits
  import opened BinaryPolynomials
  import opened PolynomialMod2s

  /** The number of words that hold n bits. */
  function BitsToWords(n: nat): (w: nat)
    ensures n <= WORD_BITS * w < n + WORD_BITS
  {
    (n + WORD_BITS - 1) / WORD_BITS
  }

  lemma WordXor(x: nat, y: nat)
    requires x < Pow2(WORD_BITS) && y < Pow2(WORD_BITS)
    ensures Xor(x, y) < Pow2(WORD_BITS)
  {
    XorBound(x, y, WORD_BITS);
  }

  lemma {:induction false} ValueBound(ws: seq<nat>)
    requires Words(ws)
    ensures Value(ws) < Pow2(WORD_BITS * |ws|)
  {
    hide Pow2, Shl;
    if |ws| > 0 {
      var rest := Value(ws[1..]);
      ValueBound(ws[1..]);
      ShlMonotone(rest + 1, Pow2(WORD_BITS * |ws[1..]|), WORD_BITS);
      ShlAdd(rest, 1, WORD_BITS);
      ShlOne(WORD_BITS);
      ShlOne(WORD_BITS * |ws[1..]|);
      ShlShl(1, WORD_BITS * |ws[1..]|, WORD_BITS);
      ShlOne(WORD_BITS * |ws|);
    }
  }

  /** A block is its first k words below the others. */
  lemma {:induction false} ValueSplit(ws: seq<nat>, k: nat)
    requires k <= |ws|
    ensures Value(ws) == Shl(Value(ws[k..]), WORD_BITS * k) + Value(ws[..k])
  {
    hide Shl;
    if k == 0 {
      assert ws[0..] == ws;
      assert Value(ws[..0]) == 0;
      assert Shl(Value(ws), WORD_BITS * 0) == Value(ws) by { ShlSmall(Value(ws)); }
    } else {
      ValueSplit(ws, k - 1);
      assert ws[k - 1..][1..] == ws[k..];
      assert Value(ws[k - 1..]) == Shl(Value(ws[k..]), WORD_BITS) + ws[k - 1];
      ShlAdd(Shl(Value(ws[k..]), WORD_BITS), ws[k - 1], WORD_BITS * (k - 1));
      ShlShl(Value(ws[k..]), WORD_BITS, WORD_BITS * (k - 1));
      AppendWord(ws[..k - 1], ws[k - 1]);
      assert ws[..k - 1] + [ws[k - 1]] == ws[..k];
    }
  }

  lemma PrefixIsLow(ws: seq<nat>, k: nat)
    requires Words(ws) && k <= |ws|
    ensures Value(ws[..k]) == Low(Value(ws), WORD_BITS * k) && Value(ws[k..]) == Shr(Value(ws), WORD_BITS * k)
  {
    hide Pow2, Shl, Shr, Low, Value;
    ValueSplit(ws, k);
    ValueBound(ws[..k]);
    SplitUnique(Value(ws[k..]), Value(ws[..k]), WORD_BITS * k);
  }

  lemma ValueXorForm(ws: seq<nat>)
    requires Words(ws) && |ws| > 0
    ensures Shl(Value(ws[1..]), WORD_BITS) >= 0
    ensures Value(ws) == Xor(Shl(Value(ws[1..]), WORD_BITS), ws[0])
  {
    hide Pow2, Shl, Xor;
    XorDisjoint(Value(ws[1..]), ws[0], WORD_BITS);
  }

  /** Adding a word to one place of a block adds it, shifted to that place. */
  lemma {:induction false} XorAt(ws: seq<nat>, i: nat, v: nat)
    requires Words(ws) && i < |ws| && v < Pow2(WORD_BITS)
    ensures Shl(v, WORD_BITS * i) >= 0
    ensures Words(ws[i := Xor(ws[i], v)])
    ensures Value(ws[i := Xor(ws[i], v)]) == Xor(Value(ws), Shl(v, WORD_BITS * i))
    decreases i
  {
    hide Pow2, Shl, Xor, Value;
    var us := ws[i := Xor(ws[i], v)];
    WordXor(ws[i], v);
    ShlNat(v, WORD_BITS * i);
    ValueXorForm(ws);
    ValueXorForm(us);
    var rest := Value(ws[1..]);
    ShlNat(rest, WORD_BITS);
    if i == 0 {
      assert us[1..] == ws[1..];
      ShlSmall(v);
      XorAssoc(Shl(rest, WORD_BITS), ws[0], v);
    } else {
      assert us[1..] == ws[1..][i - 1 := Xor(ws[1..][i - 1], v)];
      XorAt(ws[1..], i - 1, v);
      var moved: nat := Shl(v, WORD_BITS * (i - 1));
      XorShl(rest, moved, WORD_BITS);
      ShlShl(v, WORD_BITS * (i - 1), WORD_BITS);
      XorMiddle(Shl(rest, WORD_BITS), Shl(v, WORD_BITS * i), ws[0]);
    }
  }

  lemma XorMiddle(a: nat, b: nat, c: nat)
    ensures Xor(Xor(a, b), c) == Xor(Xor(a, c), b)
  {
    hide Xor;
    XorAssoc(a, b, c);
    XorComm(b, c);
    XorAssoc(a, c, b);
  }

  /** The words of two blocks added. */
  ghost function XorEach(x: seq<nat>, y: seq<nat>): (r: seq<nat>)
    requires |x| == |y|
    ensures |r| == |x| && forall i :: 0 <= i < |r| ==> r[i] == Xor(x[i], y[i])
  {
    seq(|x|, i requires 0 <= i < |x| => Xor(x[i], y[i]))
  }

  lemma {:induction false} ValueXorEach(x: seq<nat>, y: seq<nat>)
    requires |x| == |y| && Words(x) && Words(y)
    ensures Words(XorEach(x, y)) && Value(XorEach(x, y)) == Xor(Value(x), Value(y))
  {
    hide Pow2, Shl, Xor, Value;
    var r := XorEach(x, y);
    if |x| == 0 {
      assert r == [] && x == [] && y == [];
      ValueEmpty();
      XorZero(0);
    } else {
      ValueXorEach(x[1..], y[1..]);
      assert XorEach(x[1..], y[1..]) == r[1..];
      WordXor(x[0], y[0]);
      WordsHeadTail(r);
      ValueXorForm(r);
      ValueXorForm(x);
      ValueXorForm(y);
      XorShl(Value(x[1..]), Value(y[1..]), WORD_BITS);
      XorExchange(Shl(Value(x[1..]), WORD_BITS), x[0], Shl(Value(y[1..]), WORD_BITS), y[0]);
    }
  }

  lemma WordsHeadTail(r: seq<nat>)
    requires |r| > 0 && r[0] < Pow2(WORD_BITS) && Words(r[1..])
    ensures Words(r)
  {
    hide Pow2;
    forall i | 0 <= i < |r|
      ensures r[i] < Pow2(WORD_BITS)
    {
      if i > 0 { assert r[i] == r[1..][i - 1]; }
    }
  }

  /** XorWords: adds the first n words of a to those of r. */
  method XorWords(r: array<nat>, a: seq<nat>, n: nat)
    requires n <= r.Length && n <= |a| && Words(r[..]) && Words(a)
    modifies r
    ensures Words(r[..]) && Value(r[..]) == Xor(old(Value(r[..])), Value(a[..n]))
  {
    hide Pow2, Shl, Xor, Value;
    ghost var before := r[..];
    assert a[..0] == [];
    ValueEmpty();
    XorZero(Value(before));
    for i := 0 to n
      invariant Words(r[..]) && Value(r[..]) == Xor(Value(before), Value(a[..i]))
    {
      ghost var s := r[..];
      XorAt(s, i, a[i]);
      r[i] := Xor(r[i], a[i]);
      assert r[..] == s[i := Xor(s[i], a[i])];
      AddedPrefix(Value(before), a, i);
    }
  }

  lemma AddedPrefix(v: nat, a: seq<nat>, i: nat)
    requires Words(a) && i < |a|
    ensures Shl(a[i], WORD_BITS * i) >= 0
    ensures Xor(Xor(v, Value(a[..i])), Shl(a[i], WORD_BITS * i)) == Xor(v, Value(a[..i + 1]))
  {
    hide Pow2, Shl, Xor, Value;
    var below, top := Value(a[..i]), Shl(a[i], WORD_BITS * i);
    ShlNat(a[i], WORD_BITS * i);
    AppendWord(a[..i], a[i]);
    assert a[..i] + [a[i]] == a[..i + 1];
    ValueBound(a[..i]);
    XorDisjoint(a[i], below, WORD_BITS * i);
    XorComm(top, below);
    XorAssoc(v, below, top);
  }

  /** ShiftWordsLeftByBits for one bit: the bit that leaves the top word is lost. */
  method ShiftWordsLeftByOne(r: array<nat>)
    requires Words(r[..])
    modifies r
    ensures Words(r[..]) && Value(r[..]) == Low(2 * old(Value(r[..])), WORD_BITS * r.Length)
  {
    hide Pow2, Shl, Low, Value, Shr;
    ghost var before := r[..];
    var carry: nat := 0;
    ValueEmpty();
    assert r[..0] == [] && before[..0] == [];
    for i := 0 to r.Length
      invariant carry < 2 && Words(r[..]) && r[i..] == before[i..]
      invariant Value(r[..i]) + Shl(carry, WORD_BITS * i) == 2 * Value(before[..i])
    {
      var u := r[i];
      ShiftedWord(u, carry);
      ghost var done := r[..i];
      var word := Low(2 * u, WORD_BITS) + carry;
      AppendWord(done, word);
      AppendWord(before[..i], u);
      CarryStep(u, carry, i);
      r[i] := word;
      carry := Shr(u, WORD_BITS - 1);
      assert r[..i + 1] == done + [word] && before[..i + 1] == before[..i] + [u];
    }
    assert r[..] == r[..r.Length] && before[..r.Length] == before;
    ValueBound(r[..]);
    SplitUnique(carry, Value(r[..]), WORD_BITS * r.Length);
  }

  /** GetCoefficient: zero past the last word. */
  function GetBit(ws: seq<nat>, n: nat): (b: nat)
    ensures b < 2
  {
    if n / WORD_BITS >= |ws| then 0 else Bit(ws[n / WORD_BITS], n % WORD_BITS)
  }

  lemma GetBitIsBit(ws: seq<nat>, n: nat)
    requires Words(ws)
    ensures GetBit(ws, n) == Bit(Value(ws), n)
  {
    hide Pow2, Shl, Shr, Value;
    var j, s := n / WORD_BITS, n % WORD_BITS;
    if j >= |ws| {
      ValueBound(ws);
      Pow2Monotone(WORD_BITS * |ws|, n);
      ShrSmall(Value(ws), n);
    } else {
      PrefixIsLow(ws, j);
      ShrShr(Value(ws), WORD_BITS * j, s);
      assert Value(ws[j..]) == Shl(Value(ws[j..][1..]), WORD_BITS) + ws[j] by { FirstWord(ws[j..]); }
      WordBit(Value(ws[j..][1..]), ws[j], s);
    }
  }

  /** Word i holds the coefficients from x^(64 i) on. */
  lemma WordOfValue(ws: seq<nat>, i: nat)
    requires Words(ws) && i < |ws|
    ensures Low(Shr(Value(ws), 64 * i), 64) == ws[i]
  {
    hide Pow2, Shl, Shr, Low, Value;
    PrefixIsLow(ws, i);
    FirstWord(ws[i..]);
    SplitUnique(Value(ws[i..][1..]), ws[i], 64);
  }

  lemma FirstWord(ws: seq<nat>)
    requires |ws| > 0
    ensures Value(ws) == Shl(Value(ws[1..]), WORD_BITS) + ws[0]
  {
  }

  lemma WordBit(above: nat, w: nat, s: nat)
    requires s < WORD_BITS
    ensures Shl(above, WORD_BITS) + w >= 0 && Bit(Shl(above, WORD_BITS) + w, s) == Bit(w, s)
  {
    hide Pow2, Shl, Shr, Low;
    var k: nat := WORD_BITS - s;
    ShlNat(above, k);
    ShlNat(above, WORD_BITS);
    ShlShl(above, k, s);
    SplitLow(w, s);
    ShlAdd(Shl(above, k), Shr(w, s), s);
    SplitUnique(Shl(above, k) + Shr(w, s), Low(w, s), s);
    assert Shl(above, k) == 2 * Shl(above, k - 1) by { ShlStep(above, k); }
  }

  /** Keeping k bits of the last word keeps so many bits of the block. */
  lemma CropLast(ws: seq<nat>, k: nat)
    requires Words(ws) && |ws| > 0 && k < WORD_BITS
    ensures Words(ws[|ws| - 1 := Low(ws[|ws| - 1], k)])
    ensures Value(ws[|ws| - 1 := Low(ws[|ws| - 1], k)]) == Low(Value(ws), WORD_BITS * (|ws| - 1) + k)
  {
    hide Pow2, Shl, Shr, Low, Value;
    var n, w := |ws| - 1, ws[|ws| - 1];
    var us := ws[n := Low(w, k)];
    var low, at := Value(ws[..n]), WORD_BITS * n;
    Pow2Monotone(k, WORD_BITS);
    ValueBound(ws[..n]);
    AppendWord(ws[..n], w);
    AppendWord(ws[..n], Low(w, k));
    assert ws[..n] + [w] == ws && ws[..n] + [Low(w, k)] == us;
    SplitLow(w, k);
    ShlAdd(Shl(Shr(w, k), k), Low(w, k), at);
    ShlShl(Shr(w, k), k, at);
    StackedBound(Low(w, k), low, k, at);
    SplitUnique(Shr(w, k), Shl(Low(w, k), at) + low, at + k);
  }

  lemma StackedBound(hi: nat, lo: nat, k: nat, at: nat)
    requires hi < Pow2(k) && lo < Pow2(at)
    ensures 0 <= Shl(hi, at) + lo < Pow2(at + k)
  {
    hide Pow2, Shl;
    ShlNat(hi, at);
    ShlMonotone(hi + 1, Pow2(k), at);
    ShlAdd(hi, 1, at);
    ShlOne(at);
    ShlOne(k);
    ShlShl(1, k, at);
    ShlOne(at + k);
  }
}

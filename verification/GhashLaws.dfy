/** What GHASH is, apart from the way it is computed: the bytes of a block, the
    reduction polynomial, and the hash as a sum of powers of the hash key. */
module GhashLaws {
  import opened Bits
  import opened BinaryPolynomials
  import opened GaloisProducts
  import opened GaloisReflections
  import opened GcmHashes

  /** Byte i of the data is byte i of the number, from the highest on. */
  lemma {:induction false} BigEndianByte(data: seq<nat>, i: nat)
    requires Bytes(data) && i < |data|
    ensures Shr(BigEndian(data), 8 * (|data| - 1 - i)) % 256 == data[i]
    decreases |data|
  {
    hide Shr;
    var n := |data| - 1;
    var rest, v := data[..n], BigEndian(data);
    assert v / 256 == BigEndian(rest) && v % 256 == data[n];
    if i == n {
      NoShr(v);
    } else {
      BigEndianByte(rest, i);
      ShrShr(v, 8, 8 * (n - 1 - i));
      LowByte(v);
      assert 8 + 8 * (n - 1 - i) == 8 * (n - i);
    }
  }

  lemma BlockBytes(block: seq<nat>, i: nat)
    requires Bytes(block) && |block| == 16 && i < 16
    ensures ByteOf(BigEndian(block), i) == block[i]
  {
    hide Shr, BigEndian;
    BigEndianByte(block, i);
  }

  /** The first bit of a block is the coefficient of x^0. */
  lemma {:induction false} ReflectedBit(v: nat, k: nat, i: nat)
    requires i < k
    ensures Bit(Reflect(v, k), i) == Bit(v, k - 1 - i)
    decreases k
  {
    hide Pow2, Shr;
    var top, rest := if v % 2 == 1 then 1 else 0, Reflect(v / 2, k - 1);
    ReflectBound(v / 2, k - 1);
    assert Reflect(v, k) == Shl(top, k - 1) + rest by { ShlPow2(top, k - 1); }
    SplitUnique(top, rest, k - 1);
    if i == k - 1 {
      NoShr(v);
    } else {
      ReflectedBit(v / 2, k - 1, i);
      LowerBit(top, rest, k - 1, i);
      assert Shr(v, k - 1 - i) == Shr(v / 2, k - 2 - i) by { ShrHalf(v, k - 1 - i); }
    }
  }

  lemma ShrHalf(v: nat, k: nat)
    requires k > 0
    ensures Shr(v, k) == Shr(v / 2, k - 1)
  {
  }

  /** Bits below k do not depend on what stands above. */
  lemma {:induction false} LowerBit(hi: nat, lo: nat, k: nat, i: nat)
    requires i < k
    ensures Shl(hi, k) >= 0 && Bit(Shl(hi, k) + lo, i) == Bit(lo, i)
    decreases i
  {
    hide Shl, Shr;
    ShlStep(hi, k);
    var h := Shl(hi, k - 1);
    var n := 2 * h + lo;
    assert n / 2 == h + lo / 2 && n % 2 == lo % 2;
    if i > 0 {
      LowerBit(hi, lo / 2, k - 1, i - 1);
      ShrHalf(n, i);
      ShrHalf(lo, i);
    } else {
      NoShr(n);
      NoShr(lo);
    }
  }

  /** x times x^127 is 1 + x + x^2 + x^7: section 6.3 of NIST SP 800-38D. */
  lemma ReductionPolynomial()
    ensures GaloisProduct(1, Pow2(126)) == 0xe100_0000_0000_0000_0000_0000_0000_0000
    ensures Modulus() == Pow2(128) + Pow2(7) + Pow2(2) + Pow2(1) + Pow2(0)
  {
    hide Window, Pow2, Xor;
    WindowBit(1, 0, 128, 126);
    XPowerOne(1);
    XorZero(REDUCER);
    Pow2First();
    Pow2Four();
    Pow2Add(1, 1);
    Pow2Add(4, 2);
    Pow2Add(6, 1);
  }

  /** The block with the first bit set alone is the unit. */
  lemma UnitBlock(h: nat)
    ensures GaloisProduct(h, Pow2(127)) == h
  {
    hide Window, Pow2;
    WindowBit(h, 0, 128, 127);
  }

  lemma {:induction false} TrailingZeros(data: seq<nat>, k: nat)
    ensures BigEndian(data + seq(k, _ => 0)) == BigEndian(data) * Pow2(8 * k)
    decreases k
  {
    var zeros := seq(k, _ => 0);
    if k == 0 {
      assert data + zeros == data;
    } else {
      assert (data + zeros)[..|data| + k - 1] == data + seq(k - 1, _ => 0);
      TrailingZeros(data, k - 1);
      hide Pow2;
      Pow2Eight();
      Pow2Add(8 * (k - 1), 8);
      var v, p := BigEndian(data), Pow2(8 * (k - 1));
      assert v * p * 256 == v * (p * 256);
    }
  }

  /** The hash of the unit block is the hash key. */
  lemma HashOfUnit(h: nat)
    ensures Ghash(h, 0, [0x80] + seq(15, _ => 0)) == h
  {
    hide GaloisProduct, Pow2, Xor, BigEndian;
    var block := [0x80] + seq(15, _ => 0);
    UnitValue(block);
    UnitBlock(h);
    XorZero(Pow2(127));
    assert block[..16] == block && block[16..] == [];
  }

  lemma UnitValue(block: seq<nat>)
    requires block == [0x80] + seq(15, _ => 0)
    ensures BigEndian(block) == Pow2(127)
  {
    hide Pow2, BigEndian;
    TrailingZeros([0x80], 15);
    OneByte(0x80);
    Pow2Eight();
    Pow2Step(8);
    Pow2Add(7, 120);
  }

  lemma OneByte(b: nat)
    ensures BigEndian([b]) == b
  {
    assert [b][..0] == [];
  }

  /** v h^k */
  ghost function TimesKey(h: nat, v: nat, k: nat): nat
  {
    if k == 0 then v else GaloisProduct(h, TimesKey(h, v, k - 1))
  }

  /** X1 h^m + X2 h^(m - 1) + ... + Xm h for the m whole blocks of the data. */
  ghost function KeyPolynomial(h: nat, data: seq<nat>): nat
  {
    if |data| < 16 then 0
    else Xor(TimesKey(h, BigEndian(data[..16]), |data| / 16), KeyPolynomial(h, data[16..]))
  }

  lemma {:induction false} TimesKeyLinear(h: nat, u: nat, v: nat, k: nat)
    ensures TimesKey(h, Xor(u, v), k) == Xor(TimesKey(h, u, k), TimesKey(h, v, k))
    decreases k
  {
    hide Xor, Window;
    if k > 0 {
      TimesKeyLinear(h, u, v, k - 1);
      WindowLinear(h, 0, 128, TimesKey(h, u, k - 1), TimesKey(h, v, k - 1));
    }
  }

  lemma {:induction false} TimesKeyFirst(h: nat, v: nat, k: nat)
    ensures TimesKey(h, GaloisProduct(h, v), k) == TimesKey(h, v, k + 1)
    decreases k
  {
    hide GaloisProduct;
    if k > 0 {
      TimesKeyFirst(h, v, k - 1);
    } else {
      assert TimesKey(h, v, 0) == v;
    }
  }

  /** The hash in closed form: section 6.4 of NIST SP 800-38D. */
  lemma {:induction false} GhashIsPolynomial(h: nat, y: nat, data: seq<nat>)
    ensures Ghash(h, y, data) == Xor(TimesKey(h, y, |data| / 16), KeyPolynomial(h, data))
    decreases |data|
  {
    hide Xor, GaloisProduct, BigEndian;
    if |data| < 16 {
      XorZero(y);
    } else {
      var x, m, rest := BigEndian(data[..16]), |data| / 16, data[16..];
      assert |rest| / 16 == m - 1;
      GhashIsPolynomial(h, GaloisProduct(h, Xor(y, x)), rest);
      TimesKeyFirst(h, Xor(y, x), m - 1);
      TimesKeyLinear(h, y, x, m);
      XorAssoc(TimesKey(h, y, m), TimesKey(h, x, m), KeyPolynomial(h, rest));
    }
  }
}

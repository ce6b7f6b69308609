/** GHASH as GCM_Base of gcm.cpp computes it: AuthenticateBlocks with 64K and with 2K
    tables, against the fold of the plain block product. */
module GcmHashes {
  import opened Bits
  import opened BinaryPolynomials
  import opened GaloisProducts
  import opened GcmTables

  const HASH_BLOCKSIZE: nat := 16

  ghost predicate Bytes(data: seq<nat>)
  {
    forall i :: 0 <= i < |data| ==> data[i] < 256
  }

  /** The number held in bytes, first byte highest. */
  function BigEndian(data: seq<nat>): (v: nat)
  {
    if |data| == 0 then 0 else BigEndian(data[..|data| - 1]) * 256 + data[|data| - 1]
  }

  lemma {:induction false} BigEndianBound(data: seq<nat>)
    requires Bytes(data)
    ensures BigEndian(data) < Pow2(8 * |data|)
    decreases |data|
  {
    if |data| > 0 {
      hide Pow2;
      var n := |data| - 1;
      BigEndianBound(data[..n]);
      Pow2Eight();
      Pow2Add(8 * n, 8);
      var v, p := BigEndian(data[..n]), Pow2(8 * n);
      assert v * 256 + data[n] < p * 256;
    }
  }

  function ZeroBlock(): (block: seq<nat>)
    ensures |block| == HASH_BLOCKSIZE && forall i :: 0 <= i < |block| ==> block[i] == 0
  {
    seq(HASH_BLOCKSIZE, _ => 0)
  }

  /** GHASH of the whole blocks of data, from y on: section 6.4 of NIST SP 800-38D. */
  ghost function Ghash(h: nat, y: nat, data: seq<nat>): (r: nat)
    decreases |data|
  {
    if |data| < HASH_BLOCKSIZE then y
    else Ghash(h, GaloisProduct(h, Xor(y, BigEndian(data[..HASH_BLOCKSIZE]))), data[HASH_BLOCKSIZE..])
  }

  /** Byte i of a block. */
  function ByteOf(x: nat, i: nat): (b: nat)
    requires i < 16
    ensures b < 256
  {
    Shr(x, BLOCK_BITS - 8 * (i + 1)) % 256
  }

  lemma LowByte(v: nat)
    ensures Low(v, 8) == v % 256 && Shr(v, 8) == v / 256
  {
    hide Low, Shr, Pow2;
    ShrIsDiv(v, 8);
    Pow2Eight();
  }

  /** One more byte of x taken into the product. */
  lemma ByteStep(h: nat, x: nat, i: nat)
    requires i < 16
    ensures Window(h, 0, 8 * (i + 1), Shr(x, BLOCK_BITS - 8 * (i + 1)))
         == Xor(Window(h, 0, 8 * i, Shr(x, BLOCK_BITS - 8 * i)), Window(h, 8 * i, 8, ByteOf(x, i)))
  {
    hide Xor, Window, Shr, Low;
    var v := Shr(x, BLOCK_BITS - 8 * (i + 1));
    WindowSplit(h, 0, 8 * i, 8, v);
    ShrShr(x, BLOCK_BITS - 8 * (i + 1), 8);
    LowByte(v);
  }

  /** One block through the 64K tables. */
  method MultiplyByBytes(table: array<nat>, ghost h: nat, x: nat) returns (a: nat)
    requires ByteTables(table[..], h)
    ensures a == GaloisProduct(h, x)
  {
    hide Pow2, Xor, Window, Shr, ByteOf, Filled;
    EmptyProduct(h, x);
    a := 0;
    for i := 0 to 16
      invariant a == Window(h, 0, 8 * i, Shr(x, BLOCK_BITS - 8 * i))
    {
      ReadEntry(table[..], 256 * i, h, 8 * i, 8, ByteOf(x, i));
      ByteStep(h, x, i);
      a := Xor(a, table[256 * i + ByteOf(x, i)]);
    }
    assert Shr(x, 0) == x by { NoShr(x); }
  }

  lemma EmptyProduct(h: nat, x: nat)
    ensures Window(h, 0, 0, Shr(x, BLOCK_BITS)) == 0
  {
  }

  lemma ReadEntry(t: seq<nat>, base: nat, h: nat, s: nat, n: nat, v: nat)
    requires Filled(t, base, h, s, n) && n == 8 ==> v < 256
    requires Filled(t, base, h, s, n) && n == 4 ==> v < 16
    requires Filled(t, base, h, s, n) && (n == 8 || n == 4)
    ensures base + v < |t| && t[base + v] == Window(h, s, n, v)
  {
    hide Pow2, Window;
    Pow2Four();
    Pow2Eight();
    assert Entry(t, base, h, s, n, v);
  }

  // ------------------------------------------------------------------
  // 2K tables

  /** a + x^8 b + x^16 c + x^24 d */
  ghost function Combined(a: nat, b: nat, c: nat, d: nat): (r: nat)
  {
    Xor(a, XPower(Xor(b, XPower(Xor(c, XPower(d, 8)), 8)), 8))
  }

  lemma CombinedLinear(a: nat, b: nat, c: nat, d: nat, a': nat, b': nat, c': nat, d': nat)
    ensures Combined(Xor(a, a'), Xor(b, b'), Xor(c, c'), Xor(d, d')) == Xor(Combined(a, b, c, d), Combined(a', b', c', d'))
  {
    hide Xor, XPower;
    XPowerLinear(d, d', 8);
    HornerLinear(c, c', XPower(d, 8), XPower(d', 8));
    var e, e' := XPower(Xor(c, XPower(d, 8)), 8), XPower(Xor(c', XPower(d', 8)), 8);
    HornerLinear(b, b', e, e');
    XorExchange(a, a', XPower(Xor(b, e), 8), XPower(Xor(b', e'), 8));
  }

  lemma HornerLinear(b: nat, b': nat, e: nat, e': nat)
    ensures XPower(Xor(Xor(b, b'), Xor(e, e')), 8) == Xor(XPower(Xor(b, e), 8), XPower(Xor(b', e'), 8))
  {
    hide Xor, XPower;
    XorExchange(b, b', e, e');
    XPowerLinear(Xor(b, e), Xor(b', e'), 8);
  }

  /** Four bytes in a row, each as a multiple of the same powers. */
  lemma FourBytes(h: nat, s: nat, p: nat, q: nat, r: nat, t: nat)
    ensures Combined(Window(h, s, 8, p), Window(h, s, 8, q), Window(h, s, 8, r), Window(h, s, 8, t))
         == Xor(Xor(Window(h, s, 8, p), Window(h, s + 8, 8, q)), Xor(Window(h, s + 16, 8, r), Window(h, s + 24, 8, t)))
  {
    hide Xor, XPower, Window;
    var a, b, c, d := Window(h, s, 8, p), Window(h, s, 8, q), Window(h, s, 8, r), Window(h, s, 8, t);
    WindowShift(h, s, 8, q, 8);
    WindowShift(h, s, 8, r, 16);
    WindowShift(h, s, 8, t, 24);
    XPowerAdd(d, 8, 8);
    XPowerAdd(d, 16, 8);
    XPowerAdd(c, 8, 8);
    XPowerLinear(c, XPower(d, 8), 8);
    XPowerLinear(b, Xor(XPower(c, 8), XPower(d, 16)), 8);
    XPowerLinear(XPower(c, 8), XPower(d, 16), 8);
    XorAssoc(a, XPower(b, 8), Xor(XPower(c, 16), XPower(d, 24)));
  }

  lemma WordStep(h: nat, x: nat, c: nat)
    requires c < 4
    ensures Window(h, 0, 32 * (c + 1), Shr(x, BLOCK_BITS - 32 * (c + 1)))
         == Xor(Window(h, 0, 32 * c, Shr(x, BLOCK_BITS - 32 * c)),
                Combined(Window(h, 32 * c, 8, ByteOf(x, 4 * c)), Window(h, 32 * c, 8, ByteOf(x, 4 * c + 1)),
                         Window(h, 32 * c, 8, ByteOf(x, 4 * c + 2)), Window(h, 32 * c, 8, ByteOf(x, 4 * c + 3))))
  {
    hide Xor, Window, Shr, ByteOf, Combined;
    ByteStep(h, x, 4 * c);
    ByteStep(h, x, 4 * c + 1);
    ByteStep(h, x, 4 * c + 2);
    ByteStep(h, x, 4 * c + 3);
    FourBytes(h, 32 * c, ByteOf(x, 4 * c), ByteOf(x, 4 * c + 1), ByteOf(x, 4 * c + 2), ByteOf(x, 4 * c + 3));
    var w := Window(h, 0, 32 * c, Shr(x, BLOCK_BITS - 32 * c));
    var p, q := Window(h, 32 * c, 8, ByteOf(x, 4 * c)), Window(h, 32 * c + 8, 8, ByteOf(x, 4 * c + 1));
    var r, t := Window(h, 32 * c + 16, 8, ByteOf(x, 4 * c + 2)), Window(h, 32 * c + 24, 8, ByteOf(x, 4 * c + 3));
    XorAssoc(w, p, q);
    XorAssoc(Xor(w, Xor(p, q)), r, t);
    XorAssoc(w, Xor(p, q), Xor(r, t));
  }

  /** The two nibbles of one byte of x, looked up in the tables of word c. */
  function ReadNibbles(t: seq<nat>, c: nat, b: nat): (r: nat)
    requires |t| == 128 && c < 4 && b < 256
  {
    Xor(t[64 + 16 * c + b / 16], t[16 * c + b % 16])
  }

  lemma NibblesAreByte(t: seq<nat>, h: nat, c: nat, b: nat)
    requires NibbleTables(t, h) && c < 4 && b < 256
    ensures ReadNibbles(t, c, b) == Window(h, 32 * c, 8, b)
  {
    hide Pow2, Xor, Window, Shr, Low, Filled;
    assert Filled(t, 64 + 16 * c, h, 32 * c, 4) && Filled(t, 16 * c, h, 32 * c + 4, 4);
    ReadEntry(t, 64 + 16 * c, h, 32 * c, 4, b / 16);
    ReadEntry(t, 16 * c, h, 32 * c + 4, 4, b % 16);
    WindowSplit(h, 32 * c, 4, 4, b);
    ShrIsDiv(b, 4);
    Pow2Four();
  }

  /** Eight places pushed out of v come back through the reduction table. */
  lemma ReduceByte(red: seq<nat>, v: nat)
    requires ReductionTable(red)
    ensures |red| == 256 && red[v % 256] < WORD16
    ensures Shl(ByteReverse16(red[v % 256]), 112) >= 0
    ensures XPower(v, 8) == Xor(v / 256, Shl(ByteReverse16(red[v % 256]), 112))
  {
    hide Xor, XPower, Shl, Shr, Low, ByteReverse16;
    LowByte(v);
    SplitLow(v, 8);
    XorDisjoint(v / 256, v % 256, 8);
    XPowerLinear(Shl(v / 256, 8), v % 256, 8);
    XPowerEven(v / 256, 8);
    assert Reduces(red, v % 256);
  }

  /** A reduction word still on its way down is not reduced again. */
  lemma ReduceAgain(red: seq<nat>, v: nat, e: nat, k: nat)
    requires ReductionTable(red)
    ensures Shl(e, k + 8) >= 0 && Shl(e, k) >= 0
    ensures |red| == 256 && red[v % 256] < WORD16 && Shl(ByteReverse16(red[v % 256]), 112) >= 0
    ensures XPower(Xor(v, Shl(e, k + 8)), 8) == Xor(Xor(v / 256, Shl(ByteReverse16(red[v % 256]), 112)), Shl(e, k))
  {
    hide Xor, XPower, Shl, ByteReverse16, ReductionTable;
    ReduceByte(red, v);
    ShlNat(e, k + 8);
    ShlNat(e, k);
    XPowerLinear(v, Shl(e, k + 8), 8);
    ShlShl(e, k, 8);
    XPowerEven(Shl(e, k), 8);
  }

  /** Four bytes as a number, highest first. */
  function Pack(p: nat, q: nat, r: nat, t: nat): (w: nat)
  {
    ((p * 256 + q) * 256 + r) * 256 + t
  }

  lemma PackXor(p: nat, q: nat, r: nat, t: nat, p': nat, q': nat, r': nat, t': nat)
    requires q < 256 && r < 256 && t < 256 && q' < 256 && r' < 256 && t' < 256
    ensures Xor(Pack(p, q, r, t), Pack(p', q', r', t')) == Pack(Xor(p, p'), Xor(q, q'), Xor(r, r'), Xor(t, t'))
    ensures Xor(q, q') < 256 && Xor(r, r') < 256 && Xor(t, t') < 256
  {
    hide Xor;
    var a, a' := p * 256 + q, p' * 256 + q';
    var c, c' := a * 256 + r, a' * 256 + r';
    XorByte(p, q, p', q');
    assert Xor(a, a') == Xor(p, p') * 256 + Xor(q, q');
    XorByte(a, r, a', r');
    assert Xor(c, c') == Xor(a, a') * 256 + Xor(r, r');
    XorByte(c, t, c', t');
    assert Pack(p, q, r, t) == c * 256 + t && Pack(p', q', r', t') == c' * 256 + t';
  }

  /** The byte reversal of a 64-bit word, for a word of at most 32 bits. */
  function ByteReverse64(r: nat): (u: nat)
    requires r < 0x1_0000_0000
  {
    Pack(r % 256, r / 256 % 256, r / 0x1_0000 % 256, r / 0x100_0000) * 0x1_0000_0000
  }

  lemma ReversePack(p: nat, q: nat, r: nat, t: nat)
    requires p < 256 && q < 256 && r < 256 && t < 256
    ensures Pack(p, q, r, t) < 0x1_0000_0000
    ensures ByteReverse64(Pack(p, q, r, t)) == Pack(t, r, q, p) * 0x1_0000_0000
  {
    var w := Pack(p, q, r, t);
    assert w % 256 == t && w / 256 == (p * 256 + q) * 256 + r;
    assert w / 0x1_0000 == w / 256 / 256 == p * 256 + q;
    assert w / 0x100_0000 == w / 0x1_0000 / 256 == p;
  }

  lemma SixteenUp(x: nat)
    ensures Shl(x, 8) == x * 256 && Shl(x, 16) == x * 0x1_0000
  {
    hide Shl, Pow2;
    ShlPow2(x, 8);
    ShlPow2(x, 16);
    Pow2Eight();
    Pow2Add(8, 8);
  }

  /** The collected words, reversed, are the reduction values at their places. */
  lemma CollectedWords(u: nat, v: nat, w: nat)
    requires u < WORD16 && v < WORD16 && w < WORD16
    ensures Shl(u, 16) >= 0 && Shl(v, 8) >= 0
    ensures Xor(Xor(Shl(u, 16), Shl(v, 8)), w) < 0x1_0000_0000
    ensures var x, y, z := ByteReverse16(u), ByteReverse16(v), ByteReverse16(w);
      && Shl(x, 96) >= 0 && Shl(y, 104) >= 0 && Shl(z, 112) >= 0
      && Shl(ByteReverse64(Xor(Xor(Shl(u, 16), Shl(v, 8)), w)), 64) == Xor(Xor(Shl(x, 96), Shl(y, 104)), Shl(z, 112))
  {
    hide Xor, Shl, ByteReverse16, ByteReverse64, Pack;
    var x, y, z := ByteReverse16(u), ByteReverse16(v), ByteReverse16(w);
    var p: nat, q: nat, r, t := CollectedBytes(u, v, w);
    var up := Pack(t, r, q, p);
    assert Xor(Xor(x, Shl(y, 8)), Shl(z, 16)) == up;
    ReversePack(p, q, r, t);
    ThirtyTwoUp(up);
    ShlNat(x, 96);
    ShlNat(y, 104);
    ShlNat(z, 112);
    ShlShl(y, 8, 96);
    ShlShl(z, 16, 96);
    XorShl(x, Shl(y, 8), 96);
    XorShl(Xor(x, Shl(y, 8)), Shl(z, 16), 96);
    ShlShl(up, 32, 64);
  }

  lemma ThirtyTwoUp(x: nat)
    ensures Shl(x, 32) == x * 0x1_0000_0000
  {
    hide Shl, Pow2;
    ShlPow2(x, 32);
    Pow2Eight();
    Pow2Add(8, 8);
    Pow2Add(16, 16);
  }

  lemma CollectedBytes(u: nat, v: nat, w: nat) returns (p: nat, q: nat, r: nat, t: nat)
    requires u < WORD16 && v < WORD16 && w < WORD16
    ensures p < 256 && q < 256 && r < 256 && t < 256
    ensures Shl(u, 16) >= 0 && Shl(v, 8) >= 0 && Xor(Xor(Shl(u, 16), Shl(v, 8)), w) == Pack(p, q, r, t)
    ensures Shl(ByteReverse16(v), 8) >= 0 && Shl(ByteReverse16(w), 16) >= 0
    ensures Xor(Xor(ByteReverse16(u), Shl(ByteReverse16(v), 8)), Shl(ByteReverse16(w), 16)) == Pack(t, r, q, p)
  {
    hide Xor, Shl, ByteReverse16;
    var uh, ul := WordParts(u);
    var vh, vl := WordParts(v);
    var wh, wl := WordParts(w);
    ReverseParts(uh, ul);
    ReverseParts(vh, vl);
    ReverseParts(wh, wl);
    SixteenUp(u);
    SixteenUp(v);
    SixteenUp(ByteReverse16(v));
    SixteenUp(ByteReverse16(w));
    PackXor(uh, ul, 0, 0, 0, vh, vl, 0);
    PackXor(uh, Xor(ul, vh), vl, 0, 0, 0, wh, wl);
    PackXor(0, 0, ul, uh, 0, vl, vh, 0);
    PackXor(0, vl, Xor(ul, vh), uh, wl, wh, 0, 0);
    p, q, r, t := uh, Xor(ul, vh), Xor(vl, wh), wl;
    ZeroParts(uh, ul, vh, vl, wh, wl);
  }

  lemma ZeroParts(uh: nat, ul: nat, vh: nat, vl: nat, wh: nat, wl: nat)
    ensures Xor(uh, 0) == uh && Xor(0, uh) == uh && Xor(0, vl) == vl && Xor(vl, 0) == vl
    ensures Xor(0, wl) == wl && Xor(0, 0) == 0
    ensures Xor(Xor(ul, vh), 0) == Xor(ul, vh) && Xor(ul, vh) == Xor(vh, ul) && Xor(vl, wh) == Xor(wh, vl)
  {
    hide Xor;
    XorZero(uh);
    XorZero(vl);
    XorZero(wl);
    XorZero(0);
    XorZero(Xor(ul, vh));
    XorComm(ul, vh);
    XorComm(vl, wh);
  }

  /** Reducing each byte at once, or collecting the reductions for the end. */
  lemma DelayedReduction(red: seq<nat>, a: nat, b: nat, c: nat, d: nat)
    requires ReductionTable(red)
    ensures var c' := Xor(c, d / 256); var b' := Xor(b, c' / 256);
      && |red| == 256 && red[d % 256] < WORD16 && red[c' % 256] < WORD16 && red[b' % 256] < WORD16
      && var x, y, z := ByteReverse16(red[d % 256]), ByteReverse16(red[c' % 256]), ByteReverse16(red[b' % 256]);
      && Shl(x, 96) >= 0 && Shl(y, 104) >= 0 && Shl(z, 112) >= 0
      && Combined(a, b, c, d) == Xor(Xor(a, b' / 256), Xor(Xor(Shl(x, 96), Shl(y, 104)), Shl(z, 112)))
  {
    hide Xor, XPower, Shl, ByteReverse16, ReductionTable;
    var c' := Xor(c, d / 256);
    var b' := Xor(b, c' / 256);
    ReduceByte(red, d);
    var x := ByteReverse16(red[d % 256]);
    ReduceAgain(red, c', x, 104);
    var y := ByteReverse16(red[c' % 256]);
    ShlNat(x, 112);
    ShlNat(x, 104);
    ShlNat(y, 112);
    var x0: nat, x1: nat, y0: nat := Shl(x, 112), Shl(x, 104), Shl(y, 112);
    XorAssoc(c, d / 256, x0);
    ReduceTwo(red, b, c' / 256, y, x);
    var z := ByteReverse16(red[b' % 256]);
    ShlNat(x, 96);
    ShlNat(y, 104);
    ShlNat(z, 112);
    var x2: nat, y1: nat, z0: nat := Shl(x, 96), Shl(y, 104), Shl(z, 112);
    XorAssoc(a, b' / 256, Xor(z0, Xor(y1, x2)));
    XorComm(z0, Xor(y1, x2));
    XorComm(y1, x2);
    XorAssoc(b' / 256, z0, Xor(y1, x2));
  }

  /** The last reduction, with two words still on their way down. */
  lemma ReduceTwo(red: seq<nat>, b: nat, shifted: nat, y: nat, x: nat)
    requires ReductionTable(red)
    ensures Shl(y, 112) >= 0 && Shl(x, 104) >= 0 && Shl(y, 104) >= 0 && Shl(x, 96) >= 0
    ensures var b' := Xor(b, shifted);
      && |red| == 256 && red[b' % 256] < WORD16 && Shl(ByteReverse16(red[b' % 256]), 112) >= 0
      && XPower(Xor(b, Xor(Xor(shifted, Shl(y, 112)), Shl(x, 104))), 8)
         == Xor(Xor(b' / 256, Shl(ByteReverse16(red[b' % 256]), 112)), Xor(Shl(y, 104), Shl(x, 96)))
  {
    hide Xor, XPower, Shl, ByteReverse16, ReductionTable;
    var b' := Xor(b, shifted);
    ShlNat(y, 112);
    ShlNat(x, 104);
    ShlNat(y, 104);
    ShlNat(x, 96);
    ShlNat(y, 8);
    var e := Xor(x, Shl(y, 8));
    XorShl(x, Shl(y, 8), 104);
    ShlShl(y, 8, 104);
    XorShl(x, Shl(y, 8), 96);
    ShlShl(y, 8, 96);
    ReduceAgain(red, b', e, 96);
    XorComm(Shl(x, 104), Shl(y, 112));
    XorComm(Shl(x, 96), Shl(y, 104));
    XorAssoc(shifted, Shl(y, 112), Shl(x, 104));
    XorAssoc(b, shifted, Xor(Shl(y, 112), Shl(x, 104)));
  }

  /** The reduction words of d, c and b collected in r, each a byte higher than the
      one after it, and added to the first half of the block once at the end. */
  method CombineWithTable(red: seq<nat>, a: nat, b: nat, c: nat, d: nat) returns (x: nat)
    requires |red| == 256 && ReductionTable(red)
    ensures x == Combined(a, b, c, d)
  {
    hide Xor, Shl, ByteReverse16, ByteReverse64, ReductionTable, Combined;
    DelayedReduction(red, a, b, c, d);
    var r: nat := Shl(red[d % 256], 16);
    var c' := Xor(c, d / 256);
    r := Xor(r, Shl(red[c' % 256], 8));
    var b' := Xor(b, c' / 256);
    r := Xor(r, red[b' % 256]);
    CollectedWords(red[d % 256], red[c' % 256], red[b' % 256]);
    x := Xor(a, b' / 256);
    x := Xor(x, Shl(ByteReverse64(r), 64));
  }

  /** One block through the 2K tables. */
  method MultiplyByNibbles(table: array<nat>, red: array<nat>, ghost h: nat, x: nat) returns (product: nat)
    requires NibbleTables(table[..], h) && red.Length == 256 && ReductionTable(red[..])
    ensures product == GaloisProduct(h, x)
  {
    hide Xor, Window, Shr, ByteOf, Filled, ReductionTable, Combined, ReadNibbles, NibbleTables;
    EmptyProduct(h, x);
    EmptyCombined();
    TableLength(table[..], h);
    var a, b, c, d := 0, 0, 0, 0;
    for i := 0 to 4
      invariant Combined(a, b, c, d) == Window(h, 0, 32 * i, Shr(x, BLOCK_BITS - 32 * i))
    {
      ghost var before := (a, b, c, d);
      var p, q, r, s := ByteOf(x, 4 * i), ByteOf(x, 4 * i + 1), ByteOf(x, 4 * i + 2), ByteOf(x, 4 * i + 3);
      NibblesAreByte(table[..], h, i, p);
      NibblesAreByte(table[..], h, i, q);
      NibblesAreByte(table[..], h, i, r);
      NibblesAreByte(table[..], h, i, s);
      WordStep(h, x, i);
      CombinedLinear(a, b, c, d, ReadNibbles(table[..], i, p), ReadNibbles(table[..], i, q),
                     ReadNibbles(table[..], i, r), ReadNibbles(table[..], i, s));
      a := Xor(a, ReadNibbles(table[..], i, p));
      b := Xor(b, ReadNibbles(table[..], i, q));
      c := Xor(c, ReadNibbles(table[..], i, r));
      d := Xor(d, ReadNibbles(table[..], i, s));
    }
    assert Shr(x, 0) == x by { NoShr(x); }
    product := CombineWithTable(red[..], a, b, c, d);
  }

  lemma TableLength(t: seq<nat>, h: nat)
    requires NibbleTables(t, h)
    ensures |t| == 128
  {
  }

  lemma EmptyCombined()
    ensures Combined(0, 0, 0, 0) == 0
  {
    hide Xor, XPower;
    XPowerZero(8);
    XorZero(0);
  }

  lemma {:induction false} WindowBound(h: nat, s: nat, n: nat, v: nat)
    requires h < Pow2(BLOCK_BITS)
    ensures Window(h, s, n, v) < Pow2(BLOCK_BITS)
    decreases n
  {
    hide Pow2, Xor, XPower;
    assert 0 < Pow2(BLOCK_BITS);
    if n > 0 {
      WindowBound(h, s, n - 1, v / 2);
      XPowerBound(h, s + n - 1);
      XorBound(if v % 2 == 1 then XPower(h, s + n - 1) else 0, Window(h, s, n - 1, v / 2), BLOCK_BITS);
    }
  }

  lemma {:induction false} XPowerBound(v: nat, n: nat)
    requires v < Pow2(BLOCK_BITS)
    ensures XPower(v, n) < Pow2(BLOCK_BITS)
    decreases n
  {
    hide Pow2, MulX;
    if n > 0 {
      MulXBound(v);
      XPowerBound(MulX(v), n - 1);
    }
  }

  // ------------------------------------------------------------------
  // The object

  class GcmBase {
    var mulTable: array<nat>
    var reductionTable: array<nat>
    var reductionTableInitialized: bool
    var hashBuffer: nat

    /** The tables belong to the hash key h, and the hash is one block. */
    ghost predicate Valid(h: nat)
      reads this, mulTable, reductionTable
    {
      && mulTable != reductionTable
      && reductionTable.Length == 256
      && h < Pow2(BLOCK_BITS) && hashBuffer < Pow2(BLOCK_BITS)
      && (reductionTableInitialized ==> ReductionTable(reductionTable[..]))
      && (ByteTables(mulTable[..], h) || (NibbleTables(mulTable[..], h) && reductionTableInitialized))
    }

    /** An object without a key. */
    constructor ()
      ensures fresh(mulTable) && fresh(reductionTable) && mulTable != reductionTable
      ensures reductionTable.Length == 256 && !reductionTableInitialized && hashBuffer == 0
    {
      mulTable := new nat[0];
      reductionTable := new nat[256];
      reductionTableInitialized := false;
      hashBuffer := 0;
    }

    /** The tables for the hash key of a keyed block cipher, its encryption of a zero block,
        as in section 7.1 of NIST SP 800-38D; the reduction table is made once. */
    method SetKeyWithoutResync(processBlock: seq<nat> -> seq<nat>, tableSize: int)
      requires mulTable != reductionTable && reductionTable.Length == 256
      requires hashBuffer < Pow2(BLOCK_BITS)
      requires Bytes(processBlock(ZeroBlock())) && |processBlock(ZeroBlock())| == HASH_BLOCKSIZE
      requires reductionTableInitialized ==> ReductionTable(reductionTable[..])
      modifies this, reductionTable
      ensures Valid(BigEndian(processBlock(ZeroBlock())))
      ensures hashBuffer == old(hashBuffer) && reductionTable == old(reductionTable)
      ensures fresh(mulTable) && 16 * mulTable.Length == if tableSize >= 64 * 1024 then 64 * 1024 else 2 * 1024
    {
      hide Filled, Reduces, Pow2, BigEndian;
      var hashKey := BigEndian(processBlock(ZeroBlock()));
      BigEndianBound(processBlock(ZeroBlock()));
      if tableSize >= 64 * 1024 {
        mulTable := BuildByteTables(hashKey);
      } else {
        if !reductionTableInitialized {
          BuildReductionTable(reductionTable);
          reductionTableInitialized := true;
        }
        mulTable := BuildNibbleTables(hashKey);
      }
    }

    /** Hashes the whole blocks of data, of which there is at least one, and returns
        the number of bytes left over. */
    method AuthenticateBlocks(ghost hashKey: nat, data: seq<nat>) returns (len: nat)
      requires Valid(hashKey) && Bytes(data) && |data| >= HASH_BLOCKSIZE
      modifies `hashBuffer
      ensures Valid(hashKey)
      ensures hashBuffer == Ghash(hashKey, old(hashBuffer), data)
      ensures len == |data| % HASH_BLOCKSIZE
    {
      hide Filled, Reduces, Pow2, Ghash, GaloisProduct, Xor, BigEndian;
      var x: nat := hashBuffer;
      var rest := data;
      while |rest| >= HASH_BLOCKSIZE
        invariant Bytes(rest) && |rest| % HASH_BLOCKSIZE == |data| % HASH_BLOCKSIZE
        invariant x < Pow2(BLOCK_BITS)
        invariant Ghash(hashKey, x, rest) == Ghash(hashKey, old(hashBuffer), data)
      {
        var y := BigEndian(rest[..HASH_BLOCKSIZE]);
        NextBlock(hashKey, x, rest);
        x := Xor(x, y);
        if 16 * mulTable.Length + 48 >= 64 * 1024 {
          x := MultiplyByBytes(mulTable, hashKey, x);
        } else {
          x := MultiplyByNibbles(mulTable, reductionTable, hashKey, x);
        }
        rest := rest[HASH_BLOCKSIZE..];
      }
      hashBuffer := x;
      len := |rest|;
      NoBlock(hashKey, x, rest);
    }
  }

  lemma NextBlock(h: nat, x: nat, rest: seq<nat>)
    requires |rest| >= HASH_BLOCKSIZE && h < Pow2(BLOCK_BITS)
    ensures var x' := GaloisProduct(h, Xor(x, BigEndian(rest[..HASH_BLOCKSIZE])));
      x' < Pow2(BLOCK_BITS) && Ghash(h, x, rest) == Ghash(h, x', rest[HASH_BLOCKSIZE..])
  {
    hide Pow2, Window, Xor, BigEndian;
    WindowBound(h, 0, BLOCK_BITS, Xor(x, BigEndian(rest[..HASH_BLOCKSIZE])));
  }

  lemma NoBlock(h: nat, x: nat, rest: seq<nat>)
    requires |rest| < HASH_BLOCKSIZE
    ensures Ghash(h, x, rest) == x
  {
  }

  /** The hash of blocks that come in two calls is the hash of all of them. */
  lemma {:induction false} GhashConcat(h: nat, y: nat, a: seq<nat>, b: seq<nat>)
    requires |a| % HASH_BLOCKSIZE == 0
    ensures Ghash(h, y, a + b) == Ghash(h, Ghash(h, y, a), b)
    decreases |a|
  {
    hide GaloisProduct, Xor, BigEndian;
    if |a| == 0 {
      assert a + b == b;
    } else {
      assert (a + b)[..HASH_BLOCKSIZE] == a[..HASH_BLOCKSIZE];
      assert (a + b)[HASH_BLOCKSIZE..] == a[HASH_BLOCKSIZE..] + b;
      GhashConcat(h, GaloisProduct(h, Xor(y, BigEndian(a[..HASH_BLOCKSIZE]))), a[HASH_BLOCKSIZE..], b);
    }
  }
}

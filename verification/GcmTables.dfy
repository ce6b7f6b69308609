/** The multiplication tables of GCM_Base in gcm.cpp: 16 tables of 256 entries, or
    eight tables of 16 entries with a byte reduction table. */
module GcmTables {
  import opened Bits
  import opened BinaryPolynomials
  import opened GaloisProducts

  /** Entry v of the table at base is h times the n coefficients in v from x^s on. */
  ghost predicate Entry(t: seq<nat>, base: nat, h: nat, s: nat, n: nat, v: nat)
  {
    base + v < |t| && t[base + v] == Window(h, s, n, v)
  }

  /** All entries of one table. */
  ghost predicate Filled(t: seq<nat>, base: nat, h: nat, s: nat, n: nat)
  {
    forall v: nat :: v < Pow2(n) ==> Entry(t, base, h, s, n, v)
  }

  /** The entries at powers of two of one table. */
  ghost predicate Seeded(t: seq<nat>, base: nat, h: nat, s: nat, n: nat)
  {
    forall m: nat :: m < n ==> Entry(t, base, h, s, n, Pow2(m))
  }

  /** A single coefficient's entry is h times a power of x. */
  lemma PowerEntry(t: seq<nat>, base: nat, h: nat, s: nat, n: nat, m: nat)
    requires m < n && base + Pow2(m) < |t| && t[base + Pow2(m)] == XPower(h, s + n - 1 - m)
    ensures Entry(t, base, h, s, n, Pow2(m))
  {
    hide Pow2, XPower, Window;
    WindowBit(h, s, n, m);
  }

  /** Below a power of two the sum of two indices is their exclusive or. */
  lemma SumEntry(h: nat, s: nat, n: nat, m: nat, k: nat)
    requires k < Pow2(m)
    ensures Xor(Window(h, s, n, Pow2(m)), Window(h, s, n, k)) == Window(h, s, n, Pow2(m) + k)
  {
    hide Pow2, Shl, Xor, Window;
    ShlOne(m);
    XorDisjoint(1, k, m);
    WindowLinear(h, s, n, Pow2(m), k);
  }

  /** Fills a table from its entries at powers of two. */
  method FillTable(table: array<nat>, base: nat, ghost h: nat, ghost s: nat, n: nat)
    requires n > 0 && base + Pow2(n) <= table.Length
    requires Seeded(table[..], base, h, s, n)
    modifies table
    ensures Filled(table[..], base, h, s, n)
    ensures forall q :: 0 <= q < table.Length && (q < base || q >= base + Pow2(n)) ==> table[q] == old(table[q])
  {
    hide Pow2, Xor, Window, Entry, Filled;
    assert 0 < Pow2(n);
    ghost var before := table[..];
    table[base] := 0;
    StartFill(before, table[..], base, h, s, n);
    var m := 1;
    while m < n
      invariant 1 <= m <= n
      invariant forall v: nat :: v < Pow2(m) ==> Entry(table[..], base, h, s, n, v)
      invariant forall m': nat :: m <= m' < n ==> Entry(table[..], base, h, s, n, Pow2(m'))
      invariant forall q :: 0 <= q < table.Length && (q < base || q >= base + Pow2(n)) ==> table[q] == old(table[q])
    {
      var j := Pow2(m);
      Pow2Step(m + 1);
      Pow2Monotone(m + 1, n);
      var k := 1;
      assert Entry(table[..], base, h, s, n, j);
      while k < j
        invariant 1 <= k <= j
        invariant forall v: nat :: v < j + k ==> Entry(table[..], base, h, s, n, v)
        invariant forall m': nat :: m <= m' < n ==> Entry(table[..], base, h, s, n, Pow2(m'))
        invariant forall q :: 0 <= q < table.Length && (q < base || q >= base + Pow2(n)) ==> table[q] == old(table[q])
      {
        ghost var t := table[..];
        var sum := Xor(table[base + j], table[base + k]);
        FillStep(t, base, h, s, n, m, k);
        table[base + j + k] := sum;
        assert table[..] == t[base + j + k := sum];
        k := k + 1;
      }
      m := m + 1;
    }
    AllFilled(table[..], base, h, s, n);
  }

  lemma StartFill(before: seq<nat>, t: seq<nat>, base: nat, h: nat, s: nat, n: nat)
    requires n > 0 && base < |before| && t == before[base := 0]
    requires Seeded(before, base, h, s, n)
    ensures forall v: nat :: v < Pow2(1) ==> Entry(t, base, h, s, n, v)
    ensures forall m: nat :: m < n ==> Entry(t, base, h, s, n, Pow2(m))
  {
    hide Pow2, Window;
    WindowNothing(h, s, n);
    forall m: nat | m < n
      ensures Entry(t, base, h, s, n, Pow2(m))
    {
      assert Entry(before, base, h, s, n, Pow2(m));
      assert Pow2(m) > 0;
    }
    assert Entry(t, base, h, s, n, Pow2(0));
    assert Pow2(0) == 1 && Pow2(1) == 2 by { Pow2First(); }
  }

  lemma FillStep(t: seq<nat>, base: nat, h: nat, s: nat, n: nat, m: nat, k: nat)
    requires 0 < k < Pow2(m) && m < n && base + Pow2(m) + k < |t|
    requires forall v: nat :: v < Pow2(m) + k ==> Entry(t, base, h, s, n, v)
    requires forall m': nat :: m <= m' < n ==> Entry(t, base, h, s, n, Pow2(m'))
    ensures Entry(t, base, h, s, n, Pow2(m)) && Entry(t, base, h, s, n, k)
    ensures var u := t[base + Pow2(m) + k := Xor(t[base + Pow2(m)], t[base + k])];
      && (forall v: nat :: v < Pow2(m) + k + 1 ==> Entry(u, base, h, s, n, v))
      && (forall m': nat :: m <= m' < n ==> Entry(u, base, h, s, n, Pow2(m')))
  {
    hide Pow2, Xor, Window;
    assert Entry(t, base, h, s, n, Pow2(m)) && Entry(t, base, h, s, n, k);
    SumEntry(h, s, n, m, k);
    var u := t[base + Pow2(m) + k := Xor(t[base + Pow2(m)], t[base + k])];
    forall v: nat | v < Pow2(m) + k + 1
      ensures Entry(u, base, h, s, n, v)
    {
      if v < Pow2(m) + k { assert Entry(t, base, h, s, n, v); }
    }
    forall m': nat | m <= m' < n
      ensures Entry(u, base, h, s, n, Pow2(m'))
    {
      assert Entry(t, base, h, s, n, Pow2(m'));
      if m' > m {
        Pow2Step(m + 1);
        Pow2Monotone(m + 1, m');
      }
    }
  }

  lemma AllFilled(t: seq<nat>, base: nat, h: nat, s: nat, n: nat)
    requires forall v: nat :: v < Pow2(n) ==> Entry(t, base, h, s, n, v)
    ensures Filled(t, base, h, s, n)
  {
    hide Pow2, Window, Entry;
  }

  /** Equal stretches of two blocks hold equal tables. */
  ghost predicate SameStretch(t: seq<nat>, u: seq<nat>, base: nat, k: nat)
  {
    |t| == |u| && base + k <= |t| && forall q :: base <= q < base + k ==> t[q] == u[q]
  }

  lemma KeepFilled(t: seq<nat>, u: seq<nat>, base: nat, h: nat, s: nat, n: nat)
    requires SameStretch(t, u, base, Pow2(n)) && Filled(t, base, h, s, n)
    ensures Filled(u, base, h, s, n)
  {
    hide Pow2, Window;
    forall v: nat | v < Pow2(n)
      ensures Entry(u, base, h, s, n, v)
    {
      assert Entry(t, base, h, s, n, v);
    }
  }

  lemma KeepSeeded(t: seq<nat>, u: seq<nat>, base: nat, h: nat, s: nat, n: nat)
    requires SameStretch(t, u, base, Pow2(n)) && Seeded(t, base, h, s, n)
    ensures Seeded(u, base, h, s, n)
  {
    hide Pow2, Window;
    forall m: nat | m < n
      ensures Entry(u, base, h, s, n, Pow2(m))
    {
      assert Entry(t, base, h, s, n, Pow2(m));
      Pow2Monotone(m, n);
    }
  }

  // ------------------------------------------------------------------
  // 64K tables

  /** Table c holds the multiples of h by byte c of a block. */
  ghost predicate ByteTables(t: seq<nat>, h: nat)
  {
    |t| == 16 * 256 && forall c: nat :: c < 16 ==> Filled(t, 256 * c, h, 8 * c, 8)
  }

  /** The powers of h below x^i are stored. */
  ghost predicate BytePowers(t: seq<nat>, h: nat, i: nat)
  {
    && |t| == 16 * 256
    && forall c: nat, m: nat :: c < 16 && m < 8 && 8 * c + 7 - m < i ==> Entry(t, 256 * c, h, 8 * c, 8, Pow2(m))
  }

  method BuildByteTables(hashKey: nat) returns (table: array<nat>)
    ensures fresh(table) && ByteTables(table[..], hashKey)
  {
    hide Pow2, Window, XPower, MulX, Entry, Filled, BytePowers, Seeded;
    table := new nat[16 * 256];
    var v := hashKey;
    NoPowers(table[..], hashKey);
    for i := 0 to 128
      invariant v == XPower(hashKey, i) && BytePowers(table[..], hashKey, i)
    {
      ghost var t := table[..];
      StoreBytePower(t, hashKey, i);
      table[i / 8 * 256 + Pow2(7 - i % 8)] := v;
      assert table[..] == t[i / 8 * 256 + Pow2(7 - i % 8) := v];
      XPowerAdd(hashKey, i, 1);
      XPowerOne(v);
      v := MulX(v);
    }
    Pow2Eight();
    ByteTablesSeeded(table[..], hashKey);
    for i := 0 to 16
      invariant forall c: nat :: c < i ==> Filled(table[..], 256 * c, hashKey, 8 * c, 8)
      invariant forall c: nat :: i <= c < 16 ==> Seeded(table[..], 256 * c, hashKey, 8 * c, 8)
    {
      ghost var t := table[..];
      FillTable(table, 256 * i, hashKey, 8 * i, 8);
      forall c: nat | c < i
        ensures Filled(table[..], 256 * c, hashKey, 8 * c, 8)
      {
        KeepFilled(t, table[..], 256 * c, hashKey, 8 * c, 8);
      }
      forall c: nat | i < c < 16
        ensures Seeded(table[..], 256 * c, hashKey, 8 * c, 8)
      {
        KeepSeeded(t, table[..], 256 * c, hashKey, 8 * c, 8);
      }
    }
  }

  lemma NoPowers(t: seq<nat>, h: nat)
    requires |t| == 16 * 256
    ensures BytePowers(t, h, 0) && XPower(h, 0) == h
  {
  }

  lemma StoreBytePower(t: seq<nat>, h: nat, i: nat)
    requires i < 128 && BytePowers(t, h, i)
    ensures i / 8 * 256 + Pow2(7 - i % 8) < |t|
    ensures BytePowers(t[i / 8 * 256 + Pow2(7 - i % 8) := XPower(h, i)], h, i + 1)
  {
    hide Pow2, Window, XPower;
    Pow2Eight();
    Pow2Monotone(7 - i % 8, 8);
    var u := t[i / 8 * 256 + Pow2(7 - i % 8) := XPower(h, i)];
    forall c: nat, m: nat | c < 16 && m < 8 && 8 * c + 7 - m < i + 1
      ensures Entry(u, 256 * c, h, 8 * c, 8, Pow2(m))
    {
      if 8 * c + 7 - m == i {
        assert c == i / 8 && m == 7 - i % 8;
        PowerEntry(u, 256 * c, h, 8 * c, 8, m);
      } else {
        assert Entry(t, 256 * c, h, 8 * c, 8, Pow2(m));
        Pow2Monotone(m, 8);
        if c == i / 8 {
          PowersDiffer(m, 7 - i % 8);
        }
      }
    }
  }

  lemma PowersDiffer(a: nat, b: nat)
    requires a != b
    ensures Pow2(a) != Pow2(b)
  {
    if a < b { Pow2Monotone(a, b); } else { Pow2Monotone(b, a); }
  }

  lemma ByteTablesSeeded(t: seq<nat>, h: nat)
    requires BytePowers(t, h, 128)
    ensures forall c: nat :: c < 16 ==> Seeded(t, 256 * c, h, 8 * c, 8)
  {
    hide Pow2, Window, Entry;
  }

  // ------------------------------------------------------------------
  // 2K tables

  /** For word c of a block, the even nibbles of its bytes look up the table at 64 + 16 c
      and the odd ones the table at 16 c. */
  ghost predicate NibbleTables(t: seq<nat>, h: nat)
  {
    && |t| == 128
    && forall c: nat :: c < 4 ==> Filled(t, 64 + 16 * c, h, 32 * c, 4) && Filled(t, 16 * c, h, 32 * c + 4, 4)
  }

  ghost predicate EvenPower(t: seq<nat>, h: nat, c: nat, m: nat)
  {
    Entry(t, 64 + 16 * c, h, 32 * c, 4, Pow2(m))
  }

  ghost predicate OddPower(t: seq<nat>, h: nat, c: nat, m: nat)
  {
    Entry(t, 16 * c, h, 32 * c + 4, 4, Pow2(m))
  }

  ghost predicate NibblePowers(t: seq<nat>, h: nat, i: nat)
  {
    && |t| == 128
    && (forall c: nat, m: nat :: c < 4 && m < 4 && 32 * c + 3 - m < i ==> EvenPower(t, h, c, m))
    && (forall c: nat, m: nat :: c < 4 && m < 4 && 32 * c + 7 - m < i ==> OddPower(t, h, c, m))
  }

  method BuildNibbleTables(hashKey: nat) returns (table: array<nat>)
    ensures fresh(table) && NibbleTables(table[..], hashKey)
  {
    hide Pow2, Window, XPower, MulX, Entry, Filled, NibblePowers, Seeded;
    table := new nat[128];
    var v := hashKey;
    NoNibblePowers(table[..], hashKey);
    for i := 0 to 128 - 24
      invariant v == XPower(hashKey, i) && NibblePowers(table[..], hashKey, i)
    {
      var k := i % 32;
      ghost var t := table[..];
      if k < 4 {
        StoreEvenPower(t, hashKey, i);
        table[64 + i / 32 * 16 + Pow2(3 - k)] := v;
        assert table[..] == t[64 + i / 32 * 16 + Pow2(3 - k) := v];
      } else if k < 8 {
        StoreOddPower(t, hashKey, i);
        table[i / 32 * 16 + Pow2(7 - k)] := v;
        assert table[..] == t[i / 32 * 16 + Pow2(7 - k) := v];
      } else {
        SkipPower(t, hashKey, i);
      }
      XPowerAdd(hashKey, i, 1);
      XPowerOne(v);
      v := MulX(v);
    }
    Pow2Four();
    NibbleTablesSeeded(table[..], hashKey);
    for i := 0 to 4
      invariant forall c: nat :: c < i ==>
        Filled(table[..], 64 + 16 * c, hashKey, 32 * c, 4) && Filled(table[..], 16 * c, hashKey, 32 * c + 4, 4)
      invariant forall c: nat :: i <= c < 4 ==>
        Seeded(table[..], 64 + 16 * c, hashKey, 32 * c, 4) && Seeded(table[..], 16 * c, hashKey, 32 * c + 4, 4)
    {
      ghost var t := table[..];
      FillTable(table, 16 * i, hashKey, 32 * i + 4, 4);
      KeepSeeded(t, table[..], 64 + 16 * i, hashKey, 32 * i, 4);
      ghost var u := table[..];
      FillTable(table, 64 + 16 * i, hashKey, 32 * i, 4);
      KeepFilled(u, table[..], 16 * i, hashKey, 32 * i + 4, 4);
      forall c: nat | c < i
        ensures Filled(table[..], 64 + 16 * c, hashKey, 32 * c, 4) && Filled(table[..], 16 * c, hashKey, 32 * c + 4, 4)
      {
        KeepFilled(t, table[..], 64 + 16 * c, hashKey, 32 * c, 4);
        KeepFilled(t, table[..], 16 * c, hashKey, 32 * c + 4, 4);
      }
      forall c: nat | i < c < 4
        ensures Seeded(table[..], 64 + 16 * c, hashKey, 32 * c, 4) && Seeded(table[..], 16 * c, hashKey, 32 * c + 4, 4)
      {
        KeepSeeded(t, table[..], 64 + 16 * c, hashKey, 32 * c, 4);
        KeepSeeded(t, table[..], 16 * c, hashKey, 32 * c + 4, 4);
      }
    }
  }

  lemma NoNibblePowers(t: seq<nat>, h: nat)
    requires |t| == 128
    ensures NibblePowers(t, h, 0) && XPower(h, 0) == h
  {
  }

  lemma StoreEvenPower(t: seq<nat>, h: nat, i: nat)
    requires i < 104 && i % 32 < 4 && NibblePowers(t, h, i)
    ensures 64 + i / 32 * 16 + Pow2(3 - i % 32) < |t|
    ensures NibblePowers(t[64 + i / 32 * 16 + Pow2(3 - i % 32) := XPower(h, i)], h, i + 1)
  {
    hide Pow2, Window, XPower;
    Pow2Four();
    Pow2Monotone(3 - i % 32, 4);
    var u := t[64 + i / 32 * 16 + Pow2(3 - i % 32) := XPower(h, i)];
    forall c: nat, m: nat | c < 4 && m < 4 && 32 * c + 3 - m < i + 1
      ensures EvenPower(u, h, c, m)
    {
      Pow2Monotone(m, 4);
      if 32 * c + 3 - m == i {
        assert c == i / 32 && m == 3 - i % 32;
        PowerEntry(u, 64 + 16 * c, h, 32 * c, 4, m);
      } else {
        assert EvenPower(t, h, c, m);
        if c == i / 32 { PowersDiffer(m, 3 - i % 32); }
      }
    }
    forall c: nat, m: nat | c < 4 && m < 4 && 32 * c + 7 - m < i + 1
      ensures OddPower(u, h, c, m)
    {
      Pow2Monotone(m, 4);
      assert OddPower(t, h, c, m);
    }
  }

  lemma StoreOddPower(t: seq<nat>, h: nat, i: nat)
    requires i < 104 && 4 <= i % 32 < 8 && NibblePowers(t, h, i)
    ensures i / 32 * 16 + Pow2(7 - i % 32) < |t|
    ensures NibblePowers(t[i / 32 * 16 + Pow2(7 - i % 32) := XPower(h, i)], h, i + 1)
  {
    hide Pow2, Window, XPower;
    Pow2Four();
    Pow2Monotone(7 - i % 32, 4);
    var u := t[i / 32 * 16 + Pow2(7 - i % 32) := XPower(h, i)];
    forall c: nat, m: nat | c < 4 && m < 4 && 32 * c + 3 - m < i + 1
      ensures EvenPower(u, h, c, m)
    {
      assert EvenPower(t, h, c, m);
    }
    forall c: nat, m: nat | c < 4 && m < 4 && 32 * c + 7 - m < i + 1
      ensures OddPower(u, h, c, m)
    {
      Pow2Monotone(m, 4);
      if 32 * c + 7 - m == i {
        assert c == i / 32 && m == 7 - i % 32;
        PowerEntry(u, 16 * c, h, 32 * c + 4, 4, m);
      } else {
        assert OddPower(t, h, c, m);
        if c == i / 32 { PowersDiffer(m, 7 - i % 32); }
      }
    }
  }

  lemma SkipPower(t: seq<nat>, h: nat, i: nat)
    requires i % 32 >= 8 && NibblePowers(t, h, i)
    ensures NibblePowers(t, h, i + 1)
  {
    hide Pow2, Window, XPower, Entry;
  }

  lemma NibbleTablesSeeded(t: seq<nat>, h: nat)
    requires NibblePowers(t, h, 104)
    ensures forall c: nat :: c < 4 ==> Seeded(t, 64 + 16 * c, h, 32 * c, 4) && Seeded(t, 16 * c, h, 32 * c + 4, 4)
  {
    hide Pow2, Window, Entry;
    forall c: nat | c < 4
      ensures Seeded(t, 64 + 16 * c, h, 32 * c, 4) && Seeded(t, 16 * c, h, 32 * c + 4, 4)
    {
      forall m: nat | m < 4
        ensures Entry(t, 64 + 16 * c, h, 32 * c, 4, Pow2(m)) && Entry(t, 16 * c, h, 32 * c + 4, 4, Pow2(m))
      {
        assert EvenPower(t, h, c, m) && OddPower(t, h, c, m);
      }
    }
  }

  // ------------------------------------------------------------------
  // The byte reduction table

  const WORD16: nat := 0x1_0000

  function ByteReverse16(x: nat): (r: nat)
    requires x < WORD16
    ensures r < WORD16
  {
    x % 256 * 256 + x / 256
  }

  lemma ByteReverseTwice(x: nat)
    requires x < WORD16
    ensures ByteReverse16(ByteReverse16(x)) == x
  {
    hide ByteReverse16;
    var h, l := WordParts(x);
    ReverseParts(h, l);
    ReverseParts(l, h);
  }

  /** Entry v, once its bytes are put in order, is what v becomes at the front of a
      block when eight places push it out at the end. */
  ghost predicate Reduces(t: seq<nat>, v: nat)
  {
    v < |t| && t[v] < WORD16 && Shl(ByteReverse16(t[v]), 112) == XPower(v, 8)
  }

  ghost predicate ReductionTable(t: seq<nat>)
  {
    |t| == 256 && forall v: nat :: v < 256 ==> Reduces(t, v)
  }

  /** A single bit pushed out: 0xe1 arrives at the front and is shifted on. */
  lemma BitReduces(m: nat)
    requires m < 8
    ensures Shl(0x1c2, m) < WORD16
    ensures Shl(Shl(0x1c2, m), 112) == XPower(Pow2(m), 8)
  {
    hide Pow2, Shl, XPower, MulX, Xor;
    ShlOne(m);
    XPowerEven(1, m);
    XPowerAdd(Pow2(m), m, 8 - m);
    XPowerAdd(1, 1, 7 - m);
    XPowerOne(1);
    assert MulX(1) == REDUCER by { OnePushedOut(); }
    ReducerFits();
    ShlShl(0xe1, 113 + m, 7 - m);
    ShlNat(0xe1, 113 + m);
    XPowerEven(Shl(0xe1, 113 + m), 7 - m);
    ShlSmall(0xe1);
    ShlShl(0xe1, 1, m);
    ShlShl(0xe1, 1 + m, 112);
    ShlMonotone(0xe1, 256, m + 1);
    Pow2Eight();
    ShlOne(8);
    ShlShl(1, 8, m + 1);
    ShlOne(m + 9);
    Pow2Monotone(m + 9, 16);
    Pow2Add(8, 8);
  }

  lemma OnePushedOut()
    ensures MulX(1) == REDUCER
  {
    XorZero(REDUCER);
  }

  /** The reversed table adds like the values it holds. */
  lemma SumReduces(t: seq<nat>, u: seq<nat>, m: nat, j: nat)
    requires m < 8 && j < Pow2(m) && Reduces(t, Pow2(m)) && Reduces(t, j)
    requires |u| > Pow2(m) + j && u[Pow2(m) + j] == Xor(t[Pow2(m)], t[j])
    ensures Reduces(u, Pow2(m) + j)
  {
    hide Pow2, Shl, Xor, XPower, ByteReverse16;
    ShlOne(m);
    XorDisjoint(1, j, m);
    XPowerLinear(Pow2(m), j, 8);
    ByteReverseXor(t[Pow2(m)], t[j]);
    XorShl(ByteReverse16(t[Pow2(m)]), ByteReverse16(t[j]), 112);
  }

  /** Exclusive or of numbers made of a high part and a low byte. */
  lemma XorByte(a: nat, b: nat, c: nat, d: nat)
    requires b < 256 && d < 256
    ensures Xor(a * 256 + b, c * 256 + d) == Xor(a, c) * 256 + Xor(b, d) && Xor(b, d) < 256
  {
    hide Pow2, Shl, Xor;
    Pow2Eight();
    XorDisjoint(a, b, 8);
    XorDisjoint(c, d, 8);
    XorBound(b, d, 8);
    XorDisjoint(Xor(a, c), Xor(b, d), 8);
    ShlPow2(a, 8);
    ShlPow2(c, 8);
    ShlPow2(Xor(a, c), 8);
    XorShl(a, c, 8);
    XorExchange(Shl(a, 8), b, Shl(c, 8), d);
  }

  lemma ReverseParts(h: nat, l: nat)
    requires h < 256 && l < 256
    ensures h * 256 + l < WORD16 && ByteReverse16(h * 256 + l) == l * 256 + h
  {
    assert (h * 256 + l) / 256 == h && (h * 256 + l) % 256 == l;
  }

  lemma WordParts(x: nat) returns (h: nat, l: nat)
    requires x < WORD16
    ensures h < 256 && l < 256 && x == h * 256 + l
  {
    h, l := x / 256, x % 256;
  }

  lemma ByteReverseXor(x: nat, y: nat)
    requires x < WORD16 && y < WORD16
    ensures Xor(x, y) < WORD16
    ensures ByteReverse16(Xor(x, y)) == Xor(ByteReverse16(x), ByteReverse16(y))
  {
    hide Xor, ByteReverse16;
    var a, b := WordParts(x);
    var c, d := WordParts(y);
    XorByte(a, b, c, d);
    XorByte(0, a, 0, c);
    XorByte(b, a, d, c);
    ReverseParts(a, b);
    ReverseParts(c, d);
    ReverseParts(Xor(a, c), Xor(b, d));
  }

  /** The part of SetKeyWithoutResync that fills s_reductionTable. */
  method BuildReductionTable(table: array<nat>)
    requires table.Length == 256
    modifies table
    ensures ReductionTable(table[..])
  {
    hide Pow2, Shl, Xor, XPower, ByteReverse16, Reduces;
    table[0] := 0;
    var x: nat := 0x1c2;
    table[1] := ByteReverse16(x);
    FirstReduces(table[..]);
    var m := 1;
    while m < 8
      invariant 1 <= m <= 8 && x == Shl(0x1c2, m - 1) && x < WORD16
      invariant forall v: nat :: v < Pow2(m) ==> Reduces(table[..], v)
    {
      var i := Pow2(m);
      BitReduces(m);
      ShlShl(0x1c2, m - 1, 1);
      ShlSmall(x);
      x := 2 * x;
      Pow2Step(m + 1);
      Pow2Monotone(m + 1, 8);
      Pow2Eight();
      ghost var t := table[..];
      table[i] := ByteReverse16(x);
      SetReduces(t, table[..], m, x);
      var j := 1;
      while j < i
        invariant 1 <= j <= i && forall v: nat :: v < i + j ==> Reduces(table[..], v)
      {
        ghost var u := table[..];
        assert Reduces(u, i) && Reduces(u, j);
        table[i + j] := Xor(table[i], table[j]);
        SumReduces(u, table[..], m, j);
        KeepReduces(u, table[..], i + j);
        j := j + 1;
      }
      m := m + 1;
    }
    Pow2Eight();
  }

  lemma FirstReduces(t: seq<nat>)
    requires |t| == 256 && t[0] == 0 && t[1] == ByteReverse16(0x1c2)
    ensures forall v: nat :: v < Pow2(1) ==> Reduces(t, v)
    ensures Shl(0x1c2, 0) == 0x1c2
  {
    hide XPower, Shl;
    XPowerZero(8);
    ShlZero(112);
    Pow2First();
    BitReduces(0);
    ByteReverseTwice(0x1c2);
    ShlSmall(0x1c2);
    assert Reduces(t, 0);
    assert Reduces(t, 1);
  }

  lemma SetReduces(t: seq<nat>, u: seq<nat>, m: nat, x: nat)
    requires m < 8 && |t| == 256 && Pow2(m) < 256 && x == Shl(0x1c2, m) && x < WORD16 && u == t[Pow2(m) := ByteReverse16(x)]
    requires forall v: nat :: v < Pow2(m) ==> Reduces(t, v)
    ensures forall v: nat :: v < Pow2(m) + 1 ==> Reduces(u, v)
  {
    hide Pow2, Shl, XPower;
    BitReduces(m);
    ByteReverseTwice(x);
    forall v: nat | v < Pow2(m) + 1
      ensures Reduces(u, v)
    {
      if v < Pow2(m) { assert Reduces(t, v); }
    }
  }

  lemma KeepReduces(t: seq<nat>, u: seq<nat>, k: nat)
    requires |t| == |u| && k < |t| && (forall v: nat :: v < k ==> t[v] == u[v]) && Reduces(u, k)
    requires forall v: nat :: v < k ==> Reduces(t, v)
    ensures forall v: nat :: v < k + 1 ==> Reduces(u, v)
  {
    hide Shl, XPower;
    forall v: nat | v < k
      ensures Reduces(u, v)
    {
      assert Reduces(t, v);
    }
  }
}

/** Strings of bits, highest first, and their division into units of n bits. */
module BitStrings {
  import opened Bits
  import opened ByteStrings

  type bit = x: int | 0 <= x < 2

  function BitsOf(v: nat, n: nat): (b: seq<bit>)
    ensures |b| == n
  {
    if n == 0 then [] else BitsOf(v / 2, n - 1) + [v % 2]
  }

  function FromBits(b: seq<bit>): (v: nat)
  {
    if |b| == 0 then 0 else 2 * FromBits(b[..|b| - 1]) + b[|b| - 1]
  }

  lemma {:induction false} FromBitsBound(b: seq<bit>)
    ensures FromBits(b) < Pow2(|b|)
  {
    if |b| > 0 { FromBitsBound(b[..|b| - 1]); }
  }

  lemma {:induction false} FromBitsOf(v: nat, n: nat)
    requires v < Pow2(n)
    ensures FromBits(BitsOf(v, n)) == v
  {
    if n > 0 {
      FromBitsOf(v / 2, n - 1);
      assert BitsOf(v, n)[..n - 1] == BitsOf(v / 2, n - 1);
    }
  }

  lemma {:induction false} BitsOfFrom(b: seq<bit>)
    ensures BitsOf(FromBits(b), |b|) == b
  {
    if |b| > 0 {
      var last := |b| - 1;
      BitsOfFrom(b[..last]);
      assert FromBits(b) / 2 == FromBits(b[..last]) && FromBits(b) % 2 == b[last];
      assert b == b[..last] + [b[last]];
    }
  }

  lemma {:induction false} FromBitsConcat(a: seq<bit>, b: seq<bit>)
    ensures FromBits(a + b) == Shl(FromBits(a), |b|) + FromBits(b)
  {
    if |b| == 0 {
      assert a + b == a;
    } else {
      var last := |b| - 1;
      assert (a + b)[..|a + b| - 1] == a + b[..last];
      FromBitsConcat(a, b[..last]);
    }
  }

  /** The units one after the other, n bits each. */
  ghost function Unpack(units: seq<nat>, n: nat): (b: seq<bit>)
  {
    if |units| == 0 then [] else Unpack(units[..|units| - 1], n) + BitsOf(units[|units| - 1], n)
  }

  lemma UnpackAppend(units: seq<nat>, v: nat, n: nat)
    ensures Unpack(units + [v], n) == Unpack(units, n) + BitsOf(v, n)
  {
    assert (units + [v])[..|units|] == units;
  }

  lemma UnpackNone(n: nat)
    ensures Unpack([], n) == []
  {
  }

  lemma {:induction false} UnpackConcat(a: seq<nat>, b: seq<nat>, n: nat)
    ensures Unpack(a + b, n) == Unpack(a, n) + Unpack(b, n)
    decreases |b|
  {
    hide Unpack, BitsOf;
    if |b| == 0 {
      UnpackNone(n);
      assert b == [] && a + b == a;
    } else {
      var front, last := b[..|b| - 1], b[|b| - 1];
      assert b == front + [last] && a + b == (a + front) + [last];
      UnpackConcat(a, front, n);
      UnpackAppend(front, last, n);
      UnpackAppend(a + front, last, n);
      AppendBits(Unpack(a, n), Unpack(front, n), BitsOf(last, n));
    }
  }

  lemma UnpackOne(v: nat, n: nat)
    ensures Unpack([v], n) == BitsOf(v, n)
  {
    assert [v][..0] == [];
  }

  lemma {:induction false} UnpackLength(units: seq<nat>, n: nat)
    ensures |Unpack(units, n)| == n * |units|
  {
    if |units| > 0 {
      UnpackLength(units[..|units| - 1], n);
      assert n * |units| == n * (|units| - 1) + n;
    }
  }

  /** Highest bit first. */
  lemma {:induction false} BitsOfBit(v: nat, n: nat, i: nat)
    requires i < n
    ensures BitsOf(v, n)[i] == Bit(v, n - 1 - i)
    decreases n
  {
    if i < n - 1 {
      BitsOfBit(v / 2, n - 1, i);
    }
  }

  lemma {:induction false} UnpackBit(units: seq<nat>, n: nat, j: nat, i: nat)
    requires j < |units| && i < n
    ensures n * j + i < |Unpack(units, n)| && Unpack(units, n)[n * j + i] == Bit(units[j], n - 1 - i)
    decreases |units|
  {
    hide BitsOf, Bit;
    var last := |units| - 1;
    UnpackLength(units, n);
    UnpackLength(units[..last], n);
    if j < last {
      MulMonotone(n, j + 1, last);
      assert n * (j + 1) == n * j + n;
      UnpackBit(units[..last], n, j, i);
    } else {
      BitsOfBit(units[last], n, i);
    }
  }

  /** The whole units of n bits; what is left at the end is dropped. */
  function Units(b: seq<bit>, n: nat): (units: seq<nat>)
    decreases |b|
  {
    if n == 0 || |b| < n then [] else [FromBits(b[..n])] + Units(b[n..], n)
  }

  predicate Fit(units: seq<nat>, n: nat)
  {
    forall i :: 0 <= i < |units| ==> units[i] < Pow2(n)
  }

  lemma {:induction false} UnitsFit(b: seq<bit>, n: nat)
    ensures Fit(Units(b, n), n)
    decreases |b|
  {
    if n > 0 && |b| >= n {
      FromBitsBound(b[..n]);
      UnitsFit(b[n..], n);
    }
  }

  lemma UnitsStep(b: seq<bit>, rest: seq<bit>, n: nat)
    requires |b| == n > 0
    ensures Units(b + rest, n) == [FromBits(b)] + Units(rest, n)
  {
    assert (b + rest)[..n] == b && (b + rest)[n..] == rest;
  }

  lemma UnpackStep(v: nat, rest: seq<nat>, n: nat)
    ensures Unpack([v] + rest, n) == BitsOf(v, n) + Unpack(rest, n)
  {
    hide Unpack, BitsOf;
    UnpackConcat([v], rest, n);
    UnpackOne(v, n);
  }

  lemma TooFewBits(b: seq<bit>, n: nat)
    requires |b| < n
    ensures Units(b, n) == [] && Unpack([], n) == []
  {
  }

  lemma {:induction false} UnitsOfUnpacked(units: seq<nat>, tail: seq<bit>, n: nat)
    requires Fit(units, n) && |tail| < n
    ensures Units(Unpack(units, n) + tail, n) == units
    decreases |units|
  {
    hide Unpack, Units, BitsOf, FromBits, Pow2;
    TooFewBits(tail, n);
    if |units| == 0 {
      assert units == [] && [] + tail == tail;
    } else {
      var rest := units[1..];
      assert units == [units[0]] + rest;
      UnpackStep(units[0], rest, n);
      FromBitsOf(units[0], n);
      UnitsOfUnpacked(rest, tail, n);
      AppendBits(BitsOf(units[0], n), Unpack(rest, n), tail);
      UnitsStep(BitsOf(units[0], n), Unpack(rest, n) + tail, n);
    }
  }

  lemma AppendBits(a: seq<bit>, b: seq<bit>, c: seq<bit>)
    ensures (a + b) + c == a + (b + c)
  {
  }

  lemma {:induction false} UnpackUnits(b: seq<bit>, n: nat)
    requires n > 0 && |b| % n == 0
    ensures Unpack(Units(b, n), n) == b
    decreases |b|
  {
    hide Unpack, Units, BitsOf, FromBits;
    if |b| > 0 {
      MultipleIsMultiple(1, n);
      MultipleIsMultiple(0, n);
      MultipleDifference(|b|, 0, n);
      MultipleDifference(|b|, n, n);
      var first, rest := b[..n], b[n..];
      assert b == first + rest;
      UnitsStep(first, rest, n);
      UnpackUnits(rest, n);
      UnpackStep(FromBits(first), Units(rest, n), n);
      BitsOfFrom(first);
    } else {
      assert b == [];
      TooFewBits(b, n);
    }
  }

  function Zeros(n: nat): (b: seq<bit>)
    ensures |b| == n
  {
    seq(n, _ => 0)
  }

  /** How many more make a multiple of n. */
  function UpTo(k: nat, n: nat): (r: nat)
    requires n > 0
    ensures r < n && (k + r) % n == 0
  {
    var d := k % n;
    if d == 0 then 0
    else
      RoundUp(k, n);
      n - d
  }

  lemma RoundUp(k: nat, n: nat)
    requires n > 0
    ensures (k + (n - k % n)) % n == 0
  {
    assert k == n * (k / n) + k % n;
    var q := k / n + 1;
    assert n * q == n * (k / n) + n;
    MultipleIsMultiple(q, n);
  }

  lemma UpToUnique(k: nat, r: nat, n: nat)
    requires n > 0 && r < n && (k + r) % n == 0
    ensures r == UpTo(k, n)
  {
    var s := UpTo(k, n);
    if r > s { MultipleDifference(k + r, k + s, n); }
    if s > r { MultipleDifference(k + s, k + r, n); }
  }

  /** The first multiple of n among start, start + step, and so on. */
  function FirstMultiple(start: nat, step: nat, n: nat): (r: nat)
    requires n > 0 && step > 0 && start % step == 0 && start <= step * n
    ensures r >= start && r % step == 0 && r % n == 0
    decreases step * n - start
  {
    if start % n == 0 then start
    else
      StepOn(start, step, n);
      FirstMultiple(start + step, step, n)
  }

  /** No common multiple lies before it. */
  lemma {:induction false} NoneBefore(start: nat, step: nat, n: nat, i: nat)
    requires n > 0 && step > 0 && start % step == 0 && start <= step * n
    requires start <= i < FirstMultiple(start, step, n) && i % step == 0
    ensures i % n != 0
    decreases step * n - start
  {
    if i > start {
      StepOn(start, step, n);
      MultipleDifference(i, start, step);
      NoneBefore(start + step, step, n, i);
    }
  }

  /** Nothing smaller than the first common multiple divided by n will do. */
  lemma SmallestFactor(step: nat, n: nat, m: nat)
    requires n > 0 && step > 0 && m > 0
    ensures step % step == 0 && step <= step * n
    ensures m < FirstMultiple(step, step, n) / n ==> (n * m) % step != 0
  {
    hide FirstMultiple;
    MultipleIsMultiple(1, step);
    MulMonotone(step, 1, n);
    var r := FirstMultiple(step, step, n);
    if m < r / n && (n * m) % step == 0 {
      assert r == n * (r / n);
      MulMonotone(n, m + 1, r / n);
      assert n * (m + 1) == n * m + n;
      MulMonotone(n, 1, m);
      MultipleIsMultiple(0, step);
      MultipleDifference(n * m, 0, step);
      NoneBefore(step, step, n, n * m);
      MultipleIsMultiple(m, n);
    }
  }

  lemma StepOn(start: nat, step: nat, n: nat)
    requires n > 0 && step > 0 && start % step == 0 && start <= step * n && start % n != 0
    ensures (start + step) % step == 0 && start + step <= step * n
  {
    MultipleIsMultiple(1, step);
    MultipleSum(start, step, step);
    MultipleIsMultiple(step, n);
    MultipleIsMultiple(n, step);
    assert start != step * n;
    MultipleDifference(n * step, start, step);
  }

  // ------------------------------------------------------------------
  // Bits in registers

  /** Bits held at the top of a register of n bits, zeros below. */
  function AtTop(b: seq<bit>, n: nat): (v: nat)
    requires |b| <= n
  {
    ShlNat(FromBits(b), n - |b|);
    Shl(FromBits(b), n - |b|)
  }

  lemma AtTopBound(b: seq<bit>, n: nat)
    requires |b| <= n
    ensures AtTop(b, n) < Pow2(n)
  {
    hide Pow2, Shl, FromBits;
    var k := n - |b|;
    FromBitsBound(b);
    ShlMonotone(FromBits(b) + 1, Pow2(|b|), k);
    ShlAdd(FromBits(b), 1, k);
    ShlOne(k);
    ShlOne(|b|);
    ShlShl(1, |b|, k);
    ShlOne(n);
  }

  /** More bits are added below those there are. */
  lemma AtTopConcat(a: seq<bit>, b: seq<bit>, n: nat)
    requires |a| + |b| <= n
    ensures AtTop(a + b, n) == AtTop(a, n) + AtTop(b, n - |a|)
  {
    hide Pow2, Shl, FromBits;
    var k := n - |a| - |b|;
    FromBitsConcat(a, b);
    ShlAdd(Shl(FromBits(a), |b|), FromBits(b), k);
    ShlShl(FromBits(a), |b|, k);
  }

  lemma AtTopWhole(b: seq<bit>)
    ensures AtTop(b, |b|) == FromBits(b)
  {
    ShlSmall(FromBits(b));
  }

  lemma AtTopNone(n: nat)
    ensures AtTop([], n) == 0
  {
    ShlZero(n);
  }

  /** The first t bits of a register moved to the bottom. */
  lemma TakeTop(b: seq<bit>, n: nat, t: nat)
    requires |b| <= n && t <= n
    ensures t <= |b| ==> Shr(AtTop(b, n), n - t) == FromBits(b[..t])
    ensures t >= |b| ==> Shr(AtTop(b, n), n - t) == AtTop(b, t)
  {
    hide Pow2, Shl, FromBits, Shr, Low;
    if t == |b| {
      AtTopWhole(b);
      assert b[..t] == b;
    }
    if t <= |b| {
      assert b == b[..t] + b[t..];
      AtTopConcat(b[..t], b[t..], n);
      AtTopBound(b[t..], n - t);
      SplitUnique(FromBits(b[..t]), AtTop(b[t..], n - t), n - t);
    } else {
      ShlShl(FromBits(b), t - |b|, n - t);
      SplitUnique(Shl(FromBits(b), t - |b|), 0, n - t);
    }
  }

  /** A register shifted up by t bits, the top t of which are lost. */
  lemma DropTop(b: seq<bit>, n: nat, t: nat)
    requires t <= |b| <= n
    ensures Shl(AtTop(b, n), t) >= 0 && Low(Shl(AtTop(b, n), t), n) == AtTop(b[t..], n)
  {
    hide Pow2, Shl, FromBits, Shr, Low;
    assert b == b[..t] + b[t..];
    AtTopConcat(b[..t], b[t..], n);
    var hi, lo := FromBits(b[..t]), FromBits(b[t..]);
    ShlAdd(AtTop(b[..t], n), AtTop(b[t..], n - t), t);
    ShlShl(hi, n - t, t);
    ShlShl(lo, n - |b|, t);
    AtTopBound(b[t..], n);
    SplitUnique(hi, AtTop(b[t..], n), n);
  }

  /** A unit completed from the bits at the top of its place. */
  lemma UnitComplete(done: seq<nat>, current: nat, value: nat, pending: seq<bit>, bits: seq<bit>, n: nat)
    requires |pending| + |bits| == n && current == AtTop(pending, n) && value == FromBits(bits)
    ensures current + value < Pow2(n)
    ensures Unpack(done + [current + value], n) + [] == (Unpack(done, n) + pending) + bits
  {
    hide Pow2, AtTop, FromBits, Unpack, BitsOf;
    var full := pending + bits;
    AtTopConcat(pending, bits, n);
    AtTopWhole(bits);
    AtTopWhole(full);
    FromBitsBound(full);
    BitsOfFrom(full);
    UnpackAppend(done, current + value, n);
    AppendBits(Unpack(done, n), pending, bits);
  }

}

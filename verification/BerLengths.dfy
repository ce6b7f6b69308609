/** The length octets of asn.cpp: DERLengthEncode writes the shortest form, and
    BERLengthDecode reads every form of a 64-bit length. */
module BerLengths {
  import opened Bits
  import opened ByteStrings
  import opened Wrappers

  /** lword has 64 bits. */
  const LWORD_LIMIT: nat := 0x1_0000_0000_0000_0000

  /** A queue of bytes, read through the decoders opened over it, outermost first.  A
      decoder of definite length has its remaining length; an indefinite one none. */
  class ByteQueue {
    var bytes: seq<byte>
    var limits: seq<Option<nat>>

    /** What can be read. */
    ghost function View(): (v: seq<byte>)
      reads this
    {
      bytes[..Limit(limits, |bytes|)]
    }

    constructor (bytes: seq<byte>)
      ensures this.bytes == bytes && limits == []
    {
      this.bytes := bytes;
      limits := [];
    }

    method Put(data: seq<byte>)
      modifies `bytes
      ensures bytes == old(bytes) + data
    {
      bytes := bytes + data;
    }

    /** TransferTo2 through every decoder: each limits the number of bytes, and is
        reduced by the number that was read. */
    method Transfer(wanted: nat) returns (data: seq<byte>)
      modifies this
      ensures |data| == Min(wanted, |old(View())|) && data + View() == old(View())
      ensures |data| <= |old(bytes)| && bytes == old(bytes)[|data|..]
      ensures AtLeast(old(limits), |data|) && limits == Reduced(old(limits), |data|)
    {
      var n := Min(wanted, Limit(limits, |bytes|));
      LimitIsLeast(limits, |bytes|);
      LimitReduced(limits, |bytes|, n);
      data := bytes[..n];
      bytes := bytes[n..];
      limits := Reduced(limits, n);
    }

    method Get() returns (b: Option<byte>)
      modifies this
      ensures b.None? <==> old(View()) == []
      ensures b.None? ==> bytes == old(bytes) && limits == old(limits)
      ensures b.Some? ==>
        && [b.value] + View() == old(View()) && |old(bytes)| > 0 && bytes == old(bytes)[1..]
        && AtLeast(old(limits), 1) && limits == Reduced(old(limits), 1)
    {
      var data := Transfer(1);
      if |data| == 0 {
        ReducedByNone(old(limits));
        b := None;
      } else {
        assert data == [data[0]];
        b := Some(data[0]);
      }
    }
  }

  /** The least of n and the remaining lengths. */
  function Limit(limits: seq<Option<nat>>, n: nat): (r: nat)
    ensures r <= n
  {
    if |limits| == 0 then n
    else
      var inner := Limit(limits[1..], n);
      if limits[0].Some? then Min(limits[0].value, inner) else inner
  }

  ghost predicate AtLeast(limits: seq<Option<nat>>, n: nat)
  {
    forall i :: 0 <= i < |limits| ==> limits[i].Some? ==> limits[i].value >= n
  }

  function Reduced(limits: seq<Option<nat>>, n: nat): (r: seq<Option<nat>>)
    requires AtLeast(limits, n)
    ensures |r| == |limits|
  {
    seq(|limits|, i requires 0 <= i < |limits| => if limits[i].Some? then Some(limits[i].value - n) else None)
  }

  lemma {:induction false} LimitIsLeast(limits: seq<Option<nat>>, n: nat)
    ensures AtLeast(limits, Limit(limits, n))
  {
    if |limits| > 0 {
      LimitIsLeast(limits[1..], n);
      forall i | 0 <= i < |limits| && limits[i].Some?
        ensures limits[i].value >= Limit(limits, n)
      {
        if i > 0 { assert limits[i] == limits[1..][i - 1]; }
      }
    }
  }

  lemma {:induction false} LimitReduced(limits: seq<Option<nat>>, n: nat, k: nat)
    requires AtLeast(limits, k) && k <= n
    ensures Limit(Reduced(limits, k), n - k) == Limit(limits, n) - k
  {
    if |limits| > 0 {
      assert AtLeast(limits[1..], k) by {
        forall i | 0 <= i < |limits[1..]| && limits[1..][i].Some?
          ensures limits[1..][i].value >= k
        {
          assert limits[i + 1] == limits[1..][i];
        }
      }
      LimitReduced(limits[1..], n, k);
      assert Reduced(limits, k)[1..] == Reduced(limits[1..], k);
    }
  }

  lemma ReducedByNone(limits: seq<Option<nat>>)
    ensures AtLeast(limits, 0) && Reduced(limits, 0) == limits
  {
  }

  lemma ReducedTwice(limits: seq<Option<nat>>, a: nat, b: nat)
    requires AtLeast(limits, a) && AtLeast(Reduced(limits, a), b)
    ensures AtLeast(limits, a + b) && Reduced(Reduced(limits, a), b) == Reduced(limits, a + b)
  {
    assert AtLeast(limits, a + b) by {
      forall i | 0 <= i < |limits| && limits[i].Some?
        ensures limits[i].value >= a + b
      {
        assert Reduced(limits, a)[i].value >= b;
      }
    }
    assert Reduced(Reduced(limits, a), b) == Reduced(limits, a + b);
  }

  // ------------------------------------------------------------------
  // Lengths

  function BytePrecision(n: nat): (c: nat)
    ensures c == 0 <==> n == 0
  {
    if n == 0 then 0 else 1 + BytePrecision(n / 256)
  }

  /** The last count bytes of n, highest first. */
  function BytesOf(n: nat, count: nat): (b: seq<byte>)
    ensures |b| == count
  {
    if count == 0 then [] else BytesOf(n / 256, count - 1) + [n % 256]
  }

  function FromBytes(b: seq<byte>): (n: nat)
  {
    if |b| == 0 then 0 else FromBytes(b[..|b| - 1]) * 256 + b[|b| - 1]
  }

  lemma {:induction false} FromBytesOf(n: nat, count: nat)
    requires count >= BytePrecision(n)
    ensures FromBytes(BytesOf(n, count)) == n
  {
    if count > 0 {
      FromBytesOf(n / 256, count - 1);
      assert BytesOf(n, count)[..count - 1] == BytesOf(n / 256, count - 1);
    }
  }

  lemma {:induction false} FromBytesAppend(a: seq<byte>, b: byte)
    ensures FromBytes(a + [b]) == FromBytes(a) * 256 + b
  {
    assert (a + [b])[..|a|] == a;
  }

  lemma {:induction false} FromBytesMonotone(a: seq<byte>, b: seq<byte>)
    ensures FromBytes(a) <= FromBytes(a + b)
    decreases |b|
  {
    if |b| == 0 {
      assert a + b == a;
    } else {
      FromBytesMonotone(a, b[..|b| - 1]);
      assert a + b == (a + b[..|b| - 1]) + [b[|b| - 1]];
      FromBytesAppend(a + b[..|b| - 1], b[|b| - 1]);
    }
  }

  /** No form with fewer octets has so large a value. */
  lemma {:induction false} PrecisionIsLeast(b: seq<byte>)
    ensures BytePrecision(FromBytes(b)) <= |b|
  {
    if |b| > 0 {
      PrecisionIsLeast(b[..|b| - 1]);
    }
  }

  /** Eight times a byte taken off an lword leaves nothing. */
  lemma PrecisionOfLword(n: nat)
    requires n < LWORD_LIMIT
    ensures BytePrecision(n) <= 8
  {
    var a := n / 256; var b := a / 256; var c := b / 256; var d := c / 256;
    assert d < 0x1_0000_0000;
    var e := d / 256; var f := e / 256; var g := f / 256;
    assert g < 256 && g / 256 == 0;
    assert BytePrecision(g) <= 1;
    assert BytePrecision(f) <= 2;
    assert BytePrecision(e) <= 3;
    assert BytePrecision(d) <= 4;
    assert BytePrecision(c) <= 5;
    assert BytePrecision(b) <= 6;
    assert BytePrecision(a) <= 7;
  }

  /** The octets that DERLengthEncode writes: section 8.1.3 of X.690, shortest form. */
  function LengthOctets(length: nat): (octets: seq<byte>)
    requires length < LWORD_LIMIT
  {
    PrecisionOfLword(length);
    if length <= 0x7f then [length] else [0x80 + BytePrecision(length)] + BytesOf(length, BytePrecision(length))
  }

  method DERLengthEncode(bt: ByteQueue, length: nat) returns (i: nat)
    requires length < LWORD_LIMIT
    modifies bt`bytes
    ensures bt.bytes == old(bt.bytes) + LengthOctets(length) && i == |LengthOctets(length)|
  {
    hide BytePrecision, BytesOf;
    i := 0;
    if length <= 0x7f {
      bt.Put([length]);
      i := i + 1;
    } else {
      PrecisionOfLword(length);
      var precision := BytePrecision(length);
      bt.Put([0x80 + precision]);
      i := i + 1;
      var j: nat := precision;
      NoBytes(length, precision);
      assert old(bt.bytes) + [0x80 + precision] + [] == old(bt.bytes) + [0x80 + precision];
      while j != 0
        invariant j <= precision && i == 1 + (precision - j)
        invariant bt.bytes == old(bt.bytes) + [0x80 + precision] + BytesOf(Shr(length, 8 * j), precision - j)
        decreases j
      {
        ByteShifted(length, j, precision - j);
        assert old(bt.bytes) + [0x80 + precision] + BytesOf(Shr(length, 8 * (j - 1)), precision - j + 1)
            == old(bt.bytes) + [0x80 + precision] + BytesOf(Shr(length, 8 * j), precision - j) + [Shr(length, 8 * (j - 1)) % 256];
        bt.Put([Shr(length, 8 * (j - 1)) % 256]);
        i := i + 1;
        j := j - 1;
      }
      assert Shr(length, 0) == length;
      assert old(bt.bytes) + [0x80 + precision] + BytesOf(length, precision) == old(bt.bytes) + LengthOctets(length);
    }
  }

  lemma NoBytes(length: nat, precision: nat)
    ensures BytesOf(Shr(length, 8 * precision), 0) == []
  {
  }

  lemma ByteShifted(n: nat, j: nat, count: nat)
    requires j > 0
    ensures BytesOf(Shr(n, 8 * (j - 1)), count + 1) == BytesOf(Shr(n, 8 * j), count) + [Shr(n, 8 * (j - 1)) % 256]
  {
    hide Shr;
    var low := Shr(n, 8 * (j - 1));
    ShrShr(n, 8 * (j - 1), 8);
    ShrIsDiv(low, 8);
    Pow2Eight();
  }

  lemma {:induction false} BytesOfByte(n: nat, count: nat, i: nat)
    requires i < count
    ensures BytesOf(n, count)[i] == Shr(n, 8 * (count - 1 - i)) % 256
    decreases count
  {
    hide Shr;
    if i == count - 1 {
      NoBits(n);
    } else {
      BytesOfByte(n / 256, count - 1, i);
      ShrShr(n, 8, 8 * (count - 2 - i));
      ShrIsDiv(n, 8);
      Pow2Eight();
    }
  }

  lemma NoBits(n: nat)
    ensures Shr(n, 0) == n
  {
  }

  lemma {:induction false} PrecisionBounds(n: nat)
    requires n > 0
    ensures BytePrecision(n) > 0 && Pow2(8 * (BytePrecision(n) - 1)) <= n < Pow2(8 * BytePrecision(n))
  {
    hide Pow2;
    Pow2First();
    Pow2Eight();
    if n >= 256 {
      var k := BytePrecision(n / 256);
      PrecisionBounds(n / 256);
      Pow2Add(8 * (k - 1), 8);
      Pow2Add(8 * k, 8);
    } else {
      assert n / 256 == 0 && BytePrecision(n) == 1;
    }
  }

  /** One octet below 0x80; otherwise 0x80 and their number, and then the fewest octets
      that hold the length, highest first. */
  lemma LengthForms(length: nat)
    requires length < LWORD_LIMIT
    ensures var octets := LengthOctets(length); var k := |octets| - 1;
      && (length <= 0x7f ==> octets == [length])
      && (length > 0x7f ==> 1 <= k <= 8 && octets[0] == 0x80 + k && Pow2(8 * (k - 1)) <= length < Pow2(8 * k))
      && (length > 0x7f ==> forall i :: 1 <= i <= k ==> octets[i] == Shr(length, 8 * (k - i)) % 256)
  {
    hide BytePrecision, BytesOf, Pow2, Shr;
    if length > 0x7f {
      var k := BytePrecision(length);
      PrecisionOfLword(length);
      PrecisionBounds(length);
      var octets := [0x80 + k] + BytesOf(length, k);
      assert LengthOctets(length) == octets;
      forall i | 1 <= i <= k
        ensures octets[i] == Shr(length, 8 * (k - i)) % 256
      {
        BytesOfByte(length, k, i - 1);
      }
    }
  }

  datatype LengthForm = Truncated | Overflow | Definite(length: nat) | Indefinite

  /** What the octets at the front mean, and how many of them were read. */
  function Decode(octets: seq<byte>): (r: (LengthForm, nat))
    ensures r.1 <= |octets|
  {
    if |octets| == 0 then (Truncated, 0)
    else if octets[0] < 0x80 then (Definite(octets[0]), 1)
    else if octets[0] == 0x80 then (Indefinite, 1)
    else
      var r := DecodeBytes(octets[1..], octets[0] - 0x80, 0);
      (r.0, 1 + r.1)
  }

  /** The remaining octets of the long form, with the overflow test before each. */
  function DecodeBytes(octets: seq<byte>, count: nat, length: nat): (r: (LengthForm, nat))
    ensures r.1 <= |octets| && !r.0.Indefinite?
    decreases count
  {
    if count == 0 then (Definite(length), 0)
    else if length >= 0x100_0000_0000_0000 then (Overflow, 0)
    else if |octets| == 0 then (Truncated, 0)
    else
      var r := DecodeBytes(octets[1..], count - 1, length * 256 + octets[0]);
      (r.0, 1 + r.1)
  }

  method BERLengthDecode(bt: ByteQueue) returns (form: LengthForm)
    modifies bt
    ensures form == Decode(old(bt.View())).0
    ensures (form.Definite? || form.Indefinite?) ==>
      var n := Decode(old(bt.View())).1;
      && n <= |old(bt.View())| && bt.View() == old(bt.View())[n..]
      && n <= |old(bt.bytes)| && bt.bytes == old(bt.bytes)[n..]
      && AtLeast(old(bt.limits), n) && bt.limits == Reduced(old(bt.limits), n)
  {
    ghost var view := bt.View();
    var b := bt.Get();
    if b.None? {
      return Truncated;
    }
    assert view[1..] == bt.View();
    if b.value < 0x80 {
      return Definite(b.value);
    }
    var lengthBytes: nat := b.value - 0x80;
    if lengthBytes == 0 {
      return Indefinite;
    }
    var length: nat := 0;
    ghost var n := 1;
    while lengthBytes != 0
      invariant n <= |view| && bt.View() == view[n..]
      invariant n <= |old(bt.bytes)| && bt.bytes == old(bt.bytes)[n..]
      invariant AtLeast(old(bt.limits), n) && bt.limits == Reduced(old(bt.limits), n)
      invariant var r := DecodeBytes(view[n..], lengthBytes, length); Decode(view) == (r.0, n + r.1)
      decreases lengthBytes
    {
      if length >= 0x100_0000_0000_0000 {
        return Overflow;
      }
      ghost var before := bt.limits;
      b := bt.Get();
      if b.None? {
        return Truncated;
      }
      ReducedTwice(old(bt.limits), n, 1);
      assert view[n..][1..] == view[n + 1..];
      length := length * 256 + b.value;
      lengthBytes := lengthBytes - 1;
      n := n + 1;
    }
    return Definite(length);
  }

  /** The long form is read whole, or overflows exactly if the value is no lword. */
  lemma {:induction false} LongForm(done: seq<byte>, octets: seq<byte>, rest: seq<byte>)
    requires FromBytes(done) < LWORD_LIMIT
    ensures FromBytes(done + octets) < LWORD_LIMIT ==>
      DecodeBytes(octets + rest, |octets|, FromBytes(done)) == (Definite(FromBytes(done + octets)), |octets|)
    ensures FromBytes(done + octets) >= LWORD_LIMIT ==> DecodeBytes(octets + rest, |octets|, FromBytes(done)).0 == Overflow
    decreases |octets|
  {
    if |octets| == 0 {
      assert done + octets == done;
    } else {
      var b := octets[0];
      FromBytesAppend(done, b);
      FromBytesMonotone(done + [b], octets[1..]);
      assert (done + [b]) + octets[1..] == done + octets;
      assert (octets + rest)[1..] == octets[1..] + rest;
      if FromBytes(done) < 0x100_0000_0000_0000 {
        LongForm(done + [b], octets[1..], rest);
      }
    }
  }

  lemma DecodeLong(octets: seq<byte>, rest: seq<byte>)
    requires 0 < |octets| < 0x80
    ensures var r := DecodeBytes(octets + rest, |octets|, 0);
      Decode([0x80 + |octets|] + octets + rest) == (r.0, 1 + r.1)
  {
    hide DecodeBytes;
    var all := [0x80 + |octets|] + octets + rest;
    assert all[1..] == octets + rest;
  }

  /** Long forms with leading zeros are read as well; the guard refuses exactly the
      values that are no lword. */
  lemma LongFormDecodes(octets: seq<byte>, rest: seq<byte>)
    requires 0 < |octets| < 0x80
    ensures var r := Decode([0x80 + |octets|] + octets + rest);
      && (FromBytes(octets) < LWORD_LIMIT ==> r == (Definite(FromBytes(octets)), 1 + |octets|))
      && (FromBytes(octets) >= LWORD_LIMIT ==> r.0 == Overflow)
  {
    hide FromBytes, DecodeBytes, Decode;
    NoValue();
    assert [] + octets == octets;
    DecodeLong(octets, rest);
    LongForm([], octets, rest);
  }

  /** BERLengthDecode inverts DERLengthEncode for every 64-bit length. */
  lemma LengthRoundTrip(length: nat, rest: seq<byte>)
    requires length < LWORD_LIMIT
    ensures Decode(LengthOctets(length) + rest) == (Definite(length), |LengthOctets(length)|)
  {
    hide BytePrecision, BytesOf, FromBytes, DecodeBytes;
    if length > 0x7f {
      PrecisionOfLword(length);
      FromBytesOf(length, BytePrecision(length));
      LongFormDecodes(BytesOf(length, BytePrecision(length)), rest);
    }
  }

  lemma NoValue()
    ensures FromBytes([]) == 0
  {
  }

  /** DERLengthEncode writes no more octets than any other form of the length has. */
  lemma ShortestLength(length: nat, octets: seq<byte>)
    requires length < LWORD_LIMIT && Decode(octets) == (Definite(length), |octets|)
    ensures |LengthOctets(length)| <= |octets|
  {
    if octets[0] >= 0x80 {
      var count := octets[0] - 0x80;
      DecodedCount(octets[1..], count, 0);
      LongForm([], octets[1..], []);
      assert [] + octets[1..] == octets[1..] && octets[1..] + [] == octets[1..];
      PrecisionIsLeast(octets[1..]);
    }
  }

  lemma {:induction false} DecodedCount(octets: seq<byte>, count: nat, length: nat)
    requires DecodeBytes(octets, count, length).0.Definite?
    ensures DecodeBytes(octets, count, length).1 == count
    decreases count
  {
    if count > 0 {
      DecodedCount(octets[1..], count - 1, length * 256 + octets[0]);
    }
  }

  lemma {:induction false} DecodeBytesExtends(octets: seq<byte>, rest: seq<byte>, count: nat, length: nat)
    requires !DecodeBytes(octets, count, length).0.Truncated?
    ensures DecodeBytes(octets + rest, count, length) == DecodeBytes(octets, count, length)
    decreases count
  {
    if count > 0 && length < 0x100_0000_0000_0000 {
      assert (octets + rest)[1..] == octets[1..] + rest;
      DecodeBytesExtends(octets[1..], rest, count - 1, length * 256 + octets[0]);
    }
  }

  /** What follows the length octets does not matter. */
  lemma DecodeExtends(octets: seq<byte>, rest: seq<byte>)
    requires !Decode(octets).0.Truncated?
    ensures Decode(octets + rest) == Decode(octets)
  {
    hide DecodeBytes;
    assert (octets + rest)[1..] == octets[1..] + rest;
    if octets[0] > 0x80 {
      DecodeBytesExtends(octets[1..], rest, octets[0] - 0x80, 0);
    }
  }

  lemma {:induction false} DecodeBytesPrefix(octets: seq<byte>, count: nat, length: nat)
    requires DecodeBytes(octets, count, length).0.Definite?
    ensures var n := DecodeBytes(octets, count, length).1;
      DecodeBytes(octets[..n], count, length) == DecodeBytes(octets, count, length)
    decreases count
  {
    if count > 0 {
      var n := DecodeBytes(octets, count, length).1;
      assert octets[..n][1..] == octets[1..][..n - 1];
      DecodeBytesPrefix(octets[1..], count - 1, length * 256 + octets[0]);
    }
  }

  /** The octets that were read are themselves a form of the length. */
  lemma DecodePrefix(octets: seq<byte>)
    requires Decode(octets).0.Definite?
    ensures var n := Decode(octets).1; 0 < n && Decode(octets[..n]) == Decode(octets)
  {
    hide DecodeBytes;
    if octets[0] > 0x80 {
      var n := Decode(octets).1;
      assert octets[..n][1..] == octets[1..][..n - 1];
      DecodeBytesPrefix(octets[1..], octets[0] - 0x80, 0);
    }
  }
}

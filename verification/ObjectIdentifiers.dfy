/** OID of asn.cpp: object identifiers as octets, the arcs from the third on in base 128. */
module ObjectIdentifiers {
  import opened Bits
  import opened ByteStrings
  import opened BerLengths
  import opened Wrappers

  /** word32 has 32 bits. */
  const WORD32_LIMIT: nat := 0x1_0000_0000

  const OBJECT_IDENTIFIER: byte := 0x06

  /** The number of septets after the first one. */
  function MoreSeptets(v: nat): (k: nat)
  {
    if v < 128 then 0 else 1 + MoreSeptets(v / 128)
  }

  /** The last count septets of v, each marked as not the last. */
  function Continuing(v: nat, count: nat): (octets: seq<byte>)
    ensures |octets| == count
  {
    if count == 0 then [] else Continuing(v / 128, count - 1) + [0x80 + v % 128]
  }

  function ValueOctets(v: nat): (octets: seq<byte>)
  {
    Continuing(v / 128, MoreSeptets(v)) + [v % 128]
  }

  /** The shift with which EncodeValue begins, for a value of so many bits. */
  function FirstShift(precision: nat): (i: nat)
  {
    ((if precision < 7 then 7 else precision) + 6) / 7 * 7 - 7
  }

  lemma OneMoreSeptet(precision: nat)
    requires precision > 0
    ensures FirstShift(7 + precision) == 7 + FirstShift(precision)
  {
  }

  /** The loop bound of EncodeValue counts septets. */
  lemma {:induction false} BitsAndSeptets(v: nat)
    ensures FirstShift(BitCount(v)) == 7 * MoreSeptets(v)
  {
    hide BitCount, FirstShift;
    if v >= 128 {
      BitsAndSeptets(v / 128);
      SevenBits(v);
      BitCountPositive(v / 128);
      OneMoreSeptet(BitCount(v / 128));
    } else {
      OneSeptet(v);
    }
  }

  lemma OneSeptet(v: nat)
    requires v < 128
    ensures FirstShift(BitCount(v)) == 0
  {
    hide BitCount;
    assert Pow2(7) == 2 * Pow2(6) == 4 * Pow2(5) == 8 * Pow2(4);
    Pow2Four();
    BitCountUpper(v, 7);
  }

  lemma SevenBits(v: nat)
    requires v >= 128
    ensures BitCount(v) == 7 + BitCount(v / 128)
  {
    var a := v / 2; var b := a / 2; var c := b / 2; var d := c / 2; var e := d / 2; var f := e / 2;
    assert f / 2 == v / 128;
    assert BitCount(v) == 1 + BitCount(a);
    assert BitCount(a) == 1 + BitCount(b);
    assert BitCount(b) == 1 + BitCount(c);
    assert BitCount(c) == 1 + BitCount(d);
    assert BitCount(d) == 1 + BitCount(e);
    assert BitCount(e) == 1 + BitCount(f);
  }

  method EncodeValue(bt: ByteQueue, v: nat)
    requires v < WORD32_LIMIT
    modifies bt`bytes
    ensures bt.bytes == old(bt.bytes) + ValueOctets(v)
  {
    hide BitCount, Continuing, Shr, FirstShift;
    BitsAndSeptets(v);
    var i: nat := FirstShift(BitCount(v));
    ghost var k := MoreSeptets(v);
    ghost var j := k;
    assert Continuing(Shr(v, 7 * (k + 1)), 0) == [];
    assert old(bt.bytes) + [] == old(bt.bytes);
    while i != 0
      invariant i == 7 * j && j <= k
      invariant bt.bytes == old(bt.bytes) + Continuing(Shr(v, 7 * (j + 1)), k - j)
      decreases i
    {
      SeptetShifted(v, j, k - j);
      AppendAssociative(old(bt.bytes), Continuing(Shr(v, 7 * (j + 1)), k - j), [0x80 + Shr(v, i) % 128]);
      bt.Put([0x80 + Shr(v, i) % 128]);
      i := i - 7;
      j := j - 1;
    }
    assert Shr(v, 7) == v / 128 by { SeptetsDropped(v); }
    AppendAssociative(old(bt.bytes), Continuing(v / 128, k), [v % 128]);
    bt.Put([v % 128]);
  }

  lemma SeptetsDropped(v: nat)
    ensures Shr(v, 7) == v / 128
  {
    ShrIsDiv(v, 7);
    assert Pow2(7) == 2 * Pow2(6) == 4 * Pow2(5) == 8 * Pow2(4);
    Pow2Four();
  }

  lemma SeptetShifted(v: nat, j: nat, count: nat)
    requires j > 0
    ensures Continuing(Shr(v, 7 * j), count + 1) == Continuing(Shr(v, 7 * (j + 1)), count) + [0x80 + Shr(v, 7 * j) % 128]
  {
    hide Shr;
    ShrShr(v, 7 * j, 7);
    SeptetsDropped(Shr(v, 7 * j));
  }

  lemma {:induction false} ContinuingSeptet(v: nat, count: nat, i: nat)
    requires i < count
    ensures Continuing(v, count)[i] == 0x80 + Shr(v, 7 * (count - 1 - i)) % 128
    decreases count
  {
    hide Shr;
    if i == count - 1 {
      NoBits(v);
    } else {
      ContinuingSeptet(v / 128, count - 1, i);
      ShrShr(v, 7, 7 * (count - 2 - i));
      SeptetsDropped(v);
    }
  }

  lemma {:induction false} SeptetBounds(v: nat)
    ensures v < Pow2(7 * (MoreSeptets(v) + 1)) && (MoreSeptets(v) > 0 ==> v >= Pow2(7 * MoreSeptets(v)))
  {
    hide Pow2;
    Pow2Four();
    Pow2Step(5);
    Pow2Step(6);
    Pow2Step(7);
    if v >= 128 {
      var k := MoreSeptets(v / 128);
      SeptetBounds(v / 128);
      Pow2Add(7 * (k + 1), 7);
      if k > 0 { Pow2Add(7 * k, 7); }
    }
  }

  /** The fewest septets that hold the value, highest first, all but the last marked:
      section 8.19.2 of X.690. */
  lemma ValueSeptets(v: nat)
    ensures var octets := ValueOctets(v); var k := |octets| - 1;
      && k >= 0 && v < Pow2(7 * (k + 1)) && (k > 0 ==> v >= Pow2(7 * k))
      && octets[k] == v % 128
      && forall i :: 0 <= i < k ==> octets[i] == 0x80 + Shr(v, 7 * (k - i)) % 128
  {
    hide Continuing, MoreSeptets, Pow2, Shr;
    var k := MoreSeptets(v);
    SeptetBounds(v);
    forall i | 0 <= i < k
      ensures Continuing(v / 128, k)[i] == 0x80 + Shr(v, 7 * (k - i)) % 128
    {
      ContinuingSeptet(v / 128, k, i);
      ShrShr(v, 7, 7 * (k - 1 - i));
      SeptetsDropped(v);
    }
  }

  datatype Arc = Arc(value: nat, size: nat)

  /** DecodeValue from v on: the value and the number of octets read, or an error for
      octets that end or a value about to overflow. */
  function DecodeValueFrom(octets: seq<byte>, v: nat): (r: Option<Arc>)
    ensures r.Some? ==> 0 < r.value.size <= |octets|
  {
    if |octets| == 0 || v >= 0x200_0000 then None
    else
      var next := v * 128 + octets[0] % 128;
      if octets[0] < 0x80 then Some(Arc(next, 1))
      else
        match DecodeValueFrom(octets[1..], next)
        case None => None
        case Some(r) => Some(Arc(r.value, 1 + r.size))
  }

  method DecodeValue(bt: ByteQueue) returns (r: Option<Arc>)
    modifies bt
    ensures r == DecodeValueFrom(old(bt.View()), 0)
    ensures r.Some? ==> bt.View() == old(bt.View())[r.value.size..]
  {
    ghost var view := bt.View();
    var i: nat, v: nat := 0, 0;
    while true
      invariant i <= |view| && bt.View() == view[i..]
      invariant DecodeValueFrom(view, 0) == (match DecodeValueFrom(view[i..], v) case None => None case Some(x) => Some(Arc(x.value, i + x.size)))
      decreases |view| - i
    {
      var b := bt.Get();
      if b.None? {
        return None;
      }
      assert view[i..][1..] == view[i + 1..];
      i := i + 1;
      if v >= 0x200_0000 {
        return None;
      }
      v := v * 128 + b.value % 128;
      if b.value < 0x80 {
        return Some(Arc(v, i));
      }
    }
  }

  /** What septets that continue add to a value. */
  function Accumulated(v: nat, octets: seq<byte>): (n: nat)
    ensures n >= v
    decreases |octets|
  {
    if |octets| == 0 then v else Accumulated(v * 128 + octets[0] % 128, octets[1..])
  }

  ghost predicate AllContinue(octets: seq<byte>)
  {
    forall i :: 0 <= i < |octets| ==> octets[i] >= 0x80
  }

  lemma {:induction false} AccumulatedAppend(v: nat, octets: seq<byte>, b: byte)
    ensures Accumulated(v, octets + [b]) == Accumulated(v, octets) * 128 + b % 128
    decreases |octets|
  {
    if |octets| == 0 {
      assert octets + [b] == [b] && [b][1..] == [];
      assert Accumulated(v * 128 + b % 128, []) == v * 128 + b % 128;
    } else {
      assert (octets + [b])[1..] == octets[1..] + [b];
      AccumulatedAppend(v * 128 + octets[0] % 128, octets[1..], b);
    }
  }

  /** A value is read exactly if it fits into 32 bits, leading zeros or not. */
  lemma {:induction false} ReadValue(octets: seq<byte>, last: byte, rest: seq<byte>, v: nat)
    requires AllContinue(octets) && last < 0x80
    ensures var n := Accumulated(v, octets + [last]);
      DecodeValueFrom(octets + [last] + rest, v) == if n < WORD32_LIMIT then Some(Arc(n, |octets| + 1)) else None
    decreases |octets|
  {
    var all := octets + [last] + rest;
    if |octets| == 0 {
      assert all == [last] + rest && octets + [last] == [last] && [last][1..] == [];
      assert Accumulated(v * 128 + last, []) == v * 128 + last;
    } else {
      var next := v * 128 + octets[0] % 128;
      assert all[1..] == octets[1..] + [last] + rest;
      assert (octets + [last])[1..] == octets[1..] + [last];
      ReadValue(octets[1..], last, rest, next);
      AtLeastNext(v, octets + [last]);
    }
  }

  lemma AtLeastNext(v: nat, octets: seq<byte>)
    requires |octets| > 0
    ensures Accumulated(v, octets) >= 128 * v
  {
  }

  lemma {:induction false} ContinuingValue(v: nat, count: nat)
    requires count > MoreSeptets(v) || v == 0
    ensures AllContinue(Continuing(v, count)) && Accumulated(0, Continuing(v, count)) == v
  {
    if count > 0 {
      ContinuingValue(v / 128, count - 1);
      AccumulatedAppend(0, Continuing(v / 128, count - 1), 0x80 + v % 128);
    }
  }

  /** DecodeValue inverts EncodeValue for every 32-bit value. */
  lemma ValueRoundTrip(v: nat, rest: seq<byte>)
    requires v < WORD32_LIMIT
    ensures DecodeValueFrom(ValueOctets(v) + rest, 0) == Some(Arc(v, |ValueOctets(v)|))
  {
    var more := Continuing(v / 128, MoreSeptets(v));
    ContinuingValue(v / 128, MoreSeptets(v));
    AccumulatedAppend(0, more, v % 128);
    ReadValue(more, v % 128, rest, 0);
  }

  // ------------------------------------------------------------------
  // Whole identifiers

  ghost predicate Words(values: seq<nat>)
  {
    forall i :: 0 <= i < |values| ==> values[i] < WORD32_LIMIT
  }

  function AllOctets(values: seq<nat>): (octets: seq<byte>)
  {
    if |values| == 0 then [] else AllOctets(values[..|values| - 1]) + ValueOctets(values[|values| - 1])
  }

  /** The first two arcs share a byte, whatever they are. */
  function Content(values: seq<nat>): (octets: seq<byte>)
    requires |values| >= 2
  {
    [(values[0] * 40 + values[1]) % 256] + AllOctets(values[2..])
  }

  method DEREncode(bt: ByteQueue, values: seq<nat>)
    requires |values| >= 2 && Words(values) && |Content(values)| < LWORD_LIMIT
    modifies bt`bytes
    ensures bt.bytes == old(bt.bytes) + [OBJECT_IDENTIFIER] + LengthOctets(|Content(values)|) + Content(values)
  {
    hide ValueOctets, LengthOctets;
    var temp := new ByteQueue([]);
    temp.Put([(values[0] * 40 + values[1]) % 256]);
    ghost var first := temp.bytes;
    assert first == [(values[0] * 40 + values[1]) % 256];
    assert values[2..][..0] == [] && first + [] == first;
    for i := 2 to |values|
      invariant temp.bytes == first + AllOctets(values[2..][..i - 2]) && bt.bytes == old(bt.bytes)
    {
      assert values[2..][..i - 1][..i - 2] == values[2..][..i - 2] && values[2..][i - 2] == values[i];
      AppendAssociative(first, AllOctets(values[2..][..i - 2]), ValueOctets(values[i]));
      EncodeValue(temp, values[i]);
    }
    assert values[2..][..|values| - 2] == values[2..];
    assert temp.bytes == Content(values);
    bt.Put([OBJECT_IDENTIFIER]);
    var n := DERLengthEncode(bt, |temp.bytes|);
    bt.Put(temp.bytes);
  }

  /** The arcs in so many octets; a value that runs over their end is an error. */
  function DecodeValues(octets: seq<byte>, length: nat): (r: Option<seq<nat>>)
    ensures r.Some? ==> length <= |octets|
    decreases length
  {
    if length == 0 then Some([])
    else
      match DecodeValueFrom(octets, 0)
      case None => None
      case Some(v) =>
        if v.size > length then None
        else
          match DecodeValues(octets[v.size..], length - v.size)
          case None => None
          case Some(more) => Some([v.value] + more)
  }

  function Decoded(view: seq<byte>): (r: Option<seq<nat>>)
  {
    if |view| == 0 || view[0] != OBJECT_IDENTIFIER then None
    else
      var d := Decode(view[1..]);
      if !d.0.Definite? || d.0.length < 1 || |view| <= 1 + d.1 then None
      else
        var b := view[1 + d.1];
        match DecodeValues(view[2 + d.1..], d.0.length - 1)
        case None => None
        case Some(more) => Some([b / 40, b % 40] + more)
  }

  /** The octets of an identifier: its tag, its length and as many more. */
  function EncodedSize(view: seq<byte>): (n: nat)
    requires Decoded(view).Some?
    ensures n <= |view|
  {
    var d := Decode(view[1..]);
    1 + d.1 + d.0.length
  }

  /** The tag and the length of an identifier. */
  method DecodeHeader(bt: ByteQueue) returns (length: Option<nat>)
    modifies bt
    ensures var view := old(bt.View());
      if |view| == 0 || view[0] != OBJECT_IDENTIFIER then length.None?
      else
        var d := Decode(view[1..]);
        if !d.0.Definite? || d.0.length < 1 then length.None?
        else length == Some(d.0.length) && 1 + d.1 <= |view| && bt.View() == view[1 + d.1..]
  {
    hide Decode;
    ghost var view := bt.View();
    var b := bt.Get();
    if b.None? || b.value != OBJECT_IDENTIFIER {
      return None;
    }
    assert bt.View() == view[1..];
    var form := BERLengthDecode(bt);
    length := if !form.Definite? || form.length < 1 then None else Some(form.length);
  }

  /** Reads one identifier, and nothing behind it. */
  method BERDecode(bt: ByteQueue) returns (values: Option<seq<nat>>)
    modifies bt
    ensures values == Decoded(old(bt.View()))
    ensures values.Some? ==> bt.View() == old(bt.View())[EncodedSize(old(bt.View()))..]
  {
    hide Decode, DecodeValues;
    ghost var view := bt.View();
    var length := DecodeHeader(bt);
    if length.None? {
      return None;
    }
    ghost var n := 1 + Decode(view[1..]).1;
    var b := bt.Get();
    if b.None? {
      return None;
    }
    assert bt.View() == view[n + 1..] && b.value == view[n];
    DropDrop(view, n + 1, length.value - 1);
    var more := DecodeArcs(bt, length.value - 1);
    values := if more.None? then None else Some([b.value / 40, b.value % 40] + more.value);
  }

  lemma DropDrop(view: seq<byte>, i: nat, j: nat)
    ensures i + j <= |view| ==> view[i..][j..] == view[i + j..]
  {
  }

  /** The arcs from the third on. */
  method DecodeArcs(bt: ByteQueue, size: nat) returns (arcs: Option<seq<nat>>)
    modifies bt
    ensures arcs == DecodeValues(old(bt.View()), size)
    ensures arcs.Some? ==> bt.View() == old(bt.View())[size..]
  {
    hide DecodeValueFrom;
    var length := size;
    var done: seq<nat> := [];
    ghost var view := bt.View();
    ghost var all := DecodeValues(view, size);
    assert all.Some? ==> [] + all.value == all.value;
    while length > 0
      invariant 0 <= length <= size && size - length <= |view| && bt.View() == view[size - length..]
      invariant match DecodeValues(bt.View(), length) case None => all.None? case Some(more) => all == Some(done + more)
      decreases length
    {
      var v := DecodeValue(bt);
      if v.None? || v.value.size > length {
        return None;
      }
      ghost var more := DecodeValues(bt.View(), length - v.value.size);
      assert more.Some? ==> done + ([v.value.value] + more.value) == (done + [v.value.value]) + more.value;
      done := done + [v.value.value];
      length := length - v.value.size;
    }
    assert done + [] == done;
    return Some(done);
  }

  lemma {:induction false} FirstValue(v: nat, values: seq<nat>)
    ensures AllOctets([v] + values) == ValueOctets(v) + AllOctets(values)
    decreases |values|
  {
    hide ValueOctets;
    if |values| == 0 {
      assert [v] + values == [v] && [v][..0] == [];
      assert AllOctets([v]) == [] + ValueOctets(v);
    } else {
      var front, last := values[..|values| - 1], values[|values| - 1];
      assert ([v] + values)[..|values|] == [v] + front;
      FirstValue(v, front);
      AppendAssociative(ValueOctets(v), AllOctets(front), ValueOctets(last));
    }
  }

  lemma {:induction false} ValuesRoundTrip(values: seq<nat>, rest: seq<byte>)
    requires Words(values)
    ensures DecodeValues(AllOctets(values) + rest, |AllOctets(values)|) == Some(values)
    decreases |values|
  {
    hide ValueOctets, DecodeValueFrom;
    if |values| > 0 {
      var v, more := values[0], values[1..];
      assert values == [v] + more;
      FirstValue(v, more);
      ValuesRoundTrip(more, rest);
      ValueRoundTrip(v, AllOctets(more) + rest);
      var octets := AllOctets(values) + rest;
      assert octets == ValueOctets(v) + (AllOctets(more) + rest);
      assert octets[|ValueOctets(v)|..] == AllOctets(more) + rest;
      assert |ValueOctets(v)| > 0 by { SomeOctets(v); }
    }
  }

  lemma SomeOctets(v: nat)
    ensures |ValueOctets(v)| > 0
  {
  }

  /** Decoding gives an identifier back exactly if its second arc is below 40 and the
      first two fit into a byte: not 2.40 or 2.999, for instance. */
  lemma OidRoundTrip(values: seq<nat>, rest: seq<byte>)
    requires |values| >= 2 && Words(values) && |Content(values)| < LWORD_LIMIT
    ensures var octets := [OBJECT_IDENTIFIER] + LengthOctets(|Content(values)|) + Content(values);
      var b := (values[0] * 40 + values[1]) % 256;
      && Decoded(octets + rest) == Some([b / 40, b % 40] + values[2..])
      && EncodedSize(octets + rest) == |octets|
      && (Decoded(octets + rest) == Some(values) <==> values[1] < 40 && values[0] * 40 + values[1] < 256)
  {
    hide Decode, LengthOctets, AllOctets;
    var c := Content(values);
    var length := LengthOctets(|c|);
    var b := (values[0] * 40 + values[1]) % 256;
    LengthRoundTrip(|c|, c + rest);
    ValuesRoundTrip(values[2..], rest);
    var view := [OBJECT_IDENTIFIER] + length + c + rest;
    assert view[1..] == length + (c + rest);
    assert view[1 + |length|] == c[0] == b;
    assert view[2 + |length|..] == AllOctets(values[2..]) + rest;
    assert values == [values[0], values[1]] + values[2..];
    SharedByte(values[0], values[1], values[2..]);
  }

  lemma SharedByte(x: nat, y: nat, more: seq<nat>)
    ensures var b := (x * 40 + y) % 256;
      [b / 40, b % 40] + more == [x, y] + more <==> y < 40 && x * 40 + y < 256
  {
    var b := (x * 40 + y) % 256;
    var s, t := [b / 40, b % 40] + more, [x, y] + more;
    assert s[0] == b / 40 && s[1] == b % 40 && t[0] == x && t[1] == y;
    if y < 40 && x * 40 + y < 256 {
      DivModUnique(b, 40, x, y);
    }
    assert b == 40 * (b / 40) + b % 40;
  }

  /** An identifier in use whose second arc is too large. */
  lemma LargeSecondArc()
    ensures Words([2, 100, 3]) && |Content([2, 100, 3])| < LWORD_LIMIT
    ensures Decoded([OBJECT_IDENTIFIER] + LengthOctets(|Content([2, 100, 3])|) + Content([2, 100, 3])) == Some([4, 20, 3])
  {
    hide Decoded, LengthOctets;
    var values := [2, 100, 3];
    assert values[2..] == [3] && [3][..0] == [];
    assert Content(values) == [180, 3];
    OidRoundTrip(values, []);
    assert [180 / 40, 180 % 40] + values[2..] == [4, 20, 3];
    var octets := [OBJECT_IDENTIFIER] + LengthOctets(|Content(values)|) + Content(values);
    assert octets + [] == octets;
  }

  /** The identifier 1.2.840.113549 of RSA Data Security. */
  method EncodeExample() returns (octets: seq<byte>)
    ensures octets == [0x06, 0x06, 0x2a, 0x86, 0x48, 0x86, 0xf7, 0x0d]
  {
    hide AllOctets, LengthOctets;
    ExampleContent();
    var bt := new ByteQueue([]);
    DEREncode(bt, [1, 2, 840, 113549]);
    LengthForms(6);
    octets := bt.bytes;
    assert [] + [OBJECT_IDENTIFIER] + [6] + [0x2a, 0x86, 0x48, 0x86, 0xf7, 0x0d]
        == [0x06, 0x06, 0x2a, 0x86, 0x48, 0x86, 0xf7, 0x0d];
  }

  lemma ExampleContent()
    ensures Content([1, 2, 840, 113549]) == [0x2a, 0x86, 0x48, 0x86, 0xf7, 0x0d]
  {
    hide ValueOctets;
    assert [1, 2, 840, 113549][2..] == [840, 113549] && [840, 113549][..1] == [840] && [840][..0] == [];
    ExampleValues();
    assert AllOctets([840]) == [] + ValueOctets(840) == ValueOctets(840);
    assert AllOctets([840, 113549]) == ValueOctets(840) + ValueOctets(113549);
  }

  lemma ExampleValues()
    ensures ValueOctets(840) == [0x86, 0x48] && ValueOctets(113549) == [0x86, 0xf7, 0x0d]
  {
  }
}

/** DERReencode of asn.cpp with its decoders and encoders: one BER value is read, and
    written with a definite length. */
module DerReencoding {
  import opened Bits
  import opened ByteStrings
  import opened BerLengths
  import opened Wrappers

  predicate IsConstructed(tag: byte) { tag / 0x20 % 2 == 1 }

  /** The flag is bit 5 of the tag: section 8.1.2.5 of X.690. */
  lemma ConstructedTags(tag: byte)
    ensures IsConstructed(tag) <==> Bit(tag, 5) == 1
    ensures tag < 0x20 ==> !IsConstructed(tag)
    ensures 0x20 <= tag < 0x40 ==> IsConstructed(tag)
  {
    hide Pow2;
    ShrIsDiv(tag, 5);
    Pow2Four();
    Pow2Step(5);
  }

  /** What DERReencode tells apart: a definite length, whose content it copies, or items
      up to the end-of-content octets.  Sections 8.1.3 and 8.1.5 of X.690. */
  datatype Item =
    | DefiniteItem(tag: byte, lengthOctets: seq<byte>, content: seq<byte>)
    | IndefiniteItem(tag: byte, items: seq<Item>)

  function Encoding(item: Item): (octets: seq<byte>)
  {
    match item
    case DefiniteItem(tag, lengthOctets, content) => [tag] + lengthOctets + content
    case IndefiniteItem(tag, items) => [tag, 0x80] + Encodings(items) + [0, 0]
  }

  function Encodings(items: seq<Item>): (octets: seq<byte>)
  {
    if |items| == 0 then [] else Encodings(items[..|items| - 1]) + Encoding(items[|items| - 1])
  }

  /** Items of indefinite length are constructed, and none of their parts looks like the
      end. */
  ghost predicate ValidItem(item: Item)
  {
    match item
    case DefiniteItem(tag, lengthOctets, content) => Decode(lengthOctets) == (Definite(|content|), |lengthOctets|)
    case IndefiniteItem(tag, items) => IsConstructed(tag) && forall i :: 0 <= i < |items| ==> ValidItem(items[i]) && !IsEnd(Encoding(items[i]))
  }

  predicate IsEnd(octets: seq<byte>) { |octets| >= 2 && octets[0] == 0 && octets[1] == 0 }

  ghost predicate Begins(octets: seq<byte>, prefix: seq<byte>)
  {
    |prefix| <= |octets| && octets[..|prefix|] == prefix
  }

  ghost predicate FirstOf(items: seq<Item>, all: seq<Item>)
  {
    |items| <= |all| && items == all[..|items|]
  }

  lemma AppendItem(items: seq<Item>, item: Item)
    ensures Encodings(items + [item]) == Encodings(items) + Encoding(item)
  {
    assert (items + [item])[..|items|] == items;
  }

  lemma NoItems()
    ensures Encodings([]) == []
  {
  }

  lemma {:induction false} EncodingsConcat(a: seq<Item>, b: seq<Item>)
    ensures Encodings(a + b) == Encodings(a) + Encodings(b)
    decreases |b|
  {
    hide Encoding, Encodings;
    if |b| == 0 {
      NoItems();
      assert b == [] && a + b == a;
    } else {
      var front, last := b[..|b| - 1], b[|b| - 1];
      assert b == front + [last] && a + b == (a + front) + [last];
      EncodingsConcat(a, front);
      AppendItem(a + front, last);
      AppendItem(front, last);
      AppendAssociative(Encodings(a), Encodings(front), Encoding(last));
    }
  }

  // ------------------------------------------------------------------
  // What is written

  /** A queue in memory is shorter than this. */
  const MEMORY_LIMIT: nat := 0x1000_0000_0000_0000

  /** DERGeneralEncoder::MessageEnd: tag, length, content. */
  function Definitely(tag: byte, content: seq<byte>): (octets: seq<byte>)
    requires |content| < LWORD_LIMIT
    ensures 0 < |octets| <= 10 + |content|
  {
    PrecisionOfLword(|content|);
    [tag] + LengthOctets(|content|) + content
  }

  function Reencoding(item: Item): (octets: seq<byte>)
    requires |Encoding(item)| < MEMORY_LIMIT
    ensures |octets| <= 10 * |Encoding(item)|
  {
    match item
    case DefiniteItem(tag, lengthOctets, content) => Definitely(tag, content)
    case IndefiniteItem(tag, items) => Definitely(tag, Reencodings(items))
  }

  function Reencodings(items: seq<Item>): (octets: seq<byte>)
    requires |Encodings(items)| < MEMORY_LIMIT
    ensures |octets| <= 10 * |Encodings(items)|
  {
    if |items| == 0 then []
    else Reencodings(items[..|items| - 1]) + Reencoding(items[|items| - 1])
  }

  lemma AppendReencoding(items: seq<Item>, item: Item)
    requires |Encodings(items)| + |Encoding(item)| < MEMORY_LIMIT
    ensures |Encodings(items + [item])| < MEMORY_LIMIT
    ensures Reencodings(items + [item]) == Reencodings(items) + Reencoding(item)
  {
    assert (items + [item])[..|items|] == items;
  }

  // ------------------------------------------------------------------
  // Decoders

  /** A queue with its open decoders: what can be read, what there is, what remains. */
  datatype Reading = Reading(view: seq<byte>, bytes: seq<byte>, limits: seq<Option<nat>>)

  ghost function State(source: ByteQueue): (r: Reading)
    reads source
  {
    Reading(source.View(), source.bytes, source.limits)
  }

  /** n bytes were read: gone from the queue, and taken off every remaining length. */
  ghost predicate Read(before: Reading, n: nat, after: Reading)
  {
    && n <= |before.view| && after.view == before.view[n..]
    && n <= |before.bytes| && after.bytes == before.bytes[n..]
    && AtLeast(before.limits, n) && after.limits == Reduced(before.limits, n)
  }

  lemma ReadNothing(a: Reading)
    ensures Read(a, 0, a)
  {
    ReducedByNone(a.limits);
  }

  lemma ReadTwice(a: Reading, m: nat, b: Reading, n: nat, c: Reading)
    requires Read(a, m, b) && Read(b, n, c)
    ensures Read(a, m + n, c)
  {
    ReducedTwice(a.limits, m, n);
    assert a.view[m..][n..] == a.view[m + n..] && a.bytes[m..][n..] == a.bytes[m + n..];
  }

  /** The limit that a decoder adds. */
  lemma {:induction false} LimitAdded(limits: seq<Option<nat>>, limit: Option<nat>, n: nat)
    ensures Limit(limits + [limit], n) == if limit.Some? then Min(limit.value, Limit(limits, n)) else Limit(limits, n)
    decreases |limits|
  {
    if |limits| == 0 {
      assert limits + [limit] == [limit];
      assert [limit][1..] == [];
    } else {
      assert (limits + [limit])[1..] == limits[1..] + [limit];
      LimitAdded(limits[1..], limit, n);
    }
  }

  lemma ReducedAdded(limits: seq<Option<nat>>, limit: Option<nat>, k: nat)
    requires AtLeast(limits, k) && (limit.Some? ==> limit.value >= k)
    ensures AtLeast(limits + [limit], k)
    ensures Reduced(limits + [limit], k) == Reduced(limits, k) + [if limit.Some? then Some(limit.value - k) else None]
  {
  }

  lemma AtLeastFront(limits: seq<Option<nat>>, limit: Option<nat>, k: nat)
    requires AtLeast(limits + [limit], k)
    ensures AtLeast(limits, k) && (limit.Some? ==> limit.value >= k)
  {
    assert forall i :: 0 <= i < |limits| ==> (limits + [limit])[i] == limits[i];
    assert (limits + [limit])[|limits|] == limit;
  }

  /** BERGeneralDecoder::Init: the tag and the length; only a constructed value may have
      an indefinite length. */
  method InitDecoder(source: ByteQueue, tag: byte) returns (form: LengthForm)
    modifies source
    ensures form.Definite? || form.Indefinite? ==>
      && |old(source.View())| > 0 && old(source.View())[0] == tag
      && var d := Decode(old(source.View())[1..]);
      && form == d.0 && (form.Indefinite? ==> IsConstructed(tag))
      && Read(old(State(source)), 1 + d.1, State(source))
    ensures |old(source.View())| > 0 && old(source.View())[0] == tag ==>
      var d := Decode(old(source.View())[1..]).0;
      d.Definite? || (d.Indefinite? && IsConstructed(tag)) ==> form == d
  {
    hide Decode, Reduced, AtLeast;
    ghost var before := State(source);
    var b := source.Get();
    if b.None? || b.value != tag {
      return Truncated;
    }
    ghost var middle := State(source);
    assert before.view[1..] == middle.view;
    assert Read(before, 1, middle);
    form := BERLengthDecode(source);
    if form.Indefinite? && !IsConstructed(tag) {
      return Truncated;
    }
    if form.Definite? || form.Indefinite? {
      assert Read(middle, Decode(middle.view).1, State(source));
      ReadTwice(before, 1, middle, Decode(middle.view).1, State(source));
    }
  }

  /** A definite decoder gives its content to the encoder, and ends if all of it came. */
  method CopyContent(source: ByteQueue, encoder: ByteQueue, length: nat) returns (ok: bool)
    requires source != encoder
    modifies source, encoder`bytes
    ensures ok <==> |old(source.View())| >= length
    ensures ok ==> Read(old(State(source)), length, State(source))
    ensures ok ==> encoder.bytes == old(encoder.bytes) + old(source.View())[..length]
  {
    hide Limit;
    ghost var before := State(source);
    LimitAdded(source.limits, Some(length), |source.bytes|);
    source.limits := source.limits + [Some(length)];
    ghost var limited := State(source);
    assert limited.view == before.view[..Min(length, |before.view|)];
    var data := source.Transfer(length);
    encoder.Put(data);
    AtLeastFront(before.limits, Some(length), |data|);
    ReducedAdded(before.limits, Some(length), |data|);
    var top := |source.limits| - 1;
    ok := source.limits[top].Some? && source.limits[top].value == 0;
    source.limits := source.limits[..top];
    assert source.limits == Reduced(before.limits, |data|);
    LimitReduced(before.limits, |before.bytes|, |data|);
    if ok {
      assert data == before.view[..length];
    }
  }

  /** DERGeneralEncoder::MessageEnd */
  method EndEncoder(encoder: ByteQueue, outQueue: ByteQueue, tag: byte)
    requires encoder != outQueue && |encoder.bytes| < LWORD_LIMIT
    modifies outQueue`bytes
    ensures outQueue.bytes == old(outQueue.bytes) + Definitely(tag, encoder.bytes)
  {
    hide LengthOctets;
    outQueue.Put([tag]);
    var i := DERLengthEncode(outQueue, |encoder.bytes|);
    outQueue.Put(encoder.bytes);
  }

  /** EndReached of an indefinite decoder. */
  method EndReached(source: ByteQueue) returns (end: bool)
    ensures end == IsEnd(source.View())
  {
    hide Limit;
    var n := Limit(source.limits, |source.bytes|);
    end := n >= 2 && source.bytes[0] == 0 && source.bytes[1] == 0;
  }

  /** How a definite item begins. */
  lemma DefiniteHeader(item: Item, rest: seq<byte>)
    requires item.DefiniteItem? && ValidItem(item)
    ensures var view := Encoding(item) + rest; var n := |item.lengthOctets|;
      && n > 0 && |view| >= 1 + n + |item.content| && view[0] == item.tag
      && Decode(view[1..]) == (Definite(|item.content|), n)
      && view[1..1 + n] == item.lengthOctets && view[1 + n..][..|item.content|] == item.content
  {
    hide Decode;
    var view := Encoding(item) + rest;
    DecodePrefix(item.lengthOctets);
    DecodeExtends(item.lengthOctets, item.content + rest);
    assert view[1..] == item.lengthOctets + (item.content + rest);
  }

  lemma IndefiniteHeader(item: Item, rest: seq<byte>)
    requires item.IndefiniteItem?
    ensures var view := Encoding(item) + rest;
      && |view| >= 2 && view[0] == item.tag && Decode(view[1..]) == (Indefinite, 1)
      && view[2..] == Encodings(item.items) + [0, 0] + rest
  {
  }

  lemma ItemLength(item: Item)
    requires ValidItem(item)
    ensures |Encoding(item)| >= 2
  {
    if item.DefiniteItem? { DefiniteHeader(item, []); }
  }

  /** The item that a definite length announces. */
  lemma DefiniteFound(view: seq<byte>)
    requires |view| > 0 && Decode(view[1..]).0.Definite?
    requires var d := Decode(view[1..]); |view| >= 1 + d.1 + d.0.length
    ensures var d := Decode(view[1..]);
      var item := DefiniteItem(view[0], view[1..1 + d.1], view[1 + d.1..1 + d.1 + d.0.length]);
      ValidItem(item) && Encoding(item) == view[..1 + d.1 + d.0.length]
  {
    hide Decode;
    DecodePrefix(view[1..]);
    var d := Decode(view[1..]);
    assert view[1..][..d.1] == view[1..1 + d.1];
  }

  /** One item is read and its re-encoding is written. */
  ghost predicate Reencoded(before: Reading, item: Item, after: Reading, written: seq<byte>, more: seq<byte>)
  {
    && ValidItem(item) && |Encoding(item)| < MEMORY_LIMIT && Read(before, |Encoding(item)|, after)
    && before.view == Encoding(item) + after.view
    && more == written + Reencoding(item)
  }

  /** The parts of an indefinite value: valid, and none like the end. */
  ghost predicate Parts(items: seq<Item>)
  {
    forall i :: 0 <= i < |items| ==> ValidItem(items[i]) && !IsEnd(Encoding(items[i]))
  }

  /** Reads one value and writes it with a definite length; it fails as the source throws
      BERDecodeErr.  Whatever it accepts is a valid item, and it accepts every valid item:
      the one expected, if the input begins with one. */
  method DERReencode(source: ByteQueue, dest: ByteQueue, ghost expected: Option<Item>) returns (ok: bool, ghost item: Item)
    requires source != dest && |source.bytes| < MEMORY_LIMIT
    requires expected.Some? ==> ValidItem(expected.value) && Begins(source.View(), Encoding(expected.value))
    modifies source, dest`bytes
    ensures ok ==> Reencoded(old(State(source)), item, State(source), old(dest.bytes), dest.bytes)
    ensures expected.Some? ==> ok && item == expected.value
    decreases |source.bytes|, 0
  {
    hide Decode, Encoding, Encodings, Reencoding, Reencodings, Reduced, AtLeast, ValidItem, Definitely, Limit, Parts;
    item := DefiniteItem(0, [], []);
    ghost var before := State(source);
    ExpectedHeader(before.view, expected);
    var nothing := NothingToRead(source);
    if nothing {
      return false, item;
    }
    var tag := source.bytes[0];
    var form := InitDecoder(source, tag);
    if !form.Definite? && !form.Indefinite? {
      return false, item;
    }
    ghost var header := State(source);
    var encoder := new ByteQueue([]);
    if form.Definite? {
      ok := CopyContent(source, encoder, form.length);
      if !ok {
        return false, item;
      }
      item := DefiniteDone(before, header, State(source), form.length);
      assert [] + item.content == item.content;
    } else {
      ghost var items;
      ok, items := ReencodeItems(source, encoder, if expected.Some? then Some(expected.value.items) else None);
      if !ok {
        return false, item;
      }
      item := IndefiniteDone(before, header, State(source), items);
    }
    EndEncoder(encoder, dest, tag);
  }

  /** The loop over the parts of an indefinite value, and its end-of-content octets. */
  method ReencodeItems(source: ByteQueue, encoder: ByteQueue, ghost expected: Option<seq<Item>>)
    returns (ok: bool, ghost items: seq<Item>)
    requires source != encoder && encoder.bytes == [] && |source.bytes| < MEMORY_LIMIT
    requires expected.Some? ==> Parts(expected.value) && Begins(source.View(), Encodings(expected.value) + [0, 0])
    modifies source, encoder`bytes
    ensures ok ==>
      && Parts(items) && Read(old(State(source)), |Encodings(items)| + 2, State(source))
      && old(source.View()) == Encodings(items) + [0, 0] + source.View()
      && |Encodings(items)| < MEMORY_LIMIT && encoder.bytes == Reencodings(items)
    ensures expected.Some? ==> ok && items == expected.value
    decreases |source.bytes|, 1
  {
    hide Encoding, Encodings, Reencoding, Reencodings, Read, Reencoded, PartsRead, Limit, IsEnd, Parts, ValidItem;
    ghost var before := State(source);
    LimitAdded(source.limits, None, |source.bytes|);
    source.limits := source.limits + [None];
    ghost var within := State(source);
    items := [];
    NoParts(within);
    var end := EndReached(source);
    while !end
      invariant end == IsEnd(source.View()) && |source.bytes| <= |within.bytes|
      invariant PartsRead(within, items, State(source), encoder.bytes)
      invariant expected.Some? ==> FirstOf(items, expected.value)
      decreases |source.bytes|
    {
      ghost var next: Option<Item> := None;
      ghost var middle, written := State(source), encoder.bytes;
      if expected.Some? {
        StillExpected(within, expected.value, items, middle, written);
        next := Some(expected.value[|items|]);
      }
      ghost var item;
      ok, item := DERReencode(source, encoder, next);
      if !ok {
        return;
      }
      OnePartMore(within, items, middle, written, item, State(source), encoder.bytes);
      items := items + [item];
      end := EndReached(source);
    }
    if expected.Some? {
      StillExpected(within, expected.value, items, State(source), encoder.bytes);
    }
    EndDecoder(source, before, within, items, encoder.bytes);
    ok := true;
  }

  /** The end-of-content octets are taken, and the decoder is closed. */
  method EndDecoder(source: ByteQueue, ghost before: Reading, ghost within: Reading, ghost items: seq<Item>, ghost written: seq<byte>)
    requires within == before.(limits := before.limits + [None]) && IsEnd(source.View())
    requires PartsRead(within, items, State(source), written)
    modifies source
    ensures Read(before, |Encodings(items)| + 2, State(source))
    ensures before.view == Encodings(items) + [0, 0] + source.View()
    ensures Parts(items) && |Encodings(items)| < MEMORY_LIMIT && written == Reencodings(items)
  {
    hide Encodings, Reencodings, Reduced, AtLeast, Limit, Parts;
    ghost var parts := State(source);
    var octets := source.Transfer(2);
    assert octets == [0, 0] && octets == parts.view[..2];
    ReadTwice(within, |Encodings(items)|, parts, 2, State(source));
    AppendAssociative(Encodings(items), [0, 0], source.View());
    CloseDecoder(before, |Encodings(items)| + 2, State(source));
    LimitAdded(source.limits[..|source.limits| - 1], None, |source.bytes|);
    source.limits := source.limits[..|source.limits| - 1];
  }

  lemma StillExpected(within: Reading, expected: seq<Item>, items: seq<Item>, now: Reading, written: seq<byte>)
    requires PartsRead(within, items, now, written) && FirstOf(items, expected)
    requires Parts(expected) && Begins(within.view, Encodings(expected) + [0, 0])
    ensures |items| < |expected| <==> !IsEnd(now.view)
    ensures |items| < |expected| ==> ValidItem(expected[|items|]) && Begins(now.view, Encoding(expected[|items|]))
  {
    hide Encodings, Encoding, ValidItem, IsEnd, Parts, Reencodings;
    NextExpected(expected, items, now.view);
  }

  method NothingToRead(source: ByteQueue) returns (nothing: bool)
    ensures nothing <==> source.View() == []
    ensures !nothing ==> |source.bytes| > 0 && source.View()[0] == source.bytes[0]
  {
    hide Limit;
    nothing := Limit(source.limits, |source.bytes|) == 0;
  }

  /** What the expected item says about the header. */
  lemma ExpectedHeader(view: seq<byte>, expected: Option<Item>)
    requires expected.Some? ==> ValidItem(expected.value) && Begins(view, Encoding(expected.value))
    ensures expected.Some? ==> |view| >= 2 && view[0] == expected.value.tag
    ensures expected.Some? && expected.value.DefiniteItem? ==>
      var item := expected.value; var n := |item.lengthOctets|;
      && Decode(view[1..]) == (Definite(|item.content|), n) && |view| >= 1 + n + |item.content|
      && view[1..1 + n] == item.lengthOctets && view[1 + n..1 + n + |item.content|] == item.content
    ensures expected.Some? && expected.value.IndefiniteItem? ==>
      var item := expected.value;
      && Decode(view[1..]) == (Indefinite, 1) && IsConstructed(item.tag)
      && Begins(view[2..], Encodings(item.items) + [0, 0]) && Parts(item.items)
  {
    if expected.Some? {
      var item := expected.value;
      var rest := view[|Encoding(item)|..];
      assert view == Encoding(item) + rest;
      if item.DefiniteItem? {
        DefiniteHeader(item, rest);
        var n := |item.lengthOctets|;
        assert view[1 + n..][..|item.content|] == view[1 + n..1 + n + |item.content|];
      } else {
        IndefiniteHeader(item, rest);
      }
    }
  }

  /** What was read and copied is a definite item. */
  lemma DefiniteDone(before: Reading, header: Reading, after: Reading, length: nat) returns (item: Item)
    requires |before.view| > 0 && Decode(before.view[1..]).0 == Definite(length) && |before.bytes| < MEMORY_LIMIT
    requires Read(before, 1 + Decode(before.view[1..]).1, header) && Read(header, length, after)
    ensures var n := 1 + Decode(before.view[1..]).1;
      && |before.view| >= n + length
      && item == DefiniteItem(before.view[0], before.view[1..n], before.view[n..n + length])
      && header.view[..length] == item.content
    ensures ValidItem(item) && |Encoding(item)| < MEMORY_LIMIT && Read(before, |Encoding(item)|, after)
    ensures before.view == Encoding(item) + after.view && |item.content| < LWORD_LIMIT
    ensures Reencoding(item) == Definitely(item.tag, item.content)
  {
    hide Decode, Encoding, AtLeast, Reduced, ValidItem, Definitely;
    var n := 1 + Decode(before.view[1..]).1;
    ReadTwice(before, n, header, length, after);
    DefiniteFound(before.view);
    item := DefiniteItem(before.view[0], before.view[1..n], before.view[n..n + length]);
  }

  lemma IndefiniteDone(before: Reading, header: Reading, after: Reading, items: seq<Item>) returns (item: Item)
    requires |before.view| > 0 && Decode(before.view[1..]).0.Indefinite? && IsConstructed(before.view[0])
    requires |before.bytes| < MEMORY_LIMIT
    requires Read(before, 1 + Decode(before.view[1..]).1, header) && Read(header, |Encodings(items)| + 2, after)
    requires Parts(items) && header.view == Encodings(items) + [0, 0] + after.view && |Encodings(items)| < MEMORY_LIMIT
    ensures item == IndefiniteItem(before.view[0], items)
    ensures ValidItem(item) && |Encoding(item)| < MEMORY_LIMIT && Read(before, |Encoding(item)|, after)
    ensures before.view == Encoding(item) + after.view && |Reencodings(items)| < LWORD_LIMIT
    ensures Reencoding(item) == Definitely(item.tag, Reencodings(items))
  {
    hide AtLeast, Reduced, Definitely, Encodings, Reencodings, DecodeBytes;
    ReadTwice(before, 2, header, |Encodings(items)| + 2, after);
    item := IndefiniteItem(before.view[0], items);
    assert before.view == [before.view[0], 0x80] + header.view;
  }

  /** The encodings of parts, the first apart. */
  lemma FirstPart(items: seq<Item>, e: Item, tail: seq<Item>)
    ensures Encodings(items + ([e] + tail)) == Encodings(items) + (Encoding(e) + Encodings(tail))
  {
    hide Encodings, Encoding;
    EncodingsConcat(items, [e] + tail);
    EncodingsConcat([e], tail);
    AppendItem([], e);
    NoItems();
    assert [] + [e] == [e] && [] + Encoding(e) == Encoding(e);
  }

  lemma AfterPrefix(a: seq<byte>, x: seq<byte>, view: seq<byte>)
    requires Begins(a + view, a + x)
    ensures Begins(view, x)
  {
    assert (a + view)[|a|..] == view && (a + x)[|a|..] == x;
    assert (a + view)[..|a + x|] == a + x;
    assert view[..|x|] == x;
  }

  lemma SamePrefix(a: seq<byte>, more: seq<byte>, view: seq<byte>)
    requires |a| >= 2 && Begins(view, a + more)
    ensures (IsEnd(a) <==> IsEnd(view)) && Begins(view, a)
  {
    assert (a + more)[..|a|] == a;
    assert view[..|a|] == a;
  }

  lemma PartExpected(e: Item, tail: seq<Item>, items: seq<Item>, view: seq<byte>)
    requires ValidItem(e) && !IsEnd(Encoding(e))
    requires Begins(Encodings(items) + view, Encodings(items + ([e] + tail)) + [0, 0])
    ensures !IsEnd(view) && Begins(view, Encoding(e))
  {
    hide Encodings, Encoding, ValidItem, IsEnd;
    FirstPart(items, e, tail);
    AppendAssociative(Encodings(items), Encoding(e) + Encodings(tail), [0, 0]);
    AfterPrefix(Encodings(items), (Encoding(e) + Encodings(tail)) + [0, 0], view);
    AppendAssociative(Encoding(e), Encodings(tail), [0, 0]);
    ItemLength(e);
    SamePrefix(Encoding(e), Encodings(tail) + [0, 0], view);
  }

  lemma EndExpected(items: seq<Item>, view: seq<byte>)
    requires Begins(Encodings(items) + view, Encodings(items) + [0, 0])
    ensures IsEnd(view)
  {
    hide Encodings;
    AfterPrefix(Encodings(items), [0, 0], view);
    SamePrefix([0, 0], [], view);
  }

  lemma PartAt(items: seq<Item>, k: nat)
    requires Parts(items) && k < |items|
    ensures ValidItem(items[k]) && !IsEnd(Encoding(items[k]))
  {
  }

  lemma SplitAt(all: seq<Item>, items: seq<Item>, e: Item, tail: seq<Item>)
    requires FirstOf(items, all) && |items| < |all| && e == all[|items|] && tail == all[|items| + 1..]
    ensures all == items + ([e] + tail)
  {
  }

  lemma OneExpected(expected: seq<Item>, items: seq<Item>, view: seq<byte>)
    requires Parts(expected) && Begins(Encodings(items) + view, Encodings(expected) + [0, 0])
    requires FirstOf(items, expected) && |items| < |expected|
    ensures !IsEnd(view) && ValidItem(expected[|items|]) && Begins(view, Encoding(expected[|items|]))
  {
    hide *;
    PartAt(expected, |items|);
    SplitAt(expected, items, expected[|items|], expected[|items| + 1..]);
    PartExpected(expected[|items|], expected[|items| + 1..], items, view);
  }

  lemma NoneExpected(expected: seq<Item>, items: seq<Item>, view: seq<byte>)
    requires Begins(Encodings(items) + view, Encodings(expected) + [0, 0])
    requires FirstOf(items, expected) && |items| == |expected|
    ensures IsEnd(view)
  {
    hide Encodings, Encoding, ValidItem, IsEnd, Begins, Parts;
    assert items == expected;
    EndExpected(items, view);
  }

  /** While parts are expected, the next one is there, and the end is not. */
  lemma NextExpected(expected: seq<Item>, items: seq<Item>, view: seq<byte>)
    requires Parts(expected) && Begins(Encodings(items) + view, Encodings(expected) + [0, 0]) && FirstOf(items, expected)
    ensures |items| < |expected| <==> !IsEnd(view)
    ensures |items| < |expected| ==> ValidItem(expected[|items|]) && Begins(view, Encoding(expected[|items|]))
  {
    hide Encodings, Encoding, ValidItem, IsEnd, Begins, Parts;
    if |items| < |expected| {
      OneExpected(expected, items, view);
    } else {
      NoneExpected(expected, items, view);
    }
  }

  /** A part was read where the end was not. */
  lemma PartDone(items: seq<Item>, item: Item, before: seq<byte>, after: seq<byte>)
    requires Parts(items) && ValidItem(item) && !IsEnd(before) && before == Encoding(item) + after
    requires |Encodings(items)| + |Encoding(item)| < MEMORY_LIMIT
    ensures |Encoding(item)| >= 2
    ensures Parts(items + [item]) && Encodings(items + [item]) == Encodings(items) + Encoding(item)
    ensures |Encodings(items + [item])| < MEMORY_LIMIT
    ensures Reencodings(items + [item]) == Reencodings(items) + Reencoding(item)
  {
    hide Encoding, ValidItem, Encodings, Reencodings, Reencoding;
    AppendItem(items, item);
    AppendReencoding(items, item);
    ItemLength(item);
  }

  /** The parts read so far, and what has been written for them. */
  ghost predicate PartsRead(within: Reading, items: seq<Item>, now: Reading, written: seq<byte>)
  {
    && Parts(items) && Read(within, |Encodings(items)|, now) && within.view == Encodings(items) + now.view
    && |Encodings(items)| < MEMORY_LIMIT && written == Reencodings(items)
  }

  lemma OnePartMore(within: Reading, items: seq<Item>, middle: Reading, written: seq<byte>, item: Item, now: Reading, more: seq<byte>)
    requires PartsRead(within, items, middle, written) && !IsEnd(middle.view) && |within.bytes| < MEMORY_LIMIT
    requires Reencoded(middle, item, now, written, more)
    ensures PartsRead(within, items + [item], now, more) && |now.bytes| < |middle.bytes|
  {
    hide Encoding, ValidItem, Encodings, Reencodings, Reencoding, AtLeast, Reduced, Parts, IsEnd;
    ReadTwice(within, |Encodings(items)|, middle, |Encoding(item)|, now);
    PartDone(items, item, middle.view, now.view);
    AppendAssociative(Encodings(items), Encoding(item), now.view);
  }

  lemma NoParts(within: Reading)
    ensures PartsRead(within, [], within, [])
  {
    hide Reduced, AtLeast;
    ReadNothing(within);
    assert Encodings([]) == [] && Reencodings([]) == [];
  }

  /** An indefinite decoder has no length of its own: closed, it leaves what was read. */
  lemma CloseDecoder(before: Reading, n: nat, after: Reading)
    requires Read(before.(limits := before.limits + [None]), n, after)
    ensures |after.limits| > 0
    ensures Read(before, n, after.(limits := after.limits[..|after.limits| - 1]))
    ensures after.limits == after.limits[..|after.limits| - 1] + [None]
  {
    AtLeastFront(before.limits, None, n);
    ReducedAdded(before.limits, None, n);
    assert after.limits[..|after.limits| - 1] == Reduced(before.limits, n);
  }

  // ------------------------------------------------------------------
  // An example

  /** A sequence of one integer, of indefinite length. */
  method ReencodeSequence() returns (written: seq<byte>, left: seq<byte>)
    ensures written == [0x30, 0x03, 0x02, 0x01, 0x05] && left == []
  {
    hide Encoding, Reencoding, ValidItem, Decode, Definitely;
    var source := new ByteQueue([0x30, 0x80, 0x02, 0x01, 0x05, 0x00, 0x00]);
    var dest := new ByteQueue([]);
    ghost var expected := IndefiniteItem(0x30, [DefiniteItem(0x02, [0x01], [0x05])]);
    SequenceItem(expected);
    var ok, item := DERReencode(source, dest, Some(expected));
    written := dest.bytes;
    left := source.bytes;
    assert [] + Reencoding(expected) == Reencoding(expected);
  }

  lemma SequenceItem(item: Item)
    requires item == IndefiniteItem(0x30, [DefiniteItem(0x02, [0x01], [0x05])])
    ensures ValidItem(item) && Encoding(item) == [0x30, 0x80, 0x02, 0x01, 0x05, 0x00, 0x00]
    ensures Reencoding(item) == [0x30, 0x03, 0x02, 0x01, 0x05]
  {
    hide BytePrecision, BytesOf;
    var part := DefiniteItem(0x02, [0x01], [0x05]);
    assert [part][..0] == [];
    assert Encoding(part) == [0x02, 0x01, 0x05];
    assert Encodings([part]) == [0x02, 0x01, 0x05];
    assert Reencoding(part) == [0x02, 0x01, 0x05];
    assert Reencodings([part]) == [0x02, 0x01, 0x05];
  }
}

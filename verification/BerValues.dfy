/** BER values with low tag numbers as trees: re-encoding keeps the tree, and octets have
    one reading only. */
module BerValues {
  import opened ByteStrings
  import opened BerLengths
  import opened DerReencoding
  import opened Wrappers

  /** A value as encoded, with the form of every length. */
  datatype Ber =
    | Primitive(tag: byte, lengthOctets: seq<byte>, content: seq<byte>)
    | Constructed(tag: byte, lengthOctets: seq<byte>, parts: seq<Ber>)
    | ConstructedIndefinite(tag: byte, parts: seq<Ber>)

  /** The value itself. */
  datatype Tree = Leaf(tag: byte, content: seq<byte>) | Node(tag: byte, children: seq<Tree>)

  function Octets(b: Ber): (octets: seq<byte>)
  {
    match b
    case Primitive(tag, lengthOctets, content) => [tag] + lengthOctets + content
    case Constructed(tag, lengthOctets, parts) => [tag] + lengthOctets + AllOctets(parts)
    case ConstructedIndefinite(tag, parts) => [tag, 0x80] + AllOctets(parts) + [0, 0]
  }

  function AllOctets(parts: seq<Ber>): (octets: seq<byte>)
  {
    if |parts| == 0 then [] else AllOctets(parts[..|parts| - 1]) + Octets(parts[|parts| - 1])
  }

  /** A low tag number, and not the tag of the end-of-content octets. */
  predicate LowTag(tag: byte) { tag % 0x20 != 0x1f && tag != 0 }

  ghost predicate WellFormed(b: Ber)
  {
    LowTag(b.tag) &&
    match b
    case Primitive(tag, lengthOctets, content) =>
      !IsConstructed(tag) && Decode(lengthOctets) == (Definite(|content|), |lengthOctets|)
    case Constructed(tag, lengthOctets, parts) =>
      IsConstructed(tag) && AllWellFormed(parts) && Decode(lengthOctets) == (Definite(|AllOctets(parts)|), |lengthOctets|)
    case ConstructedIndefinite(tag, parts) => IsConstructed(tag) && AllWellFormed(parts)
  }

  ghost predicate AllWellFormed(parts: seq<Ber>)
  {
    forall i :: 0 <= i < |parts| ==> WellFormed(parts[i])
  }

  function TreeOf(b: Ber): (t: Tree)
  {
    match b
    case Primitive(tag, _, content) => Leaf(tag, content)
    case Constructed(tag, _, parts) => Node(tag, TreesOf(parts))
    case ConstructedIndefinite(tag, parts) => Node(tag, TreesOf(parts))
  }

  function TreesOf(parts: seq<Ber>): (ts: seq<Tree>)
  {
    if |parts| == 0 then [] else TreesOf(parts[..|parts| - 1]) + [TreeOf(parts[|parts| - 1])]
  }

  /** What DERReencode sees of a value. */
  function ItemOf(b: Ber): (item: Item)
  {
    match b
    case Primitive(tag, lengthOctets, content) => DefiniteItem(tag, lengthOctets, content)
    case Constructed(tag, lengthOctets, parts) => DefiniteItem(tag, lengthOctets, AllOctets(parts))
    case ConstructedIndefinite(tag, parts) => IndefiniteItem(tag, ItemsOf(parts))
  }

  function ItemsOf(parts: seq<Ber>): (items: seq<Item>)
  {
    if |parts| == 0 then [] else ItemsOf(parts[..|parts| - 1]) + [ItemOf(parts[|parts| - 1])]
  }

  /** The value with the shortest definite length in place of the outermost one and of
      every indefinite one that an indefinite one encloses. */
  function Der(b: Ber): (d: Ber)
    requires |Octets(b)| < MEMORY_LIMIT
    ensures |Octets(d)| <= 10 * |Octets(b)|
  {
    match b
    case Primitive(tag, _, content) => Shortest(tag, content); Primitive(tag, LengthOctets(|content|), content)
    case Constructed(tag, _, parts) =>
      Shortest(tag, AllOctets(parts));
      Constructed(tag, LengthOctets(|AllOctets(parts)|), parts)
    case ConstructedIndefinite(tag, parts) =>
      Shortest(tag, AllOctets(Ders(parts)));
      Constructed(tag, LengthOctets(|AllOctets(Ders(parts))|), Ders(parts))
  }

  function Ders(parts: seq<Ber>): (ds: seq<Ber>)
    requires |AllOctets(parts)| < MEMORY_LIMIT
    ensures |AllOctets(ds)| <= 10 * |AllOctets(parts)|
  {
    if |parts| == 0 then []
    else
      var front, last := Ders(parts[..|parts| - 1]), Der(parts[|parts| - 1]);
      AppendPart(front, last);
      front + [last]
  }

  lemma Shortest(tag: byte, content: seq<byte>)
    requires |content| < LWORD_LIMIT
    ensures [tag] + LengthOctets(|content|) + content == Definitely(tag, content)
    ensures Decode(LengthOctets(|content|)) == (Definite(|content|), |LengthOctets(|content|)|)
    ensures |LengthOctets(|content|)| <= 9
  {
    LengthRoundTrip(|content|, []);
    assert LengthOctets(|content|) + [] == LengthOctets(|content|);
    PrecisionOfLword(|content|);
  }

  lemma AppendPart(parts: seq<Ber>, b: Ber)
    ensures AllOctets(parts + [b]) == AllOctets(parts) + Octets(b)
    ensures TreesOf(parts + [b]) == TreesOf(parts) + [TreeOf(b)]
    ensures ItemsOf(parts + [b]) == ItemsOf(parts) + [ItemOf(b)]
  {
    assert (parts + [b])[..|parts|] == parts;
  }

  lemma NotTheEnd(b: Ber)
    requires WellFormed(b)
    ensures |Octets(b)| >= 2 && Octets(b)[0] == b.tag && !IsEnd(Octets(b))
  {
    hide Decode, AllOctets;
    match b
    case Primitive(tag, lengthOctets, content) => DecodePrefix(lengthOctets);
    case Constructed(tag, lengthOctets, parts) => DecodePrefix(lengthOctets);
    case ConstructedIndefinite(tag, parts) =>
  }

  /** Re-encoding a value is valid, gives one definite encoding, and keeps the tree. */
  lemma {:induction false} Reencodes(b: Ber)
    requires WellFormed(b) && |Octets(b)| < MEMORY_LIMIT
    ensures ValidItem(ItemOf(b)) && Encoding(ItemOf(b)) == Octets(b)
    ensures Reencoding(ItemOf(b)) == Octets(Der(b)) && !Der(b).ConstructedIndefinite?
    ensures WellFormed(Der(b)) && TreeOf(Der(b)) == TreeOf(b)
    decreases b
  {
    hide Decode, LengthOctets, AllOctets, Encodings, Reencodings, AllWellFormed, TreesOf, ItemsOf;
    match b
    case Primitive(tag, _, content) => Shortest(tag, content);
    case Constructed(tag, _, parts) => Shortest(tag, AllOctets(parts));
    case ConstructedIndefinite(tag, parts) =>
      ReencodesAll(parts);
      Shortest(tag, AllOctets(Ders(parts)));
  }

  lemma LastPart(parts: seq<Ber>)
    requires |parts| > 0 && AllWellFormed(parts) && |AllOctets(parts)| < MEMORY_LIMIT
    ensures var front, last := parts[..|parts| - 1], parts[|parts| - 1];
      && AllOctets(parts) == AllOctets(front) + Octets(last)
      && ItemsOf(parts) == ItemsOf(front) + [ItemOf(last)]
      && TreesOf(parts) == TreesOf(front) + [TreeOf(last)]
      && Ders(parts) == Ders(front) + [Der(last)]
      && AllWellFormed(front) && WellFormed(last)
  {
    hide Octets, WellFormed, TreeOf, ItemOf, Der;
  }

  lemma AllWellFormedAppend(parts: seq<Ber>, b: Ber)
    requires AllWellFormed(parts) && WellFormed(b)
    ensures AllWellFormed(parts + [b])
  {
  }

  lemma PartsAppend(items: seq<Item>, item: Item)
    requires Parts(items) && ValidItem(item) && !IsEnd(Encoding(item))
    ensures Parts(items + [item])
  {
  }

  lemma NoValues()
    ensures Parts(ItemsOf([])) && Encodings(ItemsOf([])) == AllOctets([])
    ensures Reencodings(ItemsOf([])) == AllOctets(Ders([]))
    ensures AllWellFormed(Ders([])) && TreesOf(Ders([])) == TreesOf([])
  {
  }

  lemma {:induction false} ReencodesAll(parts: seq<Ber>)
    requires AllWellFormed(parts) && |AllOctets(parts)| < MEMORY_LIMIT
    ensures Parts(ItemsOf(parts)) && Encodings(ItemsOf(parts)) == AllOctets(parts)
    ensures Reencodings(ItemsOf(parts)) == AllOctets(Ders(parts))
    ensures AllWellFormed(Ders(parts)) && TreesOf(Ders(parts)) == TreesOf(parts)
    decreases parts
  {
    hide *;
    if |parts| == 0 {
      assert parts == [];
      NoValues();
    } else {
      var front, last := parts[..|parts| - 1], parts[|parts| - 1];
      LastPart(parts);
      ReencodesAll(front);
      Reencodes(last);
      NotTheEnd(last);
      AppendItem(ItemsOf(front), ItemOf(last));
      AppendReencoding(ItemsOf(front), ItemOf(last));
      PartsAppend(ItemsOf(front), ItemOf(last));
      AppendPart(Ders(front), Der(last));
      AllWellFormedAppend(Ders(front), Der(last));
    }
  }

  // ------------------------------------------------------------------
  // One reading only

  lemma {:induction false} FirstOctets(b: Ber, rest: seq<Ber>)
    ensures AllOctets([b] + rest) == Octets(b) + AllOctets(rest)
    decreases |rest|
  {
    hide Octets, AllOctets;
    if |rest| == 0 {
      AppendPart([], b);
      assert [b] + rest == [] + [b] && rest == [];
      NoOctets();
    } else {
      var front, last := rest[..|rest| - 1], rest[|rest| - 1];
      assert rest == front + [last] && [b] + rest == ([b] + front) + [last];
      FirstOctets(b, front);
      AppendPart([b] + front, last);
      AppendPart(front, last);
      AppendAssociative(Octets(b), AllOctets(front), Octets(last));
    }
  }

  lemma NoOctets()
    ensures AllOctets([]) == []
    ensures forall x: seq<byte> :: [] + x == x && x + [] == x
  {
  }

  /** A definite length says where the content ends. */
  lemma SameContent(a: seq<byte>, x: seq<byte>, r: seq<byte>, b: seq<byte>, y: seq<byte>, s: seq<byte>)
    requires a + x + r == b + y + s
    requires Decode(a) == (Definite(|x|), |a|) && Decode(b) == (Definite(|y|), |b|)
    ensures a == b && x == y && r == s
  {
    hide Decode;
    DecodeExtends(a, x + r);
    DecodeExtends(b, y + s);
    AppendAssociative(a, x, r);
    AppendAssociative(b, y, s);
    var all := a + x + r;
    assert all[..|a|] == a && all[..|b|] == b;
    assert all[|a|..][..|x|] == x && all[|b|..][..|y|] == y;
    assert all[|a| + |x|..] == r && all[|b| + |y|..] == s;
  }

  /** The content octets of a definite form. */
  ghost function ContentOf(a: Ber): (x: seq<byte>)
    requires !a.ConstructedIndefinite?
  {
    if a.Primitive? then a.content else AllOctets(a.parts)
  }

  lemma SameDefinite(a: Ber, b: Ber, r: seq<byte>, s: seq<byte>)
    requires WellFormed(a) && WellFormed(b) && Octets(a) + r == Octets(b) + s
    requires !a.ConstructedIndefinite? && !b.ConstructedIndefinite?
    ensures a.lengthOctets == b.lengthOctets && ContentOf(a) == ContentOf(b) && r == s
  {
    hide Decode, AllOctets, AllWellFormed;
    var x, y := ContentOf(a), ContentOf(b);
    assert (Octets(a) + r)[1..] == a.lengthOctets + x + r && (Octets(b) + s)[1..] == b.lengthOctets + y + s;
    SameContent(a.lengthOctets, x, r, b.lengthOctets, y, s);
  }

  /** Octets begin with one well-formed value only. */
  lemma {:induction false} UniqueReading(a: Ber, b: Ber, r: seq<byte>, s: seq<byte>)
    requires WellFormed(a) && WellFormed(b) && Octets(a) + r == Octets(b) + s
    ensures a == b && r == s
    decreases a
  {
    hide Decode, AllOctets, AllWellFormed;
    NotTheEnd(a);
    NotTheEnd(b);
    assert a.tag == (Octets(a) + r)[0] == (Octets(b) + s)[0] == b.tag;
    assert (Octets(a) + r)[1..] == (Octets(b) + s)[1..];
    if a.ConstructedIndefinite? || b.ConstructedIndefinite? {
      SameLength(a, r);
      SameLength(b, s);
      UniqueParts(a.parts, b.parts, [0, 0] + r, [0, 0] + s);
      assert ([0, 0] + r)[2..] == r && ([0, 0] + s)[2..] == s;
    } else {
      SameDefinite(a, b, r, s);
      if a.Constructed? {
        UniqueParts(a.parts, b.parts, [], []);
      }
    }
  }

  /** The form of the length is the first thing after the tag. */
  lemma SameLength(a: Ber, r: seq<byte>)
    requires WellFormed(a)
    ensures |Octets(a)| >= 2
    ensures Decode((Octets(a) + r)[1..]).0.Indefinite? <==> a.ConstructedIndefinite?
    ensures a.ConstructedIndefinite? ==> (Octets(a) + r)[2..] == AllOctets(a.parts) + ([0, 0] + r)
  {
  }

  ghost predicate Ends(x: seq<byte>) { x == [] || IsEnd(x) }

  lemma {:induction false} UniqueParts(p: seq<Ber>, q: seq<Ber>, x: seq<byte>, y: seq<byte>)
    requires AllWellFormed(p) && AllWellFormed(q) && Ends(x) && Ends(y)
    requires AllOctets(p) + x == AllOctets(q) + y
    ensures p == q && x == y
    decreases p
  {
    if |p| == 0 && |q| == 0 {
      NoOctets();
    } else if |p| == 0 {
      PartBeforeEnd(q, y, x);
    } else if |q| == 0 {
      PartBeforeEnd(p, x, y);
    } else {
      hide Octets, AllOctets, WellFormed;
      assert p == [p[0]] + p[1..] && q == [q[0]] + q[1..];
      FirstOctets(p[0], p[1..]);
      FirstOctets(q[0], q[1..]);
      AppendAssociative(Octets(p[0]), AllOctets(p[1..]), x);
      AppendAssociative(Octets(q[0]), AllOctets(q[1..]), y);
      UniqueReading(p[0], q[0], AllOctets(p[1..]) + x, AllOctets(q[1..]) + y);
      UniqueParts(p[1..], q[1..], x, y);
    }
  }

  /** Where a part begins there is no end. */
  lemma PartBeforeEnd(q: seq<Ber>, y: seq<byte>, x: seq<byte>)
    requires AllWellFormed(q) && |q| > 0 && Ends(x)
    ensures AllOctets([]) + x != AllOctets(q) + y
  {
    hide Octets, AllOctets, WellFormed;
    NoOctets();
    assert q == [q[0]] + q[1..];
    FirstOctets(q[0], q[1..]);
    NotTheEnd(q[0]);
    assert q[0].tag != 0 by { TagNotZero(q[0]); }
    assert (Octets(q[0]) + AllOctets(q[1..]) + y)[0] == q[0].tag;
  }

  lemma TagNotZero(b: Ber)
    requires WellFormed(b)
    ensures b.tag != 0
  {
  }

  // ------------------------------------------------------------------
  // The whole

  /** A well-formed value followed by anything: exactly the value is consumed, and one
      definite encoding of the same tree is written. */
  method ReencodeValue(source: ByteQueue, dest: ByteQueue, ghost value: Ber, ghost rest: seq<byte>)
    returns (ok: bool)
    requires source != dest && |source.bytes| < MEMORY_LIMIT
    requires WellFormed(value) && source.View() == Octets(value) + rest
    modifies source, dest`bytes
    ensures ok && source.View() == rest && |Octets(value)| < MEMORY_LIMIT
    ensures dest.bytes == old(dest.bytes) + Octets(Der(value))
    ensures WellFormed(Der(value)) && !Der(value).ConstructedIndefinite? && TreeOf(Der(value)) == TreeOf(value)
  {
    hide Octets, WellFormed, Der, TreeOf, ItemOf, Encoding, Reencoding, ValidItem, Limit;
    assert |source.View()| <= |source.bytes|;
    Reencodes(value);
    assert (Octets(value) + rest)[..|Octets(value)|] == Octets(value);
    ghost var item;
    ok, item := DERReencode(source, dest, Some(ItemOf(value)));
    assert (Octets(value) + rest)[|Octets(value)|..] == rest;
  }

  // ------------------------------------------------------------------
  // The tree is all that counts

  /** All lengths are definite and in their shortest form. */
  ghost predicate Canonical(b: Ber)
  {
    match b
    case Primitive(_, lengthOctets, content) => |content| < LWORD_LIMIT && lengthOctets == LengthOctets(|content|)
    case Constructed(_, lengthOctets, parts) =>
      && |AllOctets(parts)| < LWORD_LIMIT && lengthOctets == LengthOctets(|AllOctets(parts)|)
      && forall i :: 0 <= i < |parts| ==> Canonical(parts[i])
    case ConstructedIndefinite(_, _) => false
  }

  lemma {:induction false} TreeAt(parts: seq<Ber>)
    ensures |TreesOf(parts)| == |parts| && forall i :: 0 <= i < |parts| ==> TreesOf(parts)[i] == TreeOf(parts[i])
    decreases |parts|
  {
    hide TreeOf;
    if |parts| > 0 {
      TreeAt(parts[..|parts| - 1]);
    }
  }

  /** Two canonical encodings of one tree are the same octets. */
  lemma {:induction false} SameTree(a: Ber, b: Ber)
    requires Canonical(a) && Canonical(b) && TreeOf(a) == TreeOf(b)
    ensures a == b
    decreases a
  {
    hide LengthOctets, AllOctets, TreesOf;
    if a.Constructed? {
      TreeAt(a.parts);
      TreeAt(b.parts);
      forall i | 0 <= i < |a.parts|
        ensures a.parts[i] == b.parts[i]
      {
        SameTree(a.parts[i], b.parts[i]);
      }
      assert a.parts == b.parts;
    }
  }

  /** Every content has an encoding under every primitive low tag, and every list of
      values under every constructed one. */
  lemma EveryValueEncodes(tag: byte, content: seq<byte>, parts: seq<Ber>)
    requires tag != 0 && tag % 32 < 31 && |content| < LWORD_LIMIT && |AllOctets(parts)| < LWORD_LIMIT
    ensures tag / 32 % 2 == 0 ==> WellFormed(Primitive(tag, LengthOctets(|content|), content))
    ensures tag / 32 % 2 == 1 && (forall i :: 0 <= i < |parts| ==> WellFormed(parts[i])) ==>
      && WellFormed(Constructed(tag, LengthOctets(|AllOctets(parts)|), parts))
      && WellFormed(ConstructedIndefinite(tag, parts))
  {
    hide Decode, LengthOctets, AllOctets;
    LengthRoundTrip(|content|, []);
    LengthRoundTrip(|AllOctets(parts)|, []);
    assert LengthOctets(|content|) + [] == LengthOctets(|content|);
    assert LengthOctets(|AllOctets(parts)|) + [] == LengthOctets(|AllOctets(parts)|);
  }
}

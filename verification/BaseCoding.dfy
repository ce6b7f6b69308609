/** Encoding, grouping and decoding together: basecode.cpp gives back what it was given. */
module BaseCoding {
  import opened Bits
  import opened ByteStrings
  import opened BitStrings
  import opened Sinks
  import opened BaseEncoders
  import opened BaseDecoders
  import opened Groupers
  import opened Wrappers

  predicate IsUpper(c: byte) { 65 <= c <= 90 }

  predicate IsLower(c: byte) { 97 <= c <= 122 }

  /** isalpha, toupper and tolower in the C locale. */
  predicate IsAlpha(c: byte) { IsUpper(c) || IsLower(c) }

  function ToUpper(c: byte): (u: byte) { if IsLower(c) then c - 32 else c }

  function ToLower(c: byte): (l: byte) { if IsUpper(c) then c + 32 else c }

  /** Character c stands for the alphabet's character a. */
  predicate Matches(a: byte, c: byte, caseInsensitive: bool)
  {
    c == a || (caseInsensitive && IsAlpha(a) && (c == ToUpper(a) || c == ToLower(a)))
  }

  /** No character stands for two characters of the alphabet. */
  ghost predicate Unambiguous(alphabet: seq<byte>, caseInsensitive: bool)
  {
    forall i, j, c: byte ::
      0 <= i < |alphabet| && 0 <= j < |alphabet| && Matches(alphabet[i], c, caseInsensitive) && Matches(alphabet[j], c, caseInsensitive)
      ==> i == j
  }

  ghost predicate Outside(alphabet: seq<byte>, caseInsensitive: bool, c: byte)
  {
    forall i :: 0 <= i < |alphabet| ==> !Matches(alphabet[i], c, caseInsensitive)
  }

  /** The first n characters of the alphabet are entered, and nothing else. */
  ghost predicate Entered(lookup: seq<int>, alphabet: seq<byte>, n: nat, caseInsensitive: bool)
    requires n <= |alphabet|
  {
    && |lookup| == 256
    && (forall i, c: byte :: 0 <= i < n && Matches(alphabet[i], c, caseInsensitive) ==> lookup[c] == i)
    && (forall c: byte :: Outside(alphabet[..n], caseInsensitive, c) ==> lookup[c] == -1)
  }

  method InitializeDecodingLookupArray(lookup: array<int>, alphabet: seq<byte>, caseInsensitive: bool)
    requires lookup.Length == 256 && Unambiguous(alphabet, caseInsensitive)
    modifies lookup
    ensures Entered(lookup[..], alphabet, |alphabet|, caseInsensitive)
    ensures forall i :: 0 <= i < |alphabet| ==> lookup[alphabet[i]] == i
    ensures caseInsensitive ==> forall i :: 0 <= i < |alphabet| ==>
      && (65 <= alphabet[i] <= 90 ==> lookup[alphabet[i] + 32] == i)
      && (97 <= alphabet[i] <= 122 ==> lookup[alphabet[i] - 32] == i)
    ensures forall c: byte :: lookup[c] != -1 ==>
      && 0 <= lookup[c] < |alphabet|
      && (|| alphabet[lookup[c]] == c
          || (caseInsensitive && 65 <= c <= 90 && alphabet[lookup[c]] == c + 32)
          || (caseInsensitive && 97 <= c <= 122 && alphabet[lookup[c]] == c - 32))
  {
    for k := 0 to 256
      invariant forall c :: 0 <= c < k ==> lookup[c] == -1
    {
      lookup[k] := -1;
    }
    for i := 0 to |alphabet|
      invariant Entered(lookup[..], alphabet, i, caseInsensitive)
    {
      var a := alphabet[i];
      ghost var before := lookup[..];
      if caseInsensitive && IsAlpha(a) {
        lookup[ToUpper(a)] := i;
        lookup[ToLower(a)] := i;
      } else {
        lookup[a] := i;
      }
      EnterOne(before, lookup[..], alphabet, i, caseInsensitive);
    }
    forall i | 0 <= i < |alphabet|
      ensures lookup[..][alphabet[i]] == i
      ensures caseInsensitive && 65 <= alphabet[i] <= 90 ==> lookup[..][alphabet[i] + 32] == i
      ensures caseInsensitive && 97 <= alphabet[i] <= 122 ==> lookup[..][alphabet[i] - 32] == i
    {
      CharacterEntered(lookup[..], alphabet, i, caseInsensitive);
    }
    forall c: byte
      ensures lookup[c] == lookup[..][c]
      ensures lookup[c] != -1 ==> 0 <= lookup[c] < |alphabet| && Matches(alphabet[lookup[c]], c, caseInsensitive)
    {
      EnteredOnly(lookup[..], alphabet, c, caseInsensitive);
    }
  }

  lemma CharacterEntered(lookup: seq<int>, alphabet: seq<byte>, i: nat, caseInsensitive: bool)
    requires i < |alphabet| && Entered(lookup, alphabet, |alphabet|, caseInsensitive)
    ensures lookup[alphabet[i]] == i
    ensures caseInsensitive && 65 <= alphabet[i] <= 90 ==> lookup[alphabet[i] + 32] == i
    ensures caseInsensitive && 97 <= alphabet[i] <= 122 ==> lookup[alphabet[i] - 32] == i
  {
    var a := alphabet[i];
    assert Matches(a, a, caseInsensitive);
    if caseInsensitive && IsAlpha(a) {
      assert Matches(a, ToUpper(a), caseInsensitive) && Matches(a, ToLower(a), caseInsensitive);
    }
  }

  lemma EnteredOnly(lookup: seq<int>, alphabet: seq<byte>, c: byte, caseInsensitive: bool)
    requires Entered(lookup, alphabet, |alphabet|, caseInsensitive)
    ensures lookup[c] != -1 ==> 0 <= lookup[c] < |alphabet| && Matches(alphabet[lookup[c]], c, caseInsensitive)
  {
    assert alphabet[..|alphabet|] == alphabet;
    if !Outside(alphabet, caseInsensitive, c) {
      var i :| 0 <= i < |alphabet| && Matches(alphabet[i], c, caseInsensitive);
      assert lookup[c] == i;
    }
  }

  lemma EnterOne(before: seq<int>, after: seq<int>, alphabet: seq<byte>, i: nat, caseInsensitive: bool)
    requires i < |alphabet| && Unambiguous(alphabet, caseInsensitive) && |after| == 256
    requires Entered(before, alphabet, i, caseInsensitive)
    requires forall c: byte :: after[c] == if Matches(alphabet[i], c, caseInsensitive) then i else before[c]
    ensures Entered(after, alphabet, i + 1, caseInsensitive)
  {
    forall j, c: byte | 0 <= j < i + 1 && Matches(alphabet[j], c, caseInsensitive)
      ensures after[c] == j
    {
    }
    forall c: byte | Outside(alphabet[..i + 1], caseInsensitive, c)
      ensures after[c] == -1
    {
      assert alphabet[..i + 1][i] == alphabet[i];
      forall j | 0 <= j < i
        ensures !Matches(alphabet[..i][j], c, caseInsensitive)
      {
        assert alphabet[..i + 1][j] == alphabet[..i][j];
      }
      assert Outside(alphabet[..i], caseInsensitive, c);
    }
  }

  // ------------------------------------------------------------------
  // The round trip

  /** Every character of the alphabet is looked up to its index. */
  ghost predicate Inverts(d: Decoding, c: Coding)
  {
    && |d.lookup| == 256 && d.bitsPerChar == c.bitsPerChar && c.Valid() && |c.alphabet| <= 256
    && forall v :: 0 <= v < |c.alphabet| ==> d.lookup[c.alphabet[v]] == v
  }

  ghost predicate Skipped(d: Decoding, text: seq<byte>)
    requires |d.lookup| == 256
  {
    forall i :: 0 <= i < |text| ==> !d.Known(text[i])
  }

  lemma {:induction false} SkippedValues(d: Decoding, text: seq<byte>)
    requires |d.lookup| == 256 && Skipped(d, text)
    ensures Values(d, text) == []
  {
    if |text| > 0 { SkippedValues(d, text[..|text| - 1]); }
  }

  lemma {:induction false} TranslatedValues(d: Decoding, c: Coding, values: seq<nat>)
    requires Inverts(d, c) && forall i :: 0 <= i < |values| ==> values[i] < |c.alphabet|
    ensures Values(d, Translate(c.alphabet, values)) == values
  {
    if |values| > 0 {
      var last := |values| - 1;
      TranslatedValues(d, c, values[..last]);
      var text := Translate(c.alphabet, values);
      assert text[..last] == Translate(c.alphabet, values[..last]);
      assert values == values[..last] + [values[last]];
    }
  }

  /** Separators do not matter to the decoder. */
  lemma {:induction false} GroupedValues(d: Decoding, g: Grouping, text: seq<byte>)
    requires |d.lookup| == 256 && Skipped(d, g.separator)
    ensures Values(d, Groupers.Groups(g, text)) == Values(d, text)
    decreases |text|
  {
    if |text| > 0 && g.groupSize > 0 {
      var before, c := text[..|text| - 1], text[|text| - 1];
      var separator := if InGroup(g, before) == g.groupSize then g.separator else [];
      GroupedValues(d, g, before);
      SkippedValues(d, separator);
      ValuesConcat(d, Groupers.Groups(g, before), separator);
      ValuesConcat(d, Groupers.Groups(g, before) + separator, [c]);
      ValuesConcat(d, before, [c]);
      assert text == before + [c];
    }
  }

  lemma EncodedTextValues(d: Decoding, c: Coding, message: seq<byte>)
    requires Inverts(d, c) && (c.padding.Some? ==> !d.Known(c.padding.value))
    ensures Values(d, Encoded(c, message)) == EncodedValues(c.bitsPerChar, Unpack(message, 8))
  {
    hide Unpack, EncodedValues, Pow2;
    var values := EncodedValues(c.bitsPerChar, Unpack(message, 8));
    ValuesFit(c, Unpack(message, 8));
    TranslatedValues(d, c, values);
    if c.padding.Some? {
      var fill := Fill(c.padding.value, UpTo(|values|, BaseEncoders.OutputBlockSize(c.bitsPerChar)));
      SkippedValues(d, fill);
      ValuesConcat(d, Translate(c.alphabet, values), fill);
    }
  }

  /** The zeros at the end of the last character make no byte. */
  lemma ValuesBackToBytes(bitsPerChar: nat, message: seq<byte>)
    requires 1 <= bitsPerChar <= 7
    ensures Units(Unpack(EncodedValues(bitsPerChar, Unpack(message, 8)), bitsPerChar), 8) == message
  {
    hide Unpack, Units, Pow2;
    var bits := Unpack(message, 8);
    var zeros := Zeros(UpTo(|bits|, bitsPerChar));
    UnpackUnits(bits + zeros, bitsPerChar);
    Pow2Eight();
    UnitsOfUnpacked(message, zeros, 8);
  }

  /** Decoding the grouped encoding returns the message: section 4 of RFC 4648 with the
      alphabet of base 64. */
  lemma CodingRoundTrip(d: Decoding, c: Coding, g: Grouping, message: seq<byte>)
    requires Inverts(d, c) && (c.padding.Some? ==> !d.Known(c.padding.value))
    requires Skipped(d, g.separator) && Skipped(d, g.terminator)
    ensures Decoded(d, Grouped(g, Encoded(c, message))) == message
  {
    hide Unpack, Units, EncodedValues, Encoded, Pow2, Inverts;
    InvertsSizes(d, c);
    var text := Encoded(c, message);
    GroupedValues(d, g, text);
    SkippedValues(d, g.terminator);
    ValuesConcat(d, Groupers.Groups(g, text), g.terminator);
    assert Values(d, text) + [] == Values(d, text);
    EncodedTextValues(d, c, message);
    ValuesBackToBytes(c.bitsPerChar, message);
  }

  lemma InvertsSizes(d: Decoding, c: Coding)
    requires Inverts(d, c)
    ensures c.Valid() && 1 <= c.bitsPerChar <= 7 && d.bitsPerChar == c.bitsPerChar && |d.lookup| == 256
  {
  }

  /** A lookup array made from the alphabet inverts it, and skips what is outside. */
  lemma LookupInverts(lookup: seq<int>, c: Coding, caseInsensitive: bool)
    requires c.Valid() && Entered(lookup, c.alphabet, |c.alphabet|, caseInsensitive)
    ensures var d := Decoding(lookup, c.bitsPerChar);
      && d.Valid() && Inverts(d, c)
      && forall b: byte :: Outside(c.alphabet, caseInsensitive, b) ==> !d.Known(b)
  {
    hide Pow2;
    var d := Decoding(lookup, c.bitsPerChar);
    assert Pow2(c.bitsPerChar) <= 128 by { AlphabetSize(c.bitsPerChar); }
    assert c.alphabet[..|c.alphabet|] == c.alphabet;
    forall b: byte | d.Known(b)
      ensures lookup[b] < Pow2(c.bitsPerChar)
    {
      if !Outside(c.alphabet, caseInsensitive, b) {
        var i :| 0 <= i < |c.alphabet| && Matches(c.alphabet[i], b, caseInsensitive);
      }
    }
    forall v | 0 <= v < |c.alphabet|
      ensures d.lookup[c.alphabet[v]] == v
    {
      assert Matches(c.alphabet[v], c.alphabet[v], caseInsensitive);
    }
  }

  lemma AlphabetSize(n: nat)
    requires n <= 7
    ensures Pow2(n) <= 128
  {
    Pow2Eight();
    Pow2Monotone(n, 7);
    Pow2Step(8);
  }

  method Encode(coding: Coding, pieces: seq<seq<byte>>, last: seq<byte>, schedule: seq<bool>) returns (text: seq<byte>)
    requires coding.Valid()
    ensures text == Encoded(coding, Concat(pieces) + last)
  {
    hide Encoded, BaseNEncoder.Valid;
    var target := new Sink(schedule);
    var encoder := new BaseNEncoder(coding, target);
    EncodeMessage(encoder, pieces, last);
    text := target.data;
  }

  method Group(grouping: Grouping, pieces: seq<seq<byte>>, last: seq<byte>, schedule: seq<bool>) returns (text: seq<byte>)
    ensures text == Grouped(grouping, Concat(pieces) + last)
  {
    hide Grouped, Grouper.Valid;
    var target := new Sink(schedule);
    var grouper := new Grouper(grouping, target);
    GroupMessage(grouper, pieces, last);
    text := target.data;
  }

  method Decode(decoding: Decoding, pieces: seq<seq<byte>>, last: seq<byte>, schedule: seq<bool>) returns (data: seq<byte>)
    requires decoding.Valid()
    ensures data == Decoded(decoding, Concat(pieces) + last)
  {
    hide Decoded, BaseNDecoder.Valid;
    var target := new Sink(schedule);
    var decoder := new BaseNDecoder(decoding, target);
    DecodeMessage(decoder, pieces, last);
    data := target.data;
  }

  /** The filters in a row, each in its own split and with its own blocked outputs: the
      message comes back. */
  method EncodeGroupDecode(coding: Coding, grouping: Grouping, caseInsensitive: bool, pieces: seq<seq<byte>>, last: seq<byte>,
                           textCuts: seq<nat>, groupedCuts: seq<nat>, schedules: seq<seq<bool>>)
    returns (data: seq<byte>)
    requires coding.Valid() && Unambiguous(coding.alphabet, caseInsensitive) && |schedules| == 3
    requires coding.padding.Some? ==> Outside(coding.alphabet, caseInsensitive, coding.padding.value)
    requires forall i :: 0 <= i < |grouping.separator| ==> Outside(coding.alphabet, caseInsensitive, grouping.separator[i])
    requires forall i :: 0 <= i < |grouping.terminator| ==> Outside(coding.alphabet, caseInsensitive, grouping.terminator[i])
    ensures data == Concat(pieces) + last
  {
    hide Encoded, Decoded, Unambiguous, Outside, Entered, Inverts, Grouped;
    var lookup := new int[256];
    InitializeDecodingLookupArray(lookup, coding.alphabet, caseInsensitive);
    var decoding := Decoding(lookup[..], coding.bitsPerChar);
    LookupInverts(lookup[..], coding, caseInsensitive);
    CodingRoundTrip(decoding, coding, grouping, Concat(pieces) + last);
    var text := Encode(coding, pieces, last, schedules[0]);
    var textPieces, textLast := CutMessage(text, textCuts);
    var grouped := Group(grouping, textPieces, textLast, schedules[1]);
    var groupedPieces, groupedLast := CutMessage(grouped, groupedCuts);
    data := Decode(decoding, groupedPieces, groupedLast, schedules[2]);
  }

  // ------------------------------------------------------------------
  // Base 64

  function Base64Char(v: nat): (c: byte)
    requires v < 64
  {
    if v < 26 then 65 + v else if v < 52 then 97 + (v - 26) else if v < 62 then 48 + (v - 52) else if v == 62 then 43 else 47
  }

  /** The alphabet, the padding '=' and lines that end in a line break. */
  function Base64(): (c: Coding) { Coding(seq(64, v requires 0 <= v < 64 => Base64Char(v)), 6, Some(61)) }

  function Base64Lines(lineLength: nat): (g: Grouping) { Grouping(lineLength, [10], [10]) }

  lemma Base64Fits(lineLength: nat)
    ensures Base64().Valid() && Unambiguous(Base64().alphabet, false)
    ensures Outside(Base64().alphabet, false, 61) && Outside(Base64().alphabet, false, 10)
  {
    assert Pow2(6) == 2 * Pow2(5) == 4 * Pow2(4) == 8 * Pow2(3);
    assert Pow2(3) == 2 * Pow2(2) == 4 * Pow2(1) == 8 * Pow2(0);
  }

  /** Base 64 with padding and line breaks, section 4 of RFC 4648. */
  lemma Base64RoundTrip(lookup: seq<int>, lineLength: nat, message: seq<byte>)
    requires Entered(lookup, Base64().alphabet, 64, false)
    ensures Base64().Valid()
    ensures Decoded(Decoding(lookup, 6), Grouped(Base64Lines(lineLength), Encoded(Base64(), message))) == message
  {
    hide Decoded, Grouped, Encoded, Outside, Unambiguous, Entered, Inverts;
    Base64Fits(lineLength);
    LookupInverts(lookup, Base64(), false);
    CodingRoundTrip(Decoding(lookup, 6), Base64(), Base64Lines(lineLength), message);
  }

  // ------------------------------------------------------------------
  // What an encoding looks like, character by character

  /** Bit k of a message, from the first byte and its highest bit on, and zeros behind. */
  function MessageBit(message: seq<byte>, k: nat): (b: nat)
  {
    if k < 8 * |message| then Bit(message[k / 8], 7 - k % 8) else 0
  }

  /** The characters are numbers of n bits each, which are the bits of the message in
      order: no fewer than the message has, and less than a character more. */
  lemma EncodedBits(coding: Coding, message: seq<byte>, j: nat, i: nat)
    requires coding.Valid() && i < coding.bitsPerChar
    ensures var n := coding.bitsPerChar; var values := EncodedValues(n, Unpack(message, 8));
      && 8 * |message| <= n * |values| < 8 * |message| + n
      && (j < |values| ==> Bit(values[j], n - 1 - i) == MessageBit(message, n * j + i))
  {
    hide Unpack, Units, Bit;
    var n := coding.bitsPerChar;
    var bits := Unpack(message, 8);
    var padded := bits + Zeros(UpTo(|bits|, n));
    var values := EncodedValues(n, bits);
    UnpackLength(message, 8);
    UnpackUnits(padded, n);
    UnpackLength(values, n);
    if j < |values| {
      UnpackBit(values, n, j, i);
      var k := n * j + i;
      assert Unpack(values, n)[k] == padded[k];
      if k < |bits| {
        UnpackBit(message, 8, k / 8, k % 8);
        assert 8 * (k / 8) + k % 8 == k;
      }
    }
  }

  /** The text: the characters of the numbers, and padding to a multiple of the block if
      there is a padding character. */
  lemma EncodedShape(coding: Coding, message: seq<byte>)
    requires coding.Valid()
    ensures var text := Encoded(coding, message); var size := BaseEncoders.OutputBlockSize(coding.bitsPerChar);
      var values := EncodedValues(coding.bitsPerChar, Unpack(message, 8));
      && |values| <= |text|
      && (forall j :: 0 <= j < |values| ==> values[j] < |coding.alphabet| && text[j] == coding.alphabet[values[j]])
      && (coding.padding.None? ==> |text| == |values|)
      && (coding.padding.Some? ==> |text| % size == 0 && |text| < |values| + size)
      && (coding.padding.Some? ==> forall j :: |values| <= j < |text| ==> text[j] == coding.padding.value)
  {
    hide Unpack, EncodedValues, BaseEncoders.OutputBlockSize;
    ValuesFit(coding, Unpack(message, 8));
  }

  /** The letters, the digits, '+' and '/': table 1 of RFC 4648. */
  lemma Base64Alphabet(v: nat)
    requires v < 64
    ensures |Base64().alphabet| == 64 && Base64().bitsPerChar == 6 && Base64().padding == Some(61)
    ensures v < 26 ==> Base64().alphabet[v] == 'A' as int + v
    ensures 26 <= v < 52 ==> Base64().alphabet[v] == 'a' as int + (v - 26)
    ensures 52 <= v < 62 ==> Base64().alphabet[v] == '0' as int + (v - 52)
    ensures Base64().alphabet[62] == '+' as int && Base64().alphabet[63] == '/' as int
  {
  }

  /** "fo" is "Zm8=": section 10 of RFC 4648. */
  lemma Base64Example()
    ensures Base64().Valid() && Encoded(Base64(), [0x66, 0x6f]) == [90, 109, 56, 61]
  {
    hide Unpack, EncodedValues, Encoded, BaseEncoders.OutputBlockSize;
    Base64Fits(0);
    SixtyFour();
    ExampleValues();
    EncodedShape(Base64(), [0x66, 0x6f]);
    Base64Alphabet(25);
    Base64Alphabet(38);
    Base64Alphabet(60);
  }

  lemma ExampleValues()
    ensures EncodedValues(6, Unpack([0x66, 0x6f], 8)) == [25, 38, 60]
  {
    hide Units, BitsOf, FromBits, Unpack;
    UnpackAppend([0x66], 0x6f, 8);
    UnpackOne(0x66, 8);
    assert [0x66] + [0x6f] == [0x66, 0x6f];
    ExampleBits();
    var bits: seq<bit> := [0, 1, 1, 0, 0, 1, 1, 0, 0, 1, 1, 0, 1, 1, 1, 1];
    var a: seq<bit>, b: seq<bit>, c: seq<bit> := [0, 1, 1, 0, 0, 1], [1, 0, 0, 1, 1, 0], [1, 1, 1, 1, 0, 0];
    assert UpTo(16, 6) == 2;
    assert bits + Zeros(2) == a + (b + (c + []));
    UnitsStep(a, b + (c + []), 6);
    UnitsStep(b, c + [], 6);
    UnitsStep(c, [], 6);
    TooFewBits([], 6);
    ExampleNumbers();
    assert Unpack([0x66, 0x6f], 8) == bits;
    assert [25] + ([38] + ([60] + [])) == [25, 38, 60];
  }

  lemma ExampleBits()
    ensures BitsOf(0x66, 8) == [0, 1, 1, 0, 0, 1, 1, 0] && BitsOf(0x6f, 8) == [0, 1, 1, 0, 1, 1, 1, 1]
  {
  }

  lemma ExampleUnits()
    ensures BitsOf(25, 6) == [0, 1, 1, 0, 0, 1] && BitsOf(38, 6) == [1, 0, 0, 1, 1, 0] && BitsOf(60, 6) == [1, 1, 1, 1, 0, 0]
  {
  }

  lemma ExampleNumbers()
    ensures FromBits([0, 1, 1, 0, 0, 1]) == 25 && FromBits([1, 0, 0, 1, 1, 0]) == 38 && FromBits([1, 1, 1, 1, 0, 0]) == 60
  {
    hide FromBits, BitsOf, Pow2;
    SixtyFour();
    FromBitsOf(25, 6);
    FromBitsOf(38, 6);
    FromBitsOf(60, 6);
    ExampleUnits();
  }
}

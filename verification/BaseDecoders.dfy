/** BaseN_Decoder of basecode.cpp: the characters that the lookup array knows give
    their bits, others are skipped, and whole bytes come out in blocks. */
module BaseDecoders {
  import opened Bits
  import opened ByteStrings
  import opened BitStrings
  import opened Sinks

  /** lookup[c] is the value of character c, or a number that is no byte. */
  datatype Decoding = Decoding(lookup: seq<int>, bitsPerChar: nat) {
    ghost predicate Valid()
    {
      && 1 <= bitsPerChar <= 7 && |lookup| == 256
      && forall c :: 0 <= c < 256 && Known(c) ==> lookup[c] < Pow2(bitsPerChar)
    }

    predicate Known(c: byte)
      requires |lookup| == 256
    {
      0 <= lookup[c] < 256
    }
  }

  predicate Whole(k: nat, n: nat)
  {
    n > 0 && k % n == 0
  }

  /** The values of the characters that are known. */
  function Values(decoding: Decoding, text: seq<byte>): (values: seq<nat>)
    requires |decoding.lookup| == 256
  {
    if |text| == 0 then []
    else
      var c := text[|text| - 1];
      Values(decoding, text[..|text| - 1]) + (if decoding.Known(c) then [decoding.lookup[c]] else [])
  }

  lemma {:induction false} ValuesConcat(decoding: Decoding, a: seq<byte>, b: seq<byte>)
    requires |decoding.lookup| == 256
    ensures Values(decoding, a + b) == Values(decoding, a) + Values(decoding, b)
  {
    if |b| == 0 {
      assert a + b == a;
    } else {
      assert (a + b)[..|a + b| - 1] == a + b[..|b| - 1];
      ValuesConcat(decoding, a, b[..|b| - 1]);
    }
  }

  /** The whole bytes in the bits of a text. */
  ghost function Decoded(decoding: Decoding, text: seq<byte>): (data: seq<nat>)
    requires |decoding.lookup| == 256
  {
    Units(Unpack(Values(decoding, text), decoding.bitsPerChar), 8)
  }

  /** The smallest number of bytes that make whole characters. */
  function OutputBlockSize(bitsPerChar: nat): (n: nat)
    requires 1 <= bitsPerChar <= 7
    ensures n > 0 && (8 * n) % bitsPerChar == 0
  {
    var i := FirstMultiple(bitsPerChar, bitsPerChar, 8);
    assert i == 8 * (i / 8);
    i / 8
  }

  method FindOutputBlockSize(bitsPerChar: nat) returns (n: nat)
    requires 1 <= bitsPerChar <= 7
    ensures n == OutputBlockSize(bitsPerChar)
    ensures n > 0 && (8 * n) % bitsPerChar == 0 && forall m :: 0 < m < n ==> (8 * m) % bitsPerChar != 0
  {
    var i := bitsPerChar;
    MultipleIsMultiple(1, i);
    while i % 8 != 0
      invariant i % bitsPerChar == 0 && bitsPerChar <= i <= bitsPerChar * 8
      invariant FirstMultiple(i, bitsPerChar, 8) == FirstMultiple(bitsPerChar, bitsPerChar, 8)
      decreases bitsPerChar * 8 - i
    {
      StepOn(i, bitsPerChar, 8);
      i := i + bitsPerChar;
    }
    n := i / 8;
    forall m | 0 < m < n
      ensures (8 * m) % bitsPerChar != 0
    {
      SmallestFactor(bitsPerChar, 8, m);
    }
  }

  class BaseNDecoder {
    const decoding: Decoding
    const target: Sink
    const outputBlockSize: nat
    const outBuf: array<nat>
    var bytePos: nat
    var bitPos: nat
    var inputPosition: nat
    var continueAt: nat

    // The text taken so far, the bytes that have left, the bits of the unfinished byte,
    // and the target's data when the message began.
    ghost var message: seq<byte>
    ghost var sent: seq<nat>
    ghost var pending: seq<bit>
    ghost var base: seq<byte>
    // While a call is blocked: its input, and the text as it will be when it is over.
    ghost var input: seq<byte>
    ghost var whole: seq<byte>

    ghost predicate Shape()
      reads `bytePos, `bitPos, `pending
    {
      && decoding.Valid() && outputBlockSize == OutputBlockSize(decoding.bitsPerChar) == outBuf.Length
      && bytePos <= outputBlockSize && bitPos == |pending| < 8
      && (bytePos == outputBlockSize ==> bitPos == 0)
    }

    ghost predicate BytesFit()
      requires Shape()
      reads `bytePos, `bitPos, `pending, outBuf
    {
      forall j :: 0 <= j < bytePos ==> outBuf[j] < 256
    }

    ghost predicate Clear()
      requires Shape() && bytePos < outputBlockSize
      reads `bytePos, `bitPos, `pending, outBuf
    {
      && outBuf[bytePos] == AtTop(pending, 8)
      && forall j :: bytePos < j < outputBlockSize ==> outBuf[j] == 0
    }

    /** Whole bytes, the unfinished one, and zeros; before a block begins the contents do
        not matter. */
    ghost predicate Buffered()
      requires Shape()
      reads `bytePos, `bitPos, `pending, outBuf
    {
      BytesFit() && (bytePos < outputBlockSize && (bytePos > 0 || bitPos > 0) ==> Clear())
    }

    ghost function Held(): (b: seq<bit>)
      requires Shape()
      reads `bytePos, `bitPos, `pending, outBuf
    {
      Unpack(outBuf[..bytePos], 8) + pending
    }

    ghost predicate Sent()
      requires Shape()
      reads `bytePos, `bitPos, `pending, `sent, `base, target
    {
      Fit(sent, 8) && Whole(|sent|, outputBlockSize) && target.data == base + sent
    }

    /** Everything taken has been sent or is in the buffer; a full buffer waits to be
        sent. */
    ghost predicate Streaming()
      reads `bytePos, `bitPos, `pending, `sent, `base, `message, outBuf, target
    {
      && Shape() && Buffered() && Whole(8 * bytePos + bitPos, decoding.bitsPerChar) && Sent()
      && Unpack(sent, 8) + Held() == Unpack(Values(decoding, message), decoding.bitsPerChar)
    }

    ghost predicate Valid()
      reads this, outBuf, target
    {
      && Streaming()
      && if continueAt == 0 then bytePos < outputBlockSize
         else
           && inputPosition <= |input| && whole == message + input[inputPosition..]
           && if continueAt == 1 then bytePos == outputBlockSize
              else continueAt == 2 && inputPosition == |input| && bytePos < outputBlockSize
    }

    constructor (decoding: Decoding, target: Sink)
      requires decoding.Valid()
      ensures Valid() && message == [] && base == target.data
      ensures this.decoding == decoding && this.target == target && fresh(outBuf) && continueAt == 0
    {
      hide Pow2, Values, Whole, OutputBlockSize;
      NoText(decoding);
      NothingWhole(decoding.bitsPerChar);
      var size := FindOutputBlockSize(decoding.bitsPerChar);
      NothingWhole(size);
      this.decoding := decoding;
      this.target := target;
      outputBlockSize := size;
      outBuf := new nat[size];
      bytePos, bitPos, inputPosition, continueAt := 0, 0, 0, 0;
      message, sent, pending, base := [], [], [], target.data;
      input, whole := [], [];
    }

    /** The rest of the unfinished byte. */
    method CompleteByte(value: nat, ghost bits: seq<bit>)
      requires Shape() && BytesFit() && bytePos < outputBlockSize && Clear()
      requires bitPos + |bits| == 8 && value == FromBits(bits)
      modifies outBuf, `bytePos, `bitPos, `pending
      ensures Shape() && BytesFit() && pending == [] && (bytePos < outputBlockSize ==> Clear())
      ensures Held() == old(Held()) + bits && bytePos == old(bytePos) + 1
    {
      hide Pow2, AtTop, FromBits, Unpack;
      ghost var done := outBuf[..bytePos];
      UnitComplete(done, outBuf[bytePos], value, pending, bits, 8);
      AtTopNone(8);
      Pow2Eight();
      outBuf[bytePos] := outBuf[bytePos] + value;
      bitPos := 0;
      bytePos := bytePos + 1;
      pending := [];
      assert outBuf[..bytePos] == done + [outBuf[bytePos - 1]];
    }

    /** Less than the rest of it. */
    method ExtendByte(value: nat, count: nat, ghost bits: seq<bit>)
      requires Shape() && BytesFit() && bytePos < outputBlockSize && Clear()
      requires count == |bits| && bitPos + count < 8 && value == AtTop(bits, 8 - bitPos)
      modifies outBuf, `bitPos, `pending
      ensures Shape() && BytesFit() && Clear() && bitPos == old(bitPos) + count
      ensures Held() == old(Held()) + bits
    {
      hide Pow2, AtTop, Unpack;
      AtTopConcat(pending, bits, 8);
      ghost var done := outBuf[..bytePos];
      outBuf[bytePos] := outBuf[bytePos] + value;
      AppendBits(Unpack(done, 8), pending, bits);
      bitPos := bitPos + count;
      pending := pending + bits;
      assert outBuf[..bytePos] == done;
    }

    /** One value of input, which may end one byte and begin the next.  The or of the
        source meets only zero bits: it is a sum. */
    method DecodeValue(value: nat)
      requires Shape() && BytesFit() && bytePos < outputBlockSize && Clear() && value < Pow2(decoding.bitsPerChar)
      requires 8 * bytePos + bitPos + decoding.bitsPerChar <= 8 * outputBlockSize
      modifies outBuf, `bytePos, `bitPos, `pending
      ensures Shape() && BytesFit() && (bytePos < outputBlockSize ==> Clear())
      ensures Held() == old(Held()) + BitsOf(value, decoding.bitsPerChar)
      ensures 8 * bytePos + bitPos == old(8 * bytePos + bitPos) + decoding.bitsPerChar
    {
      hide Pow2, AtTop, FromBits, Unpack, BitsOf, Shl, Shr, Low;
      ghost var n := decoding.bitsPerChar;
      ghost var bits := BitsOf(value, n);
      FromBitsOf(value, n);
      var newBitPos := bitPos + decoding.bitsPerChar;
      if newBitPos <= 8 {
        ValueAtTop(bits, 8 - bitPos);
        if newBitPos < 8 {
          ExtendByte(Shl(value, 8 - newBitPos), decoding.bitsPerChar, bits);
        } else {
          CompleteByte(Shl(value, 8 - newBitPos), bits);
        }
      } else {
        DecodeAcross(value);
      }
    }

    /** A value that ends one byte and begins the next. */
    method DecodeAcross(value: nat)
      requires Shape() && BytesFit() && bytePos < outputBlockSize && Clear() && value < Pow2(decoding.bitsPerChar)
      requires 8 * bytePos + bitPos + decoding.bitsPerChar <= 8 * outputBlockSize && bitPos + decoding.bitsPerChar > 8
      modifies outBuf, `bytePos, `bitPos, `pending
      ensures Shape() && BytesFit() && bytePos < outputBlockSize && Clear()
      ensures Held() == old(Held()) + BitsOf(value, decoding.bitsPerChar)
      ensures 8 * bytePos + bitPos == old(8 * bytePos + bitPos) + decoding.bitsPerChar
    {
      hide Pow2, AtTop, FromBits, Unpack, BitsOf, Shl, Shr, Low;
      var newBitPos := bitPos + decoding.bitsPerChar;
      ghost var bits, held := BitsOf(value, decoding.bitsPerChar), Held();
      FromBitsOf(value, decoding.bitsPerChar);
      ghost var top, rest := bits[..8 - bitPos], bits[8 - bitPos..];
      AcrossBytes(value, decoding.bitsPerChar, 8 - bitPos);
      var below := Low(Shl(value, 16 - newBitPos), 8);
      CompleteByte(Shr(value, newBitPos - 8), top);
      AtTopNone(8);
      ExtendByte(below, newBitPos - 8, rest);
      AppendBits(held, top, rest);
      assert top + rest == bits;
    }

    method ClearBuffer()
      requires Streaming() && bytePos == 0 && bitPos == 0
      modifies outBuf
      ensures Streaming() && bytePos < outputBlockSize && Clear()
    {
      hide Pow2, Unpack, Values;
      for i := 0 to outputBlockSize
        invariant forall j :: 0 <= j < i ==> outBuf[j] == 0
      {
        outBuf[i] := 0;
      }
      assert pending == [];
      AtTopNone(8);
      assert outBuf[..0] == old(outBuf[..0]) == [];
    }

    /** Takes one character. */
    method TakeChar(c: byte)
      requires Streaming() && bytePos < outputBlockSize
      modifies outBuf, `bytePos, `bitPos, `pending, `message
      ensures Streaming() && message == old(message) + [c] && bytePos <= outputBlockSize
    {
      hide Pow2, Unpack, BitsOf, AtTop, Fit, Values;
      OneMoreChar(decoding, message, c);
      if !decoding.Known(c) {
        message := message + [c];
        return;
      }
      if bytePos == 0 && bitPos == 0 {
        ClearBuffer();
      }
      var value := decoding.lookup[c];
      RoomForChar(decoding.bitsPerChar, outputBlockSize, bytePos, bitPos);
      AppendBits(Unpack(sent, 8), Held(), BitsOf(value, decoding.bitsPerChar));
      UnpackAppend(Values(decoding, message), value, decoding.bitsPerChar);
      MultipleIsMultiple(1, decoding.bitsPerChar);
      MultipleSum(8 * bytePos + bitPos, decoding.bitsPerChar, decoding.bitsPerChar);
      message := message + [c];
      DecodeValue(value);
    }

    method Output(site: nat, data: seq<byte>, messageEnd: bool) returns (blocked: bool)
      modifies `continueAt, target
      ensures continueAt == if blocked then site else 0
      ensures blocked ==> target.data == old(target.data) && |target.schedule| < |old(target.schedule)|
      ensures !blocked ==> target.data == old(target.data) + data && |target.schedule| <= |old(target.schedule)|
    {
      blocked := target.Put2(data, messageEnd);
      continueAt := if blocked then site else 0;
    }

    /** Sends the full buffer. */
    method OutputBlock() returns (blocked: bool)
      requires Streaming() && bytePos == outputBlockSize
      modifies `continueAt, `bytePos, `bitPos, `pending, `sent, target
      ensures Streaming() && |target.schedule| <= |old(target.schedule)|
      ensures blocked ==> continueAt == 1 && bytePos == outputBlockSize && |target.schedule| < |old(target.schedule)|
      ensures !blocked ==> continueAt == 0 && bytePos == 0
    {
      hide Pow2, Unpack, Values, Fit, Whole, OutputBlockSize;
      Pow2Eight();
      ghost var block := outBuf[..];
      assert outBuf[..bytePos] == block;
      SentBlock(base, target.data, sent, block, Unpack(Values(decoding, message), decoding.bitsPerChar));
      blocked := Output(1, outBuf[..], false);
      if !blocked {
        sent := sent + block;
        bytePos, bitPos := 0, 0;
        pending := [];
        NothingWhole(decoding.bitsPerChar);
        assert outBuf[..0] == [];
      }
    }

    /** Sends the whole bytes that are left; an unfinished one is dropped. */
    method OutputLast() returns (blocked: bool)
      requires Streaming() && bytePos < outputBlockSize
      modifies `continueAt, `bytePos, `bitPos, `pending, `sent, `message, `base, target
      ensures Streaming() && bytePos < outputBlockSize && |target.schedule| <= |old(target.schedule)|
      ensures blocked ==> continueAt == 2 && |target.schedule| < |old(target.schedule)|
      ensures blocked ==> message == old(message) && base == old(base)
      ensures !blocked ==> continueAt == 0 && message == [] && base == target.data
      ensures !blocked ==> target.data == old(base) + Decoded(decoding, old(message))
    {
      hide Pow2, Unpack, Values, Units, Fit;
      Pow2Eight();
      LastBytes(decoding, message, base, target.data, sent, outBuf[..bytePos], pending);
      blocked := Output(2, outBuf[..bytePos], true);
      if !blocked {
        BeginMessage();
      }
    }

    method BeginMessage()
      requires decoding.Valid() && outputBlockSize == OutputBlockSize(decoding.bitsPerChar) == outBuf.Length
      modifies `bytePos, `bitPos, `pending, `sent, `message, `base
      ensures Streaming() && bytePos == 0 && message == [] && base == target.data
    {
      hide Pow2, Unpack, Values, Fit, Whole, OutputBlockSize;
      bytePos, bitPos := 0, 0;
      pending, sent, message, base := [], [], [], target.data;
      NoText(decoding);
      NothingSent(target.data);
      NothingWhole(outputBlockSize);
      NothingWhole(decoding.bitsPerChar);
      assert outBuf[..0] == [];
    }

    /** Takes text, and the end of a message.  A result other than zero means that the
        target blocked: the same call must be made again. */
    method Put2(begin: seq<byte>, messageEnd: bool) returns (remaining: nat)
      requires Valid()
      requires continueAt != 0 ==> begin == input
      requires continueAt == 2 ==> messageEnd
      modifies this, outBuf, target
      ensures Valid() && (remaining == 0 <==> continueAt == 0) && |target.schedule| <= |old(target.schedule)|
      ensures remaining != 0 ==> input == begin && base == old(base) && |target.schedule| < |old(target.schedule)|
      ensures remaining != 0 ==> whole == (if old(continueAt) == 0 then old(message) + begin else old(whole))
      ensures continueAt == 2 ==> messageEnd
      ensures remaining != 0 ==> remaining == Unsent(if continueAt == 1 then outputBlockSize else bytePos, inputPosition)
      ensures remaining == 0 && !messageEnd ==>
        message == (if old(continueAt) == 0 then old(message) + begin else old(whole)) && base == old(base)
      ensures remaining == 0 && messageEnd ==>
        && message == [] && base == target.data
        && target.data == old(base) + Decoded(decoding, if old(continueAt) == 0 then old(message) + begin else old(whole))
    {
      hide Streaming, Decoded, Values;
      ValidLookup(this);
      var site := continueAt;
      if site == 0 {
        inputPosition := 0;
        input := begin;
        whole := message + begin;
        assert begin[0..] == begin;
      }
      if site == 1 {
        var blocked := OutputBlock();
        if blocked {
          return Unsent(outputBlockSize, inputPosition);
        }
      }
      if site != 2 {
        var blocked := TakeChars(begin);
        if blocked {
          return Unsent(outputBlockSize, inputPosition);
        }
      }
      assert message + begin[|begin|..] == message;
      if messageEnd {
        var blocked := OutputLast();
        if blocked {
          return Unsent(bytePos, inputPosition);
        }
      }
      return 0;
    }

    method TakeChars(begin: seq<byte>) returns (blocked: bool)
      requires begin == input && Streaming() && bytePos < outputBlockSize && continueAt == 0
      requires inputPosition <= |begin| && whole == message + begin[inputPosition..]
      modifies outBuf, `bytePos, `bitPos, `pending, `message, `sent, `continueAt, `inputPosition, target
      ensures Streaming() && inputPosition <= |begin| && whole == message + begin[inputPosition..]
      ensures blocked ==> continueAt == 1 && bytePos == outputBlockSize && |target.schedule| < |old(target.schedule)|
      ensures !blocked ==> continueAt == 0 && bytePos < outputBlockSize && inputPosition == |begin|
      ensures |target.schedule| <= |old(target.schedule)|
    {
      hide Streaming, Values;
      blocked := false;
      while inputPosition < |begin|
        invariant Streaming() && bytePos < outputBlockSize && continueAt == 0
        invariant inputPosition <= |begin| && whole == message + begin[inputPosition..]
        invariant |target.schedule| <= |old(target.schedule)|
        decreases |begin| - inputPosition
      {
        var c := begin[inputPosition];
        assert begin[inputPosition..] == [c] + begin[inputPosition + 1..];
        assert message + ([c] + begin[inputPosition + 1..]) == (message + [c]) + begin[inputPosition + 1..];
        inputPosition := inputPosition + 1;
        TakeChar(c);
        if bytePos == outputBlockSize {
          blocked := OutputBlock();
          if blocked {
            return;
          }
        }
      }
    }
  }

  lemma ValidLookup(decoder: BaseNDecoder)
    requires decoder.Valid()
    ensures |decoder.decoding.lookup| == 256 && decoder.outputBlockSize > 0
  {
  }

  lemma SentBlock(base: seq<byte>, data: seq<byte>, sent: seq<nat>, block: seq<byte>, bits: seq<bit>)
    requires Fit(sent, 8) && Whole(|sent|, |block|) && data == base + sent
    requires Unpack(sent, 8) + (Unpack(block, 8) + []) == bits
    ensures Fit(sent + block, 8) && Whole(|sent + block|, |block|) && data + block == base + (sent + block)
    ensures Unpack(sent + block, 8) + (Unpack([], 8) + []) == bits
  {
    hide Unpack, Whole, Pow2;
    Pow2Eight();
    UnpackConcat(sent, block, 8);
    UnpackNone(8);
    OneMoreWhole(|sent|, |block|);
  }

  lemma OneMoreWhole(k: nat, n: nat)
    requires Whole(k, n)
    ensures Whole(k + n, n)
  {
    MultipleIsMultiple(1, n);
    MultipleSum(k, n, n);
  }

  lemma LastBytes(decoding: Decoding, message: seq<byte>, base: seq<byte>, data: seq<byte>, sent: seq<nat>, last: seq<byte>, pending: seq<bit>)
    requires Fit(sent, 8) && data == base + sent && |pending| < 8 && |decoding.lookup| == 256
    requires Unpack(sent, 8) + (Unpack(last, 8) + pending) == Unpack(Values(decoding, message), decoding.bitsPerChar)
    ensures data + last == base + Decoded(decoding, message)
  {
    hide Unpack, Units, Values;
    Pow2Eight();
    UnpackConcat(sent, last, 8);
    AppendBits(Unpack(sent, 8), Unpack(last, 8), pending);
    UnitsOfUnpacked(sent + last, pending, 8);
  }

  lemma NothingWhole(n: nat)
    requires n > 0
    ensures Whole(0, n)
  {
  }

  lemma NothingSent(data: seq<byte>)
    ensures Fit([], 8) && data + [] == data
  {
  }

  lemma NoText(decoding: Decoding)
    requires |decoding.lookup| == 256
    ensures Values(decoding, []) == [] && Unpack([], 8) == [] && Unpack([], decoding.bitsPerChar) == []
  {
  }

  lemma OneMoreChar(decoding: Decoding, text: seq<byte>, c: byte)
    requires |decoding.lookup| == 256
    ensures Values(decoding, text + [c]) == Values(decoding, text) + (if decoding.Known(c) then [decoding.lookup[c]] else [])
    ensures !decoding.Known(c) ==> Values(decoding, text + [c]) == Values(decoding, text)
  {
    assert (text + [c])[..|text|] == text;
  }

  lemma ValueAtTop(bits: seq<bit>, n: nat)
    requires |bits| <= n
    ensures Shl(FromBits(bits), n - |bits|) == AtTop(bits, n)
    ensures |bits| == n ==> Shl(FromBits(bits), n - |bits|) == FromBits(bits)
  {
    ShlSmall(FromBits(bits));
  }

  /** A value of n bits, the first t of which end a byte. */
  lemma AcrossBytes(value: nat, n: nat, t: nat)
    requires value < Pow2(n) && t < n <= 8
    ensures Shr(value, n - t) == FromBits(BitsOf(value, n)[..t])
    ensures Shl(value, 8 - (n - t)) >= 0
    ensures Low(Shl(value, 8 - (n - t)), 8) == AtTop(BitsOf(value, n)[t..], 8)
  {
    hide Pow2, FromBits, BitsOf, Shl, Shr, Low;
    var bits := BitsOf(value, n);
    FromBitsOf(value, n);
    AtTopWhole(bits);
    TakeTop(bits, n, t);
    var hi, lo := FromBits(bits[..t]), bits[t..];
    assert bits == bits[..t] + lo;
    FromBitsConcat(bits[..t], lo);
    var k := 8 - |lo|;
    ShlAdd(Shl(hi, |lo|), FromBits(lo), k);
    ShlShl(hi, |lo|, k);
    AtTopBound(lo, 8);
    SplitUnique(hi, AtTop(lo, 8), 8);
  }

  lemma RoomForChar(n: nat, size: nat, bytePos: nat, bitPos: nat)
    requires n > 0 && bytePos < size && bitPos < 8 && (8 * size) % n == 0 && (8 * bytePos + bitPos) % n == 0
    ensures 8 * bytePos + bitPos + n <= 8 * size
  {
    MultipleDifference(8 * size, 8 * bytePos + bitPos, n);
  }

  /** A text in any pieces, each call repeated while the target blocks. */
  method DecodeMessage(decoder: BaseNDecoder, pieces: seq<seq<byte>>, last: seq<byte>)
    requires decoder.Valid() && decoder.continueAt == 0 && decoder.message == []
    requires |decoder.decoding.lookup| == 256
    modifies decoder, decoder.outBuf, decoder.target
    ensures decoder.Valid() && decoder.continueAt == 0 && decoder.message == []
    ensures decoder.target.data == old(decoder.base) + Decoded(decoder.decoding, Concat(pieces) + last)
  {
    hide Decoded, BaseNDecoder.Valid;
    for i := 0 to |pieces|
      invariant decoder.Valid() && decoder.continueAt == 0
      invariant decoder.message == Concat(pieces[..i]) && decoder.base == old(decoder.base)
    {
      PutUntilDone(decoder, pieces[i], false);
      assert pieces[..i + 1][..i] == pieces[..i];
    }
    assert pieces[..|pieces|] == pieces;
    PutUntilDone(decoder, last, true);
  }

  method PutUntilDone(decoder: BaseNDecoder, begin: seq<byte>, messageEnd: bool)
    requires decoder.Valid() && decoder.continueAt == 0 && |decoder.decoding.lookup| == 256
    modifies decoder, decoder.outBuf, decoder.target
    ensures decoder.Valid() && decoder.continueAt == 0
    ensures !messageEnd ==> decoder.message == old(decoder.message) + begin && decoder.base == old(decoder.base)
    ensures messageEnd ==>
      && decoder.message == []
      && decoder.target.data == old(decoder.base) + Decoded(decoder.decoding, old(decoder.message) + begin)
  {
    hide Decoded, BaseNDecoder.Valid;
    ghost var whole := decoder.message + begin;
    var remaining := decoder.Put2(begin, messageEnd);
    while remaining != 0
      invariant decoder.Valid() && (remaining == 0 <==> decoder.continueAt == 0)
      invariant remaining != 0 ==> decoder.input == begin && decoder.whole == whole && decoder.base == old(decoder.base)
      invariant decoder.continueAt == 2 ==> messageEnd
      invariant remaining == 0 && !messageEnd ==> decoder.message == whole && decoder.base == old(decoder.base)
      invariant remaining == 0 && messageEnd ==>
        decoder.message == [] && decoder.target.data == old(decoder.base) + Decoded(decoder.decoding, whole)
      decreases |decoder.target.schedule| + (if remaining == 0 then 0 else 1)
    {
      remaining := decoder.Put2(begin, messageEnd);
    }
  }
}

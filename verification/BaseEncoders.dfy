/** BaseN_Encoder of basecode.cpp: bytes become characters of one to seven bits, in
    blocks, with the bits of a character carried from one call to the next. */
module BaseEncoders {
  import opened Bits
  import opened ByteStrings
  import opened BitStrings
  import opened Sinks
  import opened Wrappers

  /** The characters of a list of values. */
  function Translate(alphabet: seq<byte>, values: seq<nat>): (text: seq<byte>)
    requires forall i :: 0 <= i < |values| ==> values[i] < |alphabet|
    ensures |text| == |values| && forall i :: 0 <= i < |text| ==> text[i] == alphabet[values[i]]
  {
    seq(|values|, i requires 0 <= i < |values| => alphabet[values[i]])
  }

  /** The values of the characters for a message: its bits in units, the last unit
      filled up with zeros. */
  function EncodedValues(bitsPerChar: nat, bits: seq<bit>): (values: seq<nat>)
    requires bitsPerChar > 0
  {
    Units(bits + Zeros(UpTo(|bits|, bitsPerChar)), bitsPerChar)
  }

  /** The smallest number of characters that make whole bytes. */
  function OutputBlockSize(bitsPerChar: nat): (n: nat)
    requires 1 <= bitsPerChar <= 7
    ensures n > 0 && (bitsPerChar * n) % 8 == 0
  {
    var i := FirstMultiple(8, 8, bitsPerChar);
    assert i == bitsPerChar * (i / bitsPerChar);
    i / bitsPerChar
  }

  method FindOutputBlockSize(bitsPerChar: nat) returns (n: nat)
    requires 1 <= bitsPerChar <= 7
    ensures n == OutputBlockSize(bitsPerChar)
    ensures n > 0 && (bitsPerChar * n) % 8 == 0 && forall m :: 0 < m < n ==> (bitsPerChar * m) % 8 != 0
  {
    var i := 8;
    while i % bitsPerChar != 0
      invariant i % 8 == 0 && 8 <= i <= 8 * bitsPerChar
      invariant FirstMultiple(i, 8, bitsPerChar) == FirstMultiple(8, 8, bitsPerChar)
      decreases 8 * bitsPerChar - i
    {
      StepOn(i, 8, bitsPerChar);
      i := i + 8;
    }
    n := i / bitsPerChar;
    forall m | 0 < m < n
      ensures (bitsPerChar * m) % 8 != 0
    {
      SmallestFactor(8, bitsPerChar, m);
    }
  }

  datatype Coding = Coding(alphabet: seq<byte>, bitsPerChar: nat, padding: Option<byte>) {
    ghost predicate Valid()
    {
      1 <= bitsPerChar <= 7 && |alphabet| == Pow2(bitsPerChar)
    }
  }

  lemma ValuesFit(coding: Coding, bits: seq<bit>)
    requires coding.Valid()
    ensures forall i :: 0 <= i < |EncodedValues(coding.bitsPerChar, bits)| ==>
      EncodedValues(coding.bitsPerChar, bits)[i] < |coding.alphabet|
  {
    UnitsFit(bits + Zeros(UpTo(|bits|, coding.bitsPerChar)), coding.bitsPerChar);
  }

  /** The text of a whole message. */
  ghost function Encoded(coding: Coding, message: seq<byte>): (text: seq<byte>)
    requires coding.Valid()
  {
    ValuesFit(coding, Unpack(message, 8));
    var values := EncodedValues(coding.bitsPerChar, Unpack(message, 8));
    var text := Translate(coding.alphabet, values);
    match coding.padding
    case None => text
    case Some(pad) => text + Fill(pad, UpTo(|values|, OutputBlockSize(coding.bitsPerChar)))
  }

  class BaseNEncoder {
    const coding: Coding
    const target: Sink
    const outputBlockSize: nat
    const outBuf: array<nat>
    var bytePos: nat
    var bitPos: nat
    var inputPosition: nat
    var continueAt: nat

    // The message taken so far, the values of the characters that have left, the bits of
    // the unfinished character, and the target's data when the message began.
    ghost var message: seq<byte>
    ghost var sent: seq<nat>
    ghost var pending: seq<bit>
    ghost var base: seq<byte>
    // While a call is blocked: its input, the values of the finished block, and the
    // message as it will be when the call is over.
    ghost var input: seq<byte>
    ghost var block: seq<nat>
    ghost var whole: seq<byte>

    ghost predicate Sized()
      reads `bytePos
    {
      coding.Valid() && outputBlockSize == OutputBlockSize(coding.bitsPerChar) == outBuf.Length && bytePos <= outputBlockSize
    }

    ghost predicate Shape()
      reads `bytePos, `bitPos, `pending
    {
      && Sized() && bitPos == |pending| < coding.bitsPerChar
      && (bytePos == outputBlockSize ==> bitPos == 0)
    }

    ghost predicate CharsFit()
      requires Shape()
      reads `bytePos, `bitPos, `pending, outBuf
    {
      forall j :: 0 <= j < bytePos ==> outBuf[j] < Pow2(coding.bitsPerChar)
    }

    /** The buffer: whole characters, the unfinished one at the top of its place, and
        zeros.  Before a block begins its contents do not matter. */
    ghost predicate Buffered()
      requires Shape()
      reads `bytePos, `bitPos, `pending, outBuf
    {
      && CharsFit()
      && (bytePos == 0 ==> bitPos == 0)
      && (0 < bytePos < outputBlockSize ==> Clear())
    }

    ghost predicate Clear()
      requires Shape() && bytePos < outputBlockSize
      reads `bytePos, `bitPos, `pending, outBuf
    {
      && outBuf[bytePos] == AtTop(pending, coding.bitsPerChar)
      && forall j :: bytePos < j < outputBlockSize ==> outBuf[j] == 0
    }

    /** The bits in the buffer. */
    ghost function Held(): (b: seq<bit>)
      requires Shape()
      reads `bytePos, `bitPos, `pending, outBuf
    {
      Unpack(outBuf[..bytePos], coding.bitsPerChar) + pending
    }

    ghost function Filled(): (n: nat)
      reads `bytePos, `bitPos
    {
      coding.bitsPerChar * bytePos + bitPos
    }

    ghost predicate Sent()
      requires Shape()
      reads `bytePos, `bitPos, `pending, `sent, `base, target
    {
      Fit(sent, coding.bitsPerChar) && |sent| % outputBlockSize == 0
      && target.data == base + Translate(coding.alphabet, sent)
    }

    /** Between bytes: everything taken has been sent or is in the buffer. */
    ghost predicate Streaming()
      reads `bytePos, `bitPos, `pending, `sent, `base, `message, outBuf, target
    {
      && Shape() && Buffered() && bytePos < outputBlockSize && Filled() % 8 == 0 && Sent()
      && Unpack(sent, coding.bitsPerChar) + Held() == Unpack(message, 8)
    }

    /** A translated block waits to be sent. */
    ghost predicate FullBlock()
      reads `bytePos, `bitPos, `pending, `sent, `base, `message, `block, outBuf, target
    {
      && Shape() && bytePos == outputBlockSize && Sent()
      && Fit(block, coding.bitsPerChar) && |block| == outputBlockSize
      && outBuf[..] == Translate(coding.alphabet, block)
      && Unpack(sent + block, coding.bitsPerChar) == Unpack(message, 8)
    }

    /** The last characters, translated and padded, wait to be sent. */
    ghost predicate Finished()
      reads `bytePos, `base, `message, outBuf, target
    {
      && Sized() && (forall j :: 0 <= j < bytePos ==> outBuf[j] < 256)
      && target.data + outBuf[..bytePos] == base + Encoded(coding, message)
    }

    ghost predicate Valid()
      reads this, outBuf, target
    {
      if continueAt == 0 then Streaming()
      else
        && inputPosition <= |input| && whole == message + input[inputPosition..]
        && if continueAt == 1 then FullBlock() else continueAt == 2 && Finished() && inputPosition == |input|
    }

    constructor (coding: Coding, target: Sink)
      requires coding.Valid()
      ensures Valid() && message == [] && base == target.data && sent == []
      ensures this.coding == coding && this.target == target && fresh(outBuf) && continueAt == 0
    {
      var size := FindOutputBlockSize(coding.bitsPerChar);
      this.coding := coding;
      this.target := target;
      outputBlockSize := size;
      outBuf := new nat[size];
      bytePos, bitPos, inputPosition, continueAt := 0, 0, 0, 0;
      message, sent, pending, base := [], [], [], target.data;
      input, block, whole := [], [], [];
    }

    /** The rest of the unfinished character. */
    method CompleteChar(value: nat, ghost bits: seq<bit>)
      requires Shape() && CharsFit() && bytePos < outputBlockSize && Clear()
      requires bitPos + |bits| == coding.bitsPerChar && value == FromBits(bits)
      modifies outBuf, `bytePos, `bitPos, `pending
      ensures Shape() && CharsFit() && pending == [] && (bytePos < outputBlockSize ==> Clear())
      ensures Held() == old(Held()) + bits && Filled() == old(Filled()) + |bits| && bytePos == old(bytePos) + 1
    {
      hide Pow2, AtTop, FromBits, Unpack;
      ghost var done := outBuf[..bytePos];
      UnitComplete(done, outBuf[bytePos], value, pending, bits, coding.bitsPerChar);
      OneMoreUnit(coding.bitsPerChar, bytePos);
      AtTopNone(coding.bitsPerChar);
      outBuf[bytePos] := outBuf[bytePos] + value;
      bitPos := 0;
      bytePos := bytePos + 1;
      pending := [];
      assert outBuf[..bytePos] == done + [outBuf[bytePos - 1]];
    }

    /** Less than the rest of it. */
    method ExtendChar(value: nat, count: nat, ghost bits: seq<bit>)
      requires Shape() && CharsFit() && bytePos < outputBlockSize && Clear()
      requires count == |bits| && bitPos + count < coding.bitsPerChar && value == AtTop(bits, coding.bitsPerChar - bitPos)
      modifies outBuf, `bitPos, `pending
      ensures Shape() && CharsFit() && Clear()
      ensures Held() == old(Held()) + bits && Filled() == old(Filled()) + count
    {
      hide Pow2, AtTop;
      AtTopConcat(pending, bits, coding.bitsPerChar);
      ghost var done := outBuf[..bytePos];
      outBuf[bytePos] := outBuf[bytePos] + value;
      AppendBits(Unpack(done, coding.bitsPerChar), pending, bits);
      bitPos := bitPos + count;
      pending := pending + bits;
      assert outBuf[..bytePos] == done;
    }

    /** One byte of input.  The or of the source meets only zero bits: it is a sum. */
    method EncodeByte(b: byte)
      requires Shape() && CharsFit() && bytePos < outputBlockSize && Clear()
      requires Filled() + 8 <= coding.bitsPerChar * outputBlockSize
      modifies outBuf, `bytePos, `bitPos, `pending
      ensures Shape() && CharsFit() && (bytePos < outputBlockSize ==> Clear()) && bytePos > 0
      ensures Held() == old(Held()) + BitsOf(b, 8) && Filled() == old(Filled()) + 8
    {
      hide Pow2, AtTop, FromBits, Unpack, BitsOf, Shl, Shr, Low;
      var register: nat, bitsLeftInSource: nat := b, 8;
      ghost var source, start := BitsOf(b, 8), Held();
      ghost var left := source;
      ByteInRegister(b);
      var more := true;
      while more
        invariant Shape() && CharsFit() && (bytePos < outputBlockSize ==> Clear())
        invariant bitsLeftInSource == |left| <= 8
        invariant Held() + left == start + source && Filled() + |left| == old(Filled()) + 8
        invariant more ==> register == AtTop(left, 8) && bytePos < outputBlockSize && |left| > 0
        invariant !more ==> left == [] && bytePos > 0
        decreases more, |left|
      {
        var bitsLeftInTarget: nat := coding.bitsPerChar - bitPos;
        TakeTop(left, 8, bitsLeftInTarget);
        if bitsLeftInSource >= bitsLeftInTarget {
          DropTop(left, 8, bitsLeftInTarget);
          ghost var top := left[..bitsLeftInTarget];
          ghost var held, all := Held(), left;
          CompleteChar(Shr(register, 8 - bitsLeftInTarget), top);
          left := left[bitsLeftInTarget..];
          AppendBits(held, top, left);
          assert top + left == all;
          bitsLeftInSource := bitsLeftInSource - bitsLeftInTarget;
          if bitsLeftInSource == 0 {
            more := false;
          } else {
            register := Low(Shl(register, bitsLeftInTarget), 8);
          }
        } else {
          ExtendChar(Shr(register, 8 - bitsLeftInTarget), bitsLeftInSource, left);
          left := [];
          bitsLeftInSource := 0;
          more := false;
        }
      }
    }

    /** The values of the buffer become characters. */
    method TranslateBuffer()
      requires Sized() && Fit(outBuf[..bytePos], coding.bitsPerChar)
      modifies outBuf
      ensures outBuf[..bytePos] == Translate(coding.alphabet, old(outBuf[..bytePos]))
    {
      hide Pow2;
      ghost var values := outBuf[..bytePos];
      assert forall j :: 0 <= j < bytePos ==> values[j] == outBuf[j];
      for i := 0 to bytePos
        invariant forall j :: 0 <= j < i ==> outBuf[j] == coding.alphabet[values[j]]
        invariant forall j :: i <= j < bytePos ==> outBuf[j] == values[j]
      {
        outBuf[i] := coding.alphabet[outBuf[i]];
      }
    }

    method Output(site: nat, data: seq<byte>, messageEnd: bool) returns (blocked: bool)
      modifies `continueAt, target
      ensures continueAt == if blocked then site else 0
      ensures blocked == Blocks(old(target.schedule)) && target.schedule == After(old(target.schedule), 1)
      ensures blocked ==> target.data == old(target.data) && |target.schedule| < |old(target.schedule)|
      ensures !blocked ==> target.data == old(target.data) + data && |target.schedule| <= |old(target.schedule)|
    {
      blocked := target.Put2(data, messageEnd);
      continueAt := if blocked then site else 0;
    }

    /** Sends the waiting block. */
    method OutputBlock() returns (blocked: bool)
      requires FullBlock()
      modifies `continueAt, `bytePos, `bitPos, `pending, `sent, target
      ensures blocked ==> continueAt == 1 && FullBlock() && |target.schedule| < |old(target.schedule)|
      ensures !blocked ==> continueAt == 0 && Streaming() && bytePos == 0 && |target.schedule| <= |old(target.schedule)|
      ensures blocked == Blocks(old(target.schedule)) && target.schedule == After(old(target.schedule), 1)
      ensures |sent| == |old(sent)| + if blocked then 0 else outputBlockSize
    {
      hide Pow2, Unpack;
      blocked := Output(1, outBuf[..], false);
      if !blocked {
        SentBlock(coding, base, sent, block);
        WholeBlock(outputBlockSize);
        MultipleSum(|sent|, |block|, outputBlockSize);
        sent := sent + block;
        bytePos, bitPos := 0, 0;
        pending := [];
        NothingHeld(coding.bitsPerChar);
        assert outBuf[..0] == [];
        assert Unpack(sent, coding.bitsPerChar) + [] == Unpack(sent, coding.bitsPerChar);
      }
    }

    /** A new block begins with zeros. */
    method ClearBuffer()
      requires Streaming() && bytePos == 0
      modifies outBuf
      ensures Streaming() && Clear()
    {
      hide Pow2, Unpack;
      for i := 0 to outputBlockSize
        invariant forall j :: 0 <= j < i ==> outBuf[j] == 0
      {
        outBuf[i] := 0;
      }
      assert pending == [];
      AtTopNone(coding.bitsPerChar);
      assert outBuf[..0] == old(outBuf[..0]) == [];
    }

    /** Takes one byte, and translates the block if it is full. */
    method TakeByte(b: byte)
      requires Streaming()
      modifies outBuf, `bytePos, `bitPos, `pending, `message, `block
      ensures message == old(message) + [b] && bytePos <= outputBlockSize
      ensures bytePos < outputBlockSize ==> Streaming()
      ensures bytePos == outputBlockSize ==> FullBlock()
    {
      hide Pow2, Unpack, BitsOf, AtTop, Translate, Fit;
      if bytePos == 0 {
        ClearBuffer();
      }
      RoomForByte(coding.bitsPerChar, outputBlockSize, bytePos, bitPos);
      AppendBits(Unpack(sent, coding.bitsPerChar), Held(), BitsOf(b, 8));
      WholeBlock(8);
      MultipleSum(Filled(), 8, 8);
      EncodeByte(b);
      UnpackAppend(message, b, 8);
      message := message + [b];
      if bytePos == outputBlockSize {
        EndBlock();
      }
    }

    method EndBlock()
      requires Shape() && CharsFit() && bytePos == outputBlockSize && Sent()
      requires Unpack(sent, coding.bitsPerChar) + Held() == Unpack(message, 8)
      modifies outBuf, `block
      ensures FullBlock()
    {
      hide Pow2, Unpack;
      block := outBuf[..];
      assert outBuf[..bytePos] == block;
      UnpackConcat(sent, block, coding.bitsPerChar);
      assert Unpack(block, coding.bitsPerChar) + [] == Unpack(block, coding.bitsPerChar);
      BufferFits(coding.bitsPerChar, block);
      TranslateBuffer();
      assert outBuf[..] == outBuf[..bytePos];
    }

    /** The unfinished character is one too, and all are translated. */
    method FinishChars() returns (ghost last: seq<nat>)
      requires Streaming()
      modifies outBuf, `bytePos
      ensures Sized() && Fit(last, coding.bitsPerChar) && |last| == bytePos
      ensures outBuf[..bytePos] == Translate(coding.alphabet, last)
      ensures EncodedValues(coding.bitsPerChar, Unpack(message, 8)) == sent + last
    {
      hide Pow2, Unpack, AtTop, BitsOf, EncodedValues, OutputBlockSize;
      ghost var full := outBuf[..bytePos];
      last := if bitPos == 0 then full else full + [AtTop(pending, coding.bitsPerChar)];
      BufferFits(coding.bitsPerChar, full);
      FinalValues(coding, message, sent, full, pending);
      if bitPos > 0 {
        bytePos := bytePos + 1;
      }
      assert outBuf[..bytePos] == last;
      TranslateBuffer();
    }

    /** At the end of the message: the unfinished character, translation, padding. */
    method Finish()
      requires Streaming()
      modifies outBuf, `bytePos
      ensures Finished()
    {
      hide Pow2, Unpack, AtTop, Encoded, EncodedValues, OutputBlockSize;
      ghost var last := FinishChars();
      WholeText(coding, message, base, target.data, sent, last);
      ghost var text := Translate(coding.alphabet, last);
      assert outBuf[..bytePos] == text;
      if coding.padding.Some? && bytePos > 0 {
        text := text + Fill(coding.padding.value, outputBlockSize - bytePos);
        Pad(coding.padding.value);
      }
      BytesIn(outBuf[..bytePos], text);
    }

    method Pad(b: byte)
      requires outBuf.Length == outputBlockSize >= bytePos
      modifies outBuf, `bytePos
      ensures bytePos == outputBlockSize
      ensures outBuf[..bytePos] == old(outBuf[..bytePos]) + Fill(b, outputBlockSize - old(bytePos))
    {
      var start := bytePos;
      for i := start to outputBlockSize
        invariant bytePos == start
        invariant forall j :: 0 <= j < start ==> outBuf[j] == old(outBuf[j])
        invariant forall j :: start <= j < i ==> outBuf[j] == b
      {
        outBuf[i] := b;
      }
      bytePos := outputBlockSize;
    }

    /** A new message begins where the last one ended. */
    method OutputLast() returns (blocked: bool)
      requires Finished()
      modifies `continueAt, `bytePos, `bitPos, `pending, `sent, `message, `base, target
      ensures blocked ==> continueAt == 2 && Finished() && bytePos == old(bytePos) && message == old(message)
      ensures blocked ==> |target.schedule| < |old(target.schedule)|
      ensures blocked ==> sent == old(sent) && base == old(base)
      ensures !blocked ==> continueAt == 0 && Streaming() && message == [] && base == target.data
      ensures !blocked ==> target.data == old(base) + Encoded(coding, old(message))
      ensures |target.schedule| <= |old(target.schedule)|
    {
      hide Pow2, Encoded;
      blocked := Output(2, outBuf[..bytePos], true);
      if !blocked {
        bytePos, bitPos := 0, 0;
        pending, sent, message, base := [], [], [], target.data;
        NothingHeld(coding.bitsPerChar);
        assert outBuf[..0] == [];
        assert base + Translate(coding.alphabet, []) == base;
      }
    }

    /** Takes input, and the end of a message.  A result other than zero means that the
        target blocked: the same call must be made again. */
    method Put2(begin: seq<byte>, messageEnd: bool) returns (remaining: nat)
      requires Valid()
      requires continueAt != 0 ==> begin == input
      requires continueAt == 2 ==> messageEnd
      modifies this, outBuf, target
      ensures Valid() && (remaining == 0 <==> continueAt == 0) && |target.schedule| <= |old(target.schedule)|
      ensures remaining != 0 ==> input == begin && base == old(base) && |target.schedule| < |old(target.schedule)|
      ensures remaining != 0 ==> whole == (if old(continueAt) == 0 then old(message) + begin else old(whole))
      ensures continueAt == 2 ==> messageEnd
      ensures remaining != 0 ==> remaining == Unsent(if continueAt == 1 then outputBlockSize else bytePos, inputPosition)
      ensures old(continueAt) == 0 && (continueAt == 1 || (continueAt == 0 && !messageEnd)) ==>
        exists taken: nat :: Ran(old(target.schedule), |old(sent)|, taken)
      ensures remaining == 0 && !messageEnd ==>
        message == (if old(continueAt) == 0 then old(message) + begin else old(whole)) && base == old(base)
      ensures remaining == 0 && messageEnd ==>
        && message == [] && base == target.data
        && target.data == old(base) + Encoded(coding, if old(continueAt) == 0 then old(message) + begin else old(whole))
    {
      hide Streaming, FullBlock, Finished, Encoded;
      var site := continueAt;
      if site == 0 {
        inputPosition := 0;
        input := begin;
        whole := message + begin;
        assert begin[0..] == begin;
      }
      if site == 1 {
        var blocked := OutputBlock();
        if blocked {
          return Unsent(outputBlockSize, inputPosition);
        }
      }
      if site != 2 {
        ghost var taken;
        var blocked;
        blocked, taken := TakeBytes(begin);
        if blocked {
          return Unsent(outputBlockSize, inputPosition);
        }
      }
      assert message + begin[|begin|..] == message;
      if messageEnd {
        if site != 2 {
          Finish();
        }
        var blocked := OutputLast();
        if blocked {
          return Unsent(bytePos, inputPosition);
        }
      }
      return 0;
    }

    /** The blocks that a call has sent, and whether the next one was refused. */
    ghost predicate Ran(schedule: seq<bool>, before: nat, taken: nat)
      reads `sent, `continueAt
    {
      |sent| == before + taken * outputBlockSize && Takes(schedule, taken) && (continueAt == 1 ==> Blocks(After(schedule, taken)))
    }

    method TakeBytes(begin: seq<byte>) returns (blocked: bool, ghost taken: nat)
      requires begin == input && Streaming() && continueAt == 0 && inputPosition <= |begin| && whole == message + begin[inputPosition..]
      modifies outBuf, `bytePos, `bitPos, `pending, `message, `block, `sent, `continueAt, `inputPosition, target
      ensures inputPosition <= |begin| && whole == message + begin[inputPosition..]
      ensures blocked ==> continueAt == 1 && FullBlock() && |target.schedule| < |old(target.schedule)|
      ensures !blocked ==> continueAt == 0 && Streaming() && inputPosition == |begin|
      ensures Ran(old(target.schedule), |old(sent)|, taken)
      ensures !blocked ==> |target.schedule| <= |old(target.schedule)|
    {
      hide Streaming, FullBlock, Takes, Blocks, After;
      blocked, taken := false, 0;
      NothingTaken(target.schedule, |sent|, outputBlockSize);
      while inputPosition < |begin|
        invariant Streaming() && continueAt == 0 && inputPosition <= |begin| && whole == message + begin[inputPosition..]
        invariant |target.schedule| <= |old(target.schedule)| && target.schedule == After(old(target.schedule), taken)
        invariant Ran(old(target.schedule), |old(sent)|, taken)
        decreases |begin| - inputPosition
      {
        var b := begin[inputPosition];
        assert begin[inputPosition..] == [b] + begin[inputPosition + 1..];
        AppendAssociative(message, [b], begin[inputPosition + 1..]);
        inputPosition := inputPosition + 1;
        TakeByte(b);
        if bytePos == outputBlockSize {
          TakesNext(old(target.schedule), taken);
          blocked := OutputBlock();
          if blocked {
            return;
          }
          OneMoreUnit(outputBlockSize, taken);
          taken := taken + 1;
        }
      }
    }
  }

  lemma OneMoreUnit(n: nat, k: nat)
    ensures n * (k + 1) == n * k + n
  {
  }

  lemma ByteInRegister(b: byte)
    ensures AtTop(BitsOf(b, 8), 8) == b
  {
    hide Pow2;
    assert Pow2(8) == 256 by { Pow2Eight(); }
    FromBitsOf(b, 8);
    AtTopWhole(BitsOf(b, 8));
  }

  lemma NothingTaken(schedule: seq<bool>, before: nat, size: nat)
    ensures Takes(schedule, 0) && After(schedule, 0) == schedule && before + 0 * size == before
  {
  }

  lemma NothingHeld(n: nat)
    ensures Unpack([], n) == [] && n * 0 + 0 == 0
  {
  }

  lemma SentBlock(coding: Coding, base: seq<byte>, sent: seq<nat>, block: seq<nat>)
    requires coding.Valid() && Fit(sent, coding.bitsPerChar) && Fit(block, coding.bitsPerChar)
    ensures Fit(sent + block, coding.bitsPerChar)
    ensures base + Translate(coding.alphabet, sent) + Translate(coding.alphabet, block)
         == base + Translate(coding.alphabet, sent + block)
  {
    hide Pow2;
    assert Translate(coding.alphabet, sent) + Translate(coding.alphabet, block) == Translate(coding.alphabet, sent + block);
  }

  /** A block that is not full has room for a byte. */
  lemma RoomForByte(n: nat, size: nat, bytePos: nat, bitPos: nat)
    requires bytePos < size && bitPos < n && (n * size) % 8 == 0 && (n * bytePos + bitPos) % 8 == 0
    ensures n * bytePos + bitPos + 8 <= n * size
  {
    MulMonotone(n, bytePos + 1, size);
    assert n * (bytePos + 1) == n * bytePos + n;
    MultipleDifference(n * size, n * bytePos + bitPos, 8);
  }

  lemma BytesIn(buffer: seq<nat>, text: seq<byte>)
    requires buffer == text
    ensures forall j :: 0 <= j < |buffer| ==> buffer[j] < 256
  {
  }

  lemma BufferFits(n: nat, buffer: seq<nat>)
    requires forall j :: 0 <= j < |buffer| ==> buffer[j] < Pow2(n)
    ensures Fit(buffer, n)
  {
  }

  /** Zeros below the bits of a unit. */
  lemma {:induction false} WithZeros(bits: seq<bit>, k: nat)
    ensures FromBits(bits + Zeros(k)) == AtTop(bits, |bits| + k)
  {
    hide Shl, FromBits;
    FromBitsConcat(bits, Zeros(k));
    ZeroBits(k);
  }

  lemma {:induction false} ZeroBits(k: nat)
    ensures FromBits(Zeros(k)) == 0
  {
    if k > 0 {
      assert Zeros(k)[..k - 1] == Zeros(k - 1);
      ZeroBits(k - 1);
    }
  }

  /** The characters sent and in the buffer are those of the message. */
  lemma FinalValues(coding: Coding, message: seq<byte>, sent: seq<nat>, full: seq<nat>, bits: seq<bit>)
    requires coding.Valid() && |bits| < coding.bitsPerChar
    requires Fit(sent, coding.bitsPerChar) && Fit(full, coding.bitsPerChar)
    requires Unpack(sent, coding.bitsPerChar) + (Unpack(full, coding.bitsPerChar) + bits) == Unpack(message, 8)
    ensures var last := if |bits| == 0 then full else full + [AtTop(bits, coding.bitsPerChar)];
      Fit(last, coding.bitsPerChar) && EncodedValues(coding.bitsPerChar, Unpack(message, 8)) == sent + last
  {
    hide Pow2, Unpack, AtTop, FromBits, Units, BitsOf;
    var n := coding.bitsPerChar;
    var all := sent + full;
    UnpackConcat(sent, full, n);
    AppendBits(Unpack(sent, n), Unpack(full, n), bits);
    assert Unpack(message, 8) == Unpack(all, n) + bits;
    UnpackLength(all, n);
    MultipleIsMultiple(|all|, n);
    if |bits| == 0 {
      UpToUnique(|Unpack(message, 8)|, 0, n);
      UnitsOfUnpacked(all, [], n);
      assert Unpack(message, 8) + Zeros(0) == Unpack(all, n) + [];
    } else {
      var value, zeros := AtTop(bits, n), Zeros(n - |bits|);
      WithZeros(bits, n - |bits|);
      AtTopBound(bits, n);
      BitsOfFrom(bits + zeros);
      UnpackAppend(all, value, n);
      WholeBlock(n);
      MultipleSum(n * |all|, n, n);
      UpToUnique(|Unpack(message, 8)|, n - |bits|, n);
      AppendBits(Unpack(all, n), bits, zeros);
      UnitsOfUnpacked(all + [value], [], n);
      assert Unpack(all + [value], n) + [] == Unpack(all + [value], n);
      assert all + [value] == sent + (full + [value]);
    }
  }

  /** The text of the message in its two parts, with the padding that is due. */
  lemma EncodedText(coding: Coding, message: seq<byte>, sent: seq<nat>, last: seq<nat>)
    requires coding.Valid() && Fit(sent, coding.bitsPerChar) && Fit(last, coding.bitsPerChar)
    requires EncodedValues(coding.bitsPerChar, Unpack(message, 8)) == sent + last
    requires |sent| % OutputBlockSize(coding.bitsPerChar) == 0 && |last| <= OutputBlockSize(coding.bitsPerChar)
    ensures var text := Translate(coding.alphabet, sent) + Translate(coding.alphabet, last);
      Encoded(coding, message) ==
        if coding.padding.Some? && |last| > 0 then text + Fill(coding.padding.value, OutputBlockSize(coding.bitsPerChar) - |last|)
        else text
  {
    hide Pow2, Unpack, EncodedValues, OutputBlockSize;
    var size := OutputBlockSize(coding.bitsPerChar);
    var text := Translate(coding.alphabet, sent) + Translate(coding.alphabet, last);
    ValuesFit(coding, Unpack(message, 8));
    assert Translate(coding.alphabet, sent + last) == text;
    if |last| > 0 {
      WholeBlock(size);
      MultipleSum(|sent|, size, size);
      UpToUnique(|sent + last|, size - |last|, size);
    } else {
      UpToUnique(|sent + last|, 0, size);
      assert coding.padding.Some? ==> text + Fill(coding.padding.value, 0) == text;
    }
  }

  lemma WholeText(coding: Coding, message: seq<byte>, base: seq<byte>, data: seq<byte>, sent: seq<nat>, last: seq<nat>)
    requires coding.Valid() && Fit(sent, coding.bitsPerChar) && Fit(last, coding.bitsPerChar)
    requires EncodedValues(coding.bitsPerChar, Unpack(message, 8)) == sent + last
    requires |sent| % OutputBlockSize(coding.bitsPerChar) == 0 && |last| <= OutputBlockSize(coding.bitsPerChar)
    requires data == base + Translate(coding.alphabet, sent)
    ensures var text := Translate(coding.alphabet, last); var size := OutputBlockSize(coding.bitsPerChar);
      data + (if coding.padding.Some? && |last| > 0 then text + Fill(coding.padding.value, size - |last|) else text)
      == base + Encoded(coding, message)
  {
    hide Pow2, Unpack, Encoded, EncodedValues, OutputBlockSize, Translate;
    EncodedText(coding, message, sent, last);
    var first, text := Translate(coding.alphabet, sent), Translate(coding.alphabet, last);
    AppendAssociative(base, first, text);
    if coding.padding.Some? && |last| > 0 {
      var fill := Fill(coding.padding.value, OutputBlockSize(coding.bitsPerChar) - |last|);
      AppendAssociative(first, text, fill);
      AppendAssociative(base, first, text + fill);
    }
  }

  /** A message in any pieces, each call repeated while the target blocks. */
  method EncodeMessage(encoder: BaseNEncoder, pieces: seq<seq<byte>>, last: seq<byte>)
    requires encoder.Valid() && encoder.continueAt == 0 && encoder.message == []
    modifies encoder, encoder.outBuf, encoder.target
    ensures encoder.Valid() && encoder.continueAt == 0 && encoder.message == []
    ensures encoder.target.data == old(encoder.base) + Encoded(encoder.coding, Concat(pieces) + last)
  {
    hide Encoded, BaseNEncoder.Valid;
    for i := 0 to |pieces|
      invariant encoder.Valid() && encoder.continueAt == 0
      invariant encoder.message == Concat(pieces[..i]) && encoder.base == old(encoder.base)
    {
      PutUntilDone(encoder, pieces[i], false);
      assert pieces[..i + 1][..i] == pieces[..i];
    }
    assert pieces[..|pieces|] == pieces;
    PutUntilDone(encoder, last, true);
  }

  lemma ValidCoding(encoder: BaseNEncoder)
    requires encoder.Valid()
    ensures encoder.coding.Valid()
  {
  }

  method PutUntilDone(encoder: BaseNEncoder, begin: seq<byte>, messageEnd: bool)
    requires encoder.Valid() && encoder.continueAt == 0
    modifies encoder, encoder.outBuf, encoder.target
    ensures encoder.Valid() && encoder.continueAt == 0
    ensures !messageEnd ==> encoder.message == old(encoder.message) + begin && encoder.base == old(encoder.base)
    ensures messageEnd ==>
      && encoder.message == []
      && encoder.target.data == old(encoder.base) + Encoded(encoder.coding, old(encoder.message) + begin)
  {
    hide Encoded, BaseNEncoder.Valid;
    ValidCoding(encoder);
    ghost var whole := encoder.message + begin;
    var remaining := encoder.Put2(begin, messageEnd);
    while remaining != 0
      invariant encoder.Valid() && (remaining == 0 <==> encoder.continueAt == 0)
      invariant remaining != 0 ==> encoder.input == begin && encoder.whole == whole && encoder.base == old(encoder.base)
      invariant encoder.continueAt == 2 ==> messageEnd
      invariant remaining == 0 && !messageEnd ==> encoder.message == whole && encoder.base == old(encoder.base)
      invariant remaining == 0 && messageEnd ==>
        encoder.message == [] && encoder.target.data == old(encoder.base) + Encoded(encoder.coding, whole)
      decreases |encoder.target.schedule| + (if remaining == 0 then 0 else 1)
    {
      remaining := encoder.Put2(begin, messageEnd);
    }
  }

  // ------------------------------------------------------------------
  // What a blocked call returns need not be the input that is left

  /** Six bytes in base 64, of which the target takes the first block and refuses the
      second: nothing is left, and the call returns 4 - 6, wrapped around. */
  method ReportFails() returns (remaining: nat, left: nat)
    ensures remaining == SIZE_LIMIT - 2 && left == 0
  {
    hide Pow2, OutputBlockSize, BaseNEncoder.Ran;
    SixtyFour();
    var target := new Sink([false, true]);
    var encoder := new BaseNEncoder(Coding(seq(64, i => i), 6, None), target);
    var begin: seq<byte> := [0, 0, 0, 0, 0, 0];
    assert [] + begin == begin;
    remaining := encoder.Put2(begin, false);
    SecondRefused(encoder, begin);
    left := |begin| - encoder.inputPosition;
  }

  lemma SixtyFour()
    ensures Pow2(6) == 64 && OutputBlockSize(6) == 4
  {
    Pow2Four();
    assert Pow2(6) == 2 * Pow2(5) == 4 * Pow2(4);
    assert FirstMultiple(24, 8, 6) == 24;
    assert FirstMultiple(16, 8, 6) == 24;
  }

  /** The only way in which the schedule lets the call end. */
  lemma SecondRefused(e: BaseNEncoder, begin: seq<byte>)
    requires e.Valid() && e.coding.bitsPerChar == 6 && e.outputBlockSize == 4 && |begin| == 6
    requires e.continueAt == 0 || e.continueAt == 1
    requires e.continueAt == 0 ==> e.message == begin
    requires e.continueAt == 1 ==> e.input == begin && e.whole == begin
    requires exists taken: nat :: e.Ran([false, true], 0, taken)
    ensures e.continueAt == 1 && e.inputPosition == 6
  {
    hide Pow2, Unpack, OutputBlockSize;
    var taken: nat :| e.Ran([false, true], 0, taken);
    UnpackLength(e.message, 8);
    UnpackLength(e.sent, 6);
    assert !Takes([false, true], 2) by {
      assert [false, true][1];
    }
    if e.continueAt == 0 {
      UnpackLength(e.outBuf[..e.bytePos], 6);
    } else {
      UnpackLength(e.sent + e.block, 6);
      assert 24 * (taken + 1) == 8 * |e.message|;
    }
  }
}

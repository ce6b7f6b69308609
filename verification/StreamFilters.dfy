/** StreamTransformationFilter of filters.cpp over block ciphers: padding on the way in,
    its removal on the way out, and chained blocks in between. */
module StreamFilters {
  import opened Bits
  import opened ByteStrings
  import opened BlockQueues
  import opened BufferedFilters
  import opened Wrappers

  datatype Padding = NO_PADDING | ZEROS_PADDING | PKCS_PADDING | ONE_AND_ZEROS_PADDING

  datatype Error = LengthNotMultiple | InvalidPadding

  /** A block cipher with a mode: each block is transformed in a state that the block
      before it left.  MinLastBlockSize is zero. */
  datatype StreamTransformation<!S> = StreamTransformation(
    mandatoryBlockSize: nat, isForward: bool, step: (S, seq<byte>) -> (S, seq<byte>))

  ghost predicate KeepsLength<S(!new)>(t: StreamTransformation<S>)
  {
    && t.mandatoryBlockSize > 0
    && forall st: S, b: seq<byte> :: |b| == t.mandatoryBlockSize ==> |t.step(st, b).1| == t.mandatoryBlockSize
  }

  /** u takes back what t does, block by block, and both reach the same state. */
  ghost predicate TakesBack<S(!new)>(t: StreamTransformation<S>, u: StreamTransformation<S>)
  {
    && t.mandatoryBlockSize == u.mandatoryBlockSize && KeepsLength(t) && KeepsLength(u)
    && forall st: S, b: seq<byte> :: |b| == t.mandatoryBlockSize ==> u.step(st, t.step(st, b).1) == (t.step(st, b).0, b)
  }

  /** The whole blocks of data transformed from state st on. */
  ghost function Process<S(!new)>(t: StreamTransformation<S>, st: S, data: seq<byte>): (r: (S, seq<byte>))
    decreases |data|
  {
    if t.mandatoryBlockSize == 0 || |data| < t.mandatoryBlockSize then (st, [])
    else
      var one := t.step(st, data[..t.mandatoryBlockSize]);
      var more := Process(t, one.0, data[t.mandatoryBlockSize..]);
      (more.0, one.1 + more.1)
  }

  lemma ProcessStep<S(!new)>(t: StreamTransformation<S>, st: S, block: seq<byte>, rest: seq<byte>)
    requires |block| == t.mandatoryBlockSize > 0
    ensures var more := Process(t, t.step(st, block).0, rest);
      Process(t, st, block + rest) == (more.0, t.step(st, block).1 + more.1)
  {
    assert (block + rest)[..|block|] == block && (block + rest)[|block|..] == rest;
  }

  lemma ProcessNothing<S(!new)>(t: StreamTransformation<S>, st: S, b: seq<byte>)
    requires t.mandatoryBlockSize > 0
    ensures Process(t, st, []) == (st, []) && [] + b == b
  {
  }

  lemma {:induction false} ProcessConcat<S(!new)>(t: StreamTransformation<S>, st: S, a: seq<byte>, b: seq<byte>)
    requires t.mandatoryBlockSize > 0 && |a| % t.mandatoryBlockSize == 0
    ensures var first := Process(t, st, a); var second := Process(t, first.0, b);
      Process(t, st, a + b) == (second.0, first.1 + second.1)
    decreases |a|
  {
    hide Process;
    if |a| == 0 {
      ProcessNothing(t, st, b);
      ProcessNothing(t, st, Process(t, st, b).1);
      assert a == [];
    } else {
      var block, rest := FirstBlock(a, t.mandatoryBlockSize);
      AppendAssociative(block, rest, b);
      ProcessStep(t, st, block, rest);
      ProcessStep(t, st, block, rest + b);
      var one := t.step(st, block);
      ProcessConcat(t, one.0, rest, b);
      var more := Process(t, one.0, rest);
      AppendAssociative(one.1, more.1, Process(t, more.0, b).1);
    }
  }

  lemma FirstBlock(a: seq<byte>, s: nat) returns (block: seq<byte>, rest: seq<byte>)
    requires s > 0 && |a| > 0 && |a| % s == 0
    ensures a == block + rest && |block| == s && |rest| % s == 0
  {
    SmallMultiple(|a|, s);
    WholeBlock(s);
    MultipleDifference(|a|, s, s);
    block, rest := a[..s], a[s..];
  }

  lemma {:induction false} ProcessLength<S(!new)>(t: StreamTransformation<S>, st: S, data: seq<byte>)
    requires KeepsLength(t) && |data| % t.mandatoryBlockSize == 0
    ensures |Process(t, st, data).1| == |data|
    decreases |data|
  {
    hide Process;
    if |data| == 0 {
      ProcessNothing(t, st, []);
      assert data == [];
    } else {
      var block, rest := FirstBlock(data, t.mandatoryBlockSize);
      ProcessStep(t, st, block, rest);
      ProcessLength(t, t.step(st, block).0, rest);
    }
  }

  /** Taking back block by block takes back the whole. */
  lemma {:induction false} ProcessInverse<S(!new)>(t: StreamTransformation<S>, u: StreamTransformation<S>, st: S, data: seq<byte>)
    requires TakesBack(t, u) && |data| % t.mandatoryBlockSize == 0
    ensures Process(u, st, Process(t, st, data).1) == (Process(t, st, data).0, data)
    decreases |data|
  {
    hide Process;
    if |data| == 0 {
      ProcessNothing(t, st, []);
      ProcessNothing(u, st, []);
      assert data == [];
    } else {
      var block, rest := FirstBlock(data, t.mandatoryBlockSize);
      var one := t.step(st, block);
      ProcessStep(t, st, block, rest);
      ProcessInverse(t, u, one.0, rest);
      ProcessStep(u, st, one.1, Process(t, one.0, rest).1);
    }
  }

  // ------------------------------------------------------------------
  // Padding

  /** The last block: what is left of the message, padded; section 6.3 of RFC 5652 for
      PKCS. */
  function Pad(padding: Padding, s: nat, rest: seq<byte>): (block: seq<byte>)
    requires |rest| < s && (padding == PKCS_PADDING ==> s < 256)
    ensures |block| == s
  {
    match padding
    case PKCS_PADDING => rest + Fill(s - |rest|, s - |rest|)
    case ONE_AND_ZEROS_PADDING => rest + [0x80] + Fill(0, s - |rest| - 1)
    case _ => rest + Fill(0, s - |rest|)
  }

  /** The bytes of the padding: n bytes n, or 0x80 and zeros, or zeros. */
  lemma PadBytes(padding: Padding, s: nat, rest: seq<byte>)
    requires |rest| < s && (padding == PKCS_PADDING ==> s < 256)
    ensures var block := Pad(padding, s, rest);
      && block[..|rest|] == rest
      && (padding == PKCS_PADDING ==> forall i :: |rest| <= i < s ==> block[i] == s - |rest|)
      && (padding == ONE_AND_ZEROS_PADDING ==> block[|rest|] == 0x80 && forall i :: |rest| < i < s ==> block[i] == 0)
      && (padding != PKCS_PADDING && padding != ONE_AND_ZEROS_PADDING ==> forall i :: |rest| <= i < s ==> block[i] == 0)
  {
  }

  /** A block ends in n bytes n. */
  predicate EndsInPad(block: seq<byte>)
  {
    |block| > 0 &&
    var pad := block[|block| - 1];
    1 <= pad <= |block| && forall i :: |block| - pad <= i < |block| ==> block[i] == pad
  }

  /** What stands before the last 0x80 followed by zeros only. */
  function BeforeOne(block: seq<byte>): (r: Option<seq<byte>>)
  {
    if |block| == 0 then None
    else if block[|block| - 1] == 0x80 then Some(block[..|block| - 1])
    else if block[|block| - 1] == 0 then BeforeOne(block[..|block| - 1])
    else None
  }

  function Unpad(padding: Padding, block: seq<byte>): (r: Option<seq<byte>>)
  {
    if padding == PKCS_PADDING then
      if EndsInPad(block) then Some(block[..|block| - block[|block| - 1]]) else None
    else BeforeOne(block)
  }

  predicate Marks(padding: Padding) { padding == PKCS_PADDING || padding == ONE_AND_ZEROS_PADDING }

  lemma {:induction false} BeforeOneFound(rest: seq<byte>, zeros: nat)
    ensures BeforeOne(rest + [0x80] + Fill(0, zeros)) == Some(rest)
  {
    var block := rest + [0x80] + Fill(0, zeros);
    if zeros == 0 {
      assert block == rest + [0x80];
    } else {
      BeforeOneFound(rest, zeros - 1);
      assert block[..|block| - 1] == rest + [0x80] + Fill(0, zeros - 1);
    }
  }

  lemma {:induction false} BeforeOneForm(block: seq<byte>)
    requires BeforeOne(block).Some?
    ensures var r := BeforeOne(block).value; |r| < |block| && block == r + [0x80] + Fill(0, |block| - |r| - 1)
  {
    var shorter := block[..|block| - 1];
    if block[|block| - 1] == 0 {
      BeforeOneForm(shorter);
      var r := BeforeOne(block).value;
      assert block == shorter + [0];
      assert Fill(0, |shorter| - |r| - 1) + [0] == Fill(0, |block| - |r| - 1);
    }
  }

  /** Padding is taken off again. */
  lemma UnpadPad(padding: Padding, s: nat, rest: seq<byte>)
    requires Marks(padding) && |rest| < s && (padding == PKCS_PADDING ==> s < 256)
    ensures Unpad(padding, Pad(padding, s, rest)) == Some(rest)
  {
    if padding == ONE_AND_ZEROS_PADDING {
      BeforeOneFound(rest, s - |rest| - 1);
    } else {
      var block := Pad(padding, s, rest);
      assert block[..|rest|] == rest;
    }
  }

  /** Only one block is the padding of what comes off it. */
  lemma PadUnpad(padding: Padding, block: seq<byte>)
    requires Marks(padding) && Unpad(padding, block).Some? && (padding == PKCS_PADDING ==> |block| < 256)
    ensures var rest := Unpad(padding, block).value; |rest| < |block| && Pad(padding, |block|, rest) == block
  {
    if padding == ONE_AND_ZEROS_PADDING {
      BeforeOneForm(block);
    } else {
      var pad := block[|block| - 1];
      assert block == block[..|block| - pad] + Fill(pad, pad);
    }
  }

  // ------------------------------------------------------------------
  // The filter as a function of the message

  /** LastBlockSize */
  function LastBlockSize<S>(t: StreamTransformation<S>, padding: Padding): (n: nat)
  {
    if t.mandatoryBlockSize > 1 && !t.isForward && padding != NO_PADDING && padding != ZEROS_PADDING then t.mandatoryBlockSize
    else 0
  }

  function FilterSizes<S>(t: StreamTransformation<S>, padding: Padding): (sz: Sizes)
  {
    Sizes(0, t.mandatoryBlockSize, LastBlockSize(t, padding))
  }

  /** The paddings that put marks are for blocks of more than one byte, and PKCS counts
      up to the block size in one byte. */
  predicate Suits<S>(t: StreamTransformation<S>, padding: Padding)
  {
    && t.mandatoryBlockSize > 0
    && (Marks(padding) ==> t.mandatoryBlockSize > 1)
    && (padding == PKCS_PADDING ==> t.mandatoryBlockSize < 256)
  }

  /** The output for the last part of the message, with the state it leaves. */
  ghost function LastOutput<S(!new)>(t: StreamTransformation<S>, padding: Padding, st: S, last: seq<byte>): (r: Result<(S, seq<byte>), Error>)
    requires Suits(t, padding)
    requires t.isForward ==> |last| < t.mandatoryBlockSize
  {
    var s := t.mandatoryBlockSize;
    if Marks(padding) then
      if t.isForward then Ok(Process(t, st, Pad(padding, s, last)))
      else if |last| != s then Err(LengthNotMultiple)
      else
        var block := Process(t, st, last);
        match Unpad(padding, block.1)
        case None => Err(InvalidPadding)
        case Some(rest) => Ok((block.0, rest))
    else if |last| == 0 then Ok((st, []))
    else if t.isForward && padding == ZEROS_PADDING then Ok(Process(t, st, Pad(padding, s, last)))
    else Err(LengthNotMultiple)
  }

  /** The output for a whole message. */
  ghost function FilterOutput<S(!new)>(t: StreamTransformation<S>, padding: Padding, st: S, message: seq<byte>): (r: Result<seq<byte>, Error>)
    requires Suits(t, padding)
  {
    var e := Emitted(FilterSizes(t, padding), |message|);
    var middle := Process(t, st, message[..e]);
    match LastOutput(t, padding, middle.0, message[e..])
    case Ok(last) => Ok(middle.1 + last.1)
    case Err(error) => Err(error)
  }

  /** Encrypting through the filter: the message with its padding, block by block. */
  lemma ForwardOutput<S(!new)>(t: StreamTransformation<S>, padding: Padding, st: S, message: seq<byte>)
    requires Suits(t, padding) && Marks(padding) && t.isForward
    ensures var s := t.mandatoryBlockSize; var e := RoundDown(|message|, s);
      FilterOutput(t, padding, st, message) == Ok(Process(t, st, message[..e] + Pad(padding, s, message[e..])).1)
  {
    hide Process, Pad;
    var s := t.mandatoryBlockSize;
    var e := RoundDown(|message|, s);
    ProcessConcat(t, st, message[..e], Pad(padding, s, message[e..]));
  }

  /** Where a decrypting filter cuts its last block off. */
  lemma LastBlockCut(sz: Sizes, n: nat)
    requires sz.firstSize == 0 && sz.blockSize == sz.lastSize > 0
    ensures var s, e := sz.blockSize, Emitted(sz, n);
      && e % s == 0
      && (n - e == s <==> n > 0 && n % s == 0)
  {
    var s, e := sz.blockSize, Emitted(sz, n);
    WholeBlock(s);
    if n > 0 && n % s == 0 {
      SmallMultiple(n, s);
      MultipleDifference(n, s, s);
      MultipleUnique(e, n - s, n - s, s);
    }
    if n - e == s {
      MultipleSum(e, s, s);
    }
  }

  /** The last block apart from the others. */
  lemma LastBlockApart<S(!new)>(u: StreamTransformation<S>, st: S, message: seq<byte>, e: nat)
    requires KeepsLength(u) && e + u.mandatoryBlockSize == |message| && e % u.mandatoryBlockSize == 0
    ensures var data := Process(u, st, message).1; var middle := Process(u, st, message[..e]);
      |data| == |message| && data[..e] == middle.1 && data[e..] == Process(u, middle.0, message[e..]).1
  {
    hide Process;
    var s := u.mandatoryBlockSize;
    WholeBlock(s);
    MultipleSum(e, s, s);
    assert message == message[..e] + message[e..];
    ProcessConcat(u, st, message[..e], message[e..]);
    ProcessLength(u, st, message[..e]);
    ProcessLength(u, st, message);
  }

  /** Decrypting through the filter: of whole blocks, all but the last go through. */
  lemma BackwardOutput<S(!new)>(u: StreamTransformation<S>, padding: Padding, st: S, message: seq<byte>)
    requires Suits(u, padding) && Marks(padding) && !u.isForward && KeepsLength(u)
    ensures (|message| == 0 || |message| % u.mandatoryBlockSize != 0) ==>
      FilterOutput(u, padding, st, message) == Err(LengthNotMultiple)
    ensures |message| > 0 && |message| % u.mandatoryBlockSize == 0 ==>
      var s := u.mandatoryBlockSize; var data := Process(u, st, message).1;
      && |data| == |message| >= s
      && FilterOutput(u, padding, st, message) ==
         match Unpad(padding, data[|data| - s..]) case None => Err(InvalidPadding) case Some(rest) => Ok(data[..|data| - s] + rest)
  {
    hide Process, Unpad, KeepsLength, Emitted;
    var s := u.mandatoryBlockSize;
    var e := Emitted(FilterSizes(u, padding), |message|);
    LastBlockCut(FilterSizes(u, padding), |message|);
    if |message| > 0 && |message| % s == 0 {
      LastBlockApart(u, st, message, e);
    }
  }

  /** Decryption through the filter returns what was encrypted through the filter. */
  lemma PaddingRoundTrip<S(!new)>(t: StreamTransformation<S>, u: StreamTransformation<S>, padding: Padding, st: S, message: seq<byte>)
    requires Suits(t, padding) && Marks(padding) && t.isForward && !u.isForward && TakesBack(t, u)
    ensures var c := FilterOutput(t, padding, st, message);
      c.Ok? && FilterOutput(u, padding, st, c.value) == Ok(message)
  {
    hide Process, Pad, Unpad, FilterOutput;
    var s := t.mandatoryBlockSize;
    var e := RoundDown(|message|, s);
    var padded := message[..e] + Pad(padding, s, message[e..]);
    WholeBlock(s);
    MultipleSum(e, s, s);
    ForwardOutput(t, padding, st, message);
    ProcessLength(t, st, padded);
    ProcessInverse(t, u, st, padded);
    BackwardOutput(u, padding, st, Process(t, st, padded).1);
    UnpadPad(padding, s, message[e..]);
    assert padded[..|padded| - s] == message[..e] && padded[|padded| - s..] == Pad(padding, s, message[e..]);
    assert message == message[..e] + message[e..];
  }

  /** The message taken from whole blocks, padded again, is those blocks. */
  lemma PadAgain(padding: Padding, s: nat, data: seq<byte>)
    requires Marks(padding) && (padding == PKCS_PADDING ==> s < 256) && 0 < s <= |data| && |data| % s == 0
    requires Unpad(padding, data[|data| - s..]).Some?
    ensures var m := data[..|data| - s] + Unpad(padding, data[|data| - s..]).value;
      data == m[..RoundDown(|m|, s)] + Pad(padding, s, m[RoundDown(|m|, s)..])
  {
    hide Pad, Unpad;
    var e := |data| - s;
    var rest := Unpad(padding, data[e..]).value;
    var m := data[..e] + rest;
    WholeBlock(s);
    MultipleDifference(|data|, s, s);
    PadUnpad(padding, data[e..]);
    MultipleUnique(RoundDown(|m|, s), e, |m|, s);
    assert m[..e] == data[..e] && m[e..] == rest;
    assert data == data[..e] + data[e..];
  }

  /** What the filter accepts for decryption is the encryption of what it returns. */
  lemma AcceptedIsEncrypted<S(!new)>(t: StreamTransformation<S>, u: StreamTransformation<S>, padding: Padding, st: S, c: seq<byte>)
    requires Suits(t, padding) && Marks(padding) && t.isForward && !u.isForward && TakesBack(u, t)
    ensures var m := FilterOutput(u, padding, st, c);
      m.Ok? ==> FilterOutput(t, padding, st, m.value) == Ok(c)
  {
    hide Process, Pad, Unpad, FilterOutput, TakesBack;
    assert u.mandatoryBlockSize == t.mandatoryBlockSize && KeepsLength(u) by { TakesBackSizes(u, t); }
    BackwardOutput(u, padding, st, c);
    var m := FilterOutput(u, padding, st, c);
    if m.Ok? {
      PadAgain(padding, u.mandatoryBlockSize, Process(u, st, c).1);
      ForwardOutput(t, padding, st, m.value);
      ProcessInverse(u, t, st, c);
    }
  }

  lemma TakesBackSizes<S(!new)>(u: StreamTransformation<S>, t: StreamTransformation<S>)
    requires TakesBack(u, t)
    ensures u.mandatoryBlockSize == t.mandatoryBlockSize && KeepsLength(u)
  {
  }

  /** Whole blocks without marks go through as they are. */
  lemma WholeBlocksOutput<S(!new)>(t: StreamTransformation<S>, padding: Padding, st: S, data: seq<byte>)
    requires Suits(t, padding) && !Marks(padding) && |data| % t.mandatoryBlockSize == 0
    ensures FilterOutput(t, padding, st, data) == Ok(Process(t, st, data).1)
  {
    hide Process;
    MultipleUnique(RoundDown(|data|, t.mandatoryBlockSize), |data|, |data|, t.mandatoryBlockSize);
    assert data[..|data|] == data && data[|data|..] == [];
    var out := Process(t, st, data).1;
    assert out + [] == out;
  }

  /** Without padding exactly the whole blocks go through, and back. */
  lemma NoPaddingRoundTrip<S(!new)>(t: StreamTransformation<S>, u: StreamTransformation<S>, st: S, message: seq<byte>)
    requires t.isForward && !u.isForward && TakesBack(t, u)
    ensures var c := FilterOutput(t, NO_PADDING, st, message);
      && (c.Ok? <==> |message| % t.mandatoryBlockSize == 0)
      && (c.Ok? ==> FilterOutput(u, NO_PADDING, st, c.value) == Ok(message))
  {
    hide Process;
    var s := t.mandatoryBlockSize;
    if |message| % s == 0 {
      WholeBlocksOutput(t, NO_PADDING, st, message);
      ProcessLength(t, st, message);
      ProcessInverse(t, u, st, message);
      WholeBlocksOutput(u, NO_PADDING, st, Process(t, st, message).1);
    }
  }

  /** A message that does not end with a block is filled up with zeros. */
  lemma ZerosOutput<S(!new)>(t: StreamTransformation<S>, st: S, message: seq<byte>)
    requires Suits(t, ZEROS_PADDING) && t.isForward && |message| % t.mandatoryBlockSize != 0
    ensures var s := t.mandatoryBlockSize; var padded := message + Fill(0, s - |message| % s);
      |padded| % s == 0 && FilterOutput(t, ZEROS_PADDING, st, message) == Ok(Process(t, st, padded).1)
  {
    hide Process;
    var s := t.mandatoryBlockSize;
    var e := RoundDown(|message|, s);
    WholeBlock(s);
    MultipleSum(e, s, s);
    DivModUnique(|message|, s, e / s, |message| - e);
    var padded := message + Fill(0, s - |message| % s);
    var last := Pad(ZEROS_PADDING, s, message[e..]);
    assert padded == message[..e] + last;
    ProcessConcat(t, st, message[..e], last);
  }

  /** Zeros padding comes back with its zeros. */
  lemma ZerosPaddingRoundTrip<S(!new)>(t: StreamTransformation<S>, u: StreamTransformation<S>, st: S, message: seq<byte>)
    requires t.isForward && !u.isForward && TakesBack(t, u)
    ensures var s := t.mandatoryBlockSize; var c := FilterOutput(t, ZEROS_PADDING, st, message);
      && c.Ok?
      && FilterOutput(u, ZEROS_PADDING, st, c.value)
         == Ok(if |message| % s == 0 then message else message + Fill(0, s - |message| % s))
  {
    hide Process, FilterOutput;
    var s := t.mandatoryBlockSize;
    var padded := if |message| % s == 0 then message else message + Fill(0, s - |message| % s);
    if |message| % s == 0 {
      WholeBlocksOutput(t, ZEROS_PADDING, st, message);
    } else {
      ZerosOutput(t, st, message);
    }
    ProcessLength(t, st, padded);
    ProcessInverse(t, u, st, padded);
    WholeBlocksOutput(u, ZEROS_PADDING, st, Process(t, st, padded).1);
  }

  // ------------------------------------------------------------------
  // The object

  /** Calls that bring whole blocks, besides an empty FirstPut. */
  ghost predicate BlockCalls(calls: seq<Call>, s: nat)
    requires s > 0
  {
    forall i :: 0 <= i < |calls| ==>
      (calls[i] == FirstPut([]) || (calls[i].NextPut? && |calls[i].data| % s == 0))
  }

  lemma {:induction false} BlockCallsJoined(calls: seq<Call>, s: nat)
    requires s > 0 && BlockCalls(calls, s)
    ensures |Joined(calls)| % s == 0
  {
    if |calls| > 0 {
      BlockCallsJoined(calls[..|calls| - 1], s);
      assert calls[|calls| - 1].data == [] || |calls[|calls| - 1].data| % s == 0;
      MultipleSum(|Joined(calls[..|calls| - 1])|, |calls[|calls| - 1].data|, s);
    }
  }

  lemma StartedBlockCalls(sz: Sizes, calls: seq<Call>, message: seq<byte>, held: seq<byte>)
    requires Started(sz, calls, message, held) && sz.firstSize == 0
    ensures BlockCalls(calls, sz.blockSize) && Joined(calls) == message[..Emitted(sz, |message|)]
    ensures held == message[Emitted(sz, |message|)..] && |held| < sz.blockSize + sz.lastSize
  {
    JoinedHead(calls);
    forall i | 0 <= i < |calls|
      ensures calls[i] == FirstPut([]) || (calls[i].NextPut? && |calls[i].data| % sz.blockSize == 0)
    {
      if i > 0 { assert calls[i] == calls[1..][i - 1]; }
    }
  }

  class StreamTransformationFilter<S(!new)> {
    const cipher: StreamTransformation<S>
    const padding: Padding
    const filter: FilterWithBufferedInput
    var state: S
    var output: seq<byte>
    ghost var start: S

    ghost predicate Valid()
      reads this, filter, filter.queue, filter.queue.buffer
    {
      && Suits(cipher, padding) && KeepsLength(cipher)
      && filter.Valid() && filter.sizes == FilterSizes(cipher, padding)
      && (state, output) == Process(cipher, start, Joined(filter.trace))
    }

    constructor (cipher: StreamTransformation<S>, padding: Padding, start: S)
      requires Suits(cipher, padding) && KeepsLength(cipher)
      ensures Valid() && filter.message == [] && state == start && this.start == start && output == []
      ensures this.cipher == cipher && this.padding == padding
      ensures fresh(filter) && fresh(filter.queue) && fresh(filter.queue.buffer)
    {
      this.cipher := cipher;
      this.padding := padding;
      filter := new FilterWithBufferedInput(0, cipher.mandatoryBlockSize, LastBlockSize(cipher, padding));
      state := start;
      output := [];
      this.start := start;
    }

    /** Takes a piece of the message; at its end the result is the whole output. */
    method Put2(inString: seq<byte>, messageEnd: bool) returns (result: Result<seq<byte>, Error>)
      requires Valid()
      modifies this, filter, filter.queue, filter.queue.buffer
      ensures filter.queue.buffer == old(filter.queue.buffer) || fresh(filter.queue.buffer)
      ensures !messageEnd ==>
        Valid() && result == Ok([]) && filter.message == old(filter.message) + inString && start == old(start)
      ensures messageEnd ==> result == FilterOutput(cipher, padding, old(start), old(filter.message) + inString)
      ensures messageEnd && result.Ok? ==> Valid() && filter.message == [] && output == [] && start == state
    {
      hide Process, Started, Complete, FilterOutput, LastOutput, KeepsLength, Joined, BlockCalls;
      ghost var before, message := filter.trace, filter.message + inString;
      var made := filter.PutMaybeModifiable(inString, messageEnd, true);
      var calls := made.value;
      if messageEnd {
        WholeMessageCalls(filter.sizes, before, calls, message);
        ShowOutput(cipher, padding, start, message);
        HookCalls(before, calls[..|calls| - 1]);
        var ok := LastPut(calls[|calls| - 1].data);
        if ok.Err? {
          return Err(ok.error);
        }
        result := Ok(output);
        output := [];
        start := state;
        NoCalls(cipher, start);
        assert filter.trace == [];
      } else {
        UnfinishedCalls(filter);
        assert before + calls == filter.trace;
        HookCalls(before, calls);
        result := Ok([]);
      }
    }

    method HookCalls(ghost before: seq<Call>, calls: seq<Call>)
      requires cipher.mandatoryBlockSize > 0 && BlockCalls(before + calls, cipher.mandatoryBlockSize)
      requires (state, output) == Process(cipher, start, Joined(before))
      modifies `state, `output
      ensures (state, output) == Process(cipher, start, Joined(before + calls))
    {
      hide Process, Joined, BlockCalls;
      assert before + calls[..0] == before;
      for i := 0 to |calls|
        invariant (state, output) == Process(cipher, start, Joined(before + calls[..i]))
      {
        ghost var all := before + calls;
        CallStep(cipher, start, all, |before| + i);
        assert all[..|before| + i] == before + calls[..i] && all[..|before| + i + 1] == before + calls[..i + 1];
        if calls[i].NextPut? {
          NextPutMultiple(calls[i].data);
        }
      }
      assert calls[..|calls|] == calls;
    }

    /** Transforms whole blocks and passes them on. */
    method NextPutMultiple(inString: seq<byte>)
      requires cipher.mandatoryBlockSize > 0 && |inString| % cipher.mandatoryBlockSize == 0
      modifies `state, `output
      ensures var r := Process(cipher, old(state), inString); state == r.0 && output == old(output) + r.1
    {
      hide Process;
      var s := cipher.mandatoryBlockSize;
      var rest := inString;
      while |rest| > 0
        invariant |rest| % s == 0
        invariant Process(cipher, state, rest).0 == Process(cipher, old(state), inString).0
        invariant output + Process(cipher, state, rest).1 == old(output) + Process(cipher, old(state), inString).1
        decreases |rest|
      {
        ghost var block, later := FirstBlock(rest, s);
        ProcessStep(cipher, state, block, later);
        assert rest[..s] == block && rest[s..] == later;
        var one := cipher.step(state, rest[..s]);
        AppendAssociative(output, one.1, Process(cipher, one.0, later).1);
        state := one.0;
        output := output + one.1;
        rest := rest[s..];
      }
      assert rest == [];
      ProcessNothing(cipher, state, []);
      assert output + [] == output;
    }

    /** Pads and transforms, or transforms and takes the padding off. */
    method LastPut(inString: seq<byte>) returns (ok: Result<bool, Error>)
      requires Suits(cipher, padding) && KeepsLength(cipher)
      requires cipher.isForward ==> |inString| < cipher.mandatoryBlockSize
      modifies `state, `output
      ensures match LastOutput(cipher, padding, old(state), inString)
        case Ok(r) => ok.Ok? && state == r.0 && output == old(output) + r.1
        case Err(e) => ok == Err(e)
    {
      hide Process, Pad, Unpad;
      var s := cipher.mandatoryBlockSize;
      WholeBlock(s);
      ok := Ok(true);
      if Marks(padding) {
        if cipher.isForward {
          NextPutMultiple(Pad(padding, s, inString));
        } else {
          if |inString| != s {
            return Err(LengthNotMultiple);
          }
          ProcessLength(cipher, state, inString);
          var space := TransformBlock(inString);
          var rest;
          if padding == PKCS_PADDING {
            rest := RemovePkcs(space);
          } else {
            rest := RemoveOneAndZeros(space);
          }
          if rest.None? {
            return Err(InvalidPadding);
          }
          output := output + rest.value;
        }
      } else if |inString| > 0 {
        if cipher.isForward && padding == ZEROS_PADDING {
          NextPutMultiple(Pad(padding, s, inString));
        } else {
          return Err(LengthNotMultiple);
        }
      } else {
        assert output + [] == output;
      }
    }

    method TransformBlock(inString: seq<byte>) returns (space: seq<byte>)
      requires |inString| == cipher.mandatoryBlockSize > 0
      modifies `state
      ensures (state, space) == Process(cipher, old(state), inString)
    {
      ProcessStep(cipher, state, inString, []);
      assert inString + [] == inString;
      var one := cipher.step(state, inString);
      state := one.0;
      space := one.1;
      ProcessNothing(cipher, state, []);
      assert one.1 + [] == one.1;
    }
  }

  /** Looks for a byte that differs from the pad. */
  method RemovePkcs(space: seq<byte>) returns (rest: Option<seq<byte>>)
    requires |space| > 0
    ensures rest == Unpad(PKCS_PADDING, space)
    ensures var pad := space[|space| - 1];
      && (rest.Some? <==> 1 <= pad <= |space| && forall i :: |space| - pad <= i < |space| ==> space[i] == pad)
      && (rest.Some? ==> rest.value == space[..|space| - pad])
  {
    var s := |space|;
    var pad := space[s - 1];
    if pad < 1 || pad > s {
      return None;
    }
    var i := s - pad;
    while i < s && space[i] == pad
      invariant s - pad <= i <= s
      invariant forall j :: s - pad <= j < i ==> space[j] == pad
    {
      i := i + 1;
    }
    rest := if i == s then Some(space[..s - pad]) else None;
  }

  /** Steps back over zeros to the one. */
  method RemoveOneAndZeros(space: seq<byte>) returns (rest: Option<seq<byte>>)
    requires |space| > 0
    ensures rest == Unpad(ONE_AND_ZEROS_PADDING, space)
    ensures rest.Some? ==> |rest.value| < |space| && rest.value == space[..|rest.value|] && space[|rest.value|] == 0x80
    ensures rest.Some? ==> forall i :: |rest.value| < i < |space| ==> space[i] == 0
    ensures rest.None? ==> forall n :: 0 <= n < |space| && space[n] == 0x80 ==> exists i :: n < i < |space| && space[i] != 0
  {
    var length: nat := |space|;
    assert space[..length] == space;
    while length > 1 && space[length - 1] == 0
      invariant 0 < length <= |space| && BeforeOne(space[..length]) == BeforeOne(space)
      invariant forall i :: length <= i < |space| ==> space[i] == 0
    {
      assert space[..length][..length - 1] == space[..length - 1];
      length := length - 1;
    }
    length := length - 1;
    assert space[..length + 1][..length] == space[..length];
    rest := if space[length] != 0x80 then None else Some(space[..length]);
  }

  lemma NoCalls<S(!new)>(t: StreamTransformation<S>, st: S)
    requires t.mandatoryBlockSize > 0
    ensures Process(t, st, Joined([])) == (st, [])
  {
  }

  lemma CallStep<S(!new)>(t: StreamTransformation<S>, st: S, all: seq<Call>, i: nat)
    requires i < |all| && t.mandatoryBlockSize > 0 && BlockCalls(all, t.mandatoryBlockSize)
    ensures var r := Process(t, st, Joined(all[..i])); var u := Process(t, st, Joined(all[..i + 1]));
      && (all[i].NextPut? ==> |all[i].data| % t.mandatoryBlockSize == 0)
      && (all[i].NextPut? ==> var v := Process(t, r.0, all[i].data); u == (v.0, r.1 + v.1))
      && (!all[i].NextPut? ==> u == r)
  {
    hide Process;
    assert all[..i + 1][..i] == all[..i];
    assert Joined(all[..i + 1]) == Joined(all[..i]) + all[i].data;
    BlockCallsJoined(all[..i], t.mandatoryBlockSize);
    ProcessConcat(t, st, Joined(all[..i]), all[i].data);
    if !all[i].NextPut? {
      assert Joined(all[..i]) + [] == Joined(all[..i]);
    }
  }

  lemma UnfinishedCalls(filter: FilterWithBufferedInput)
    requires filter.Valid() && filter.sizes.firstSize == 0
    ensures BlockCalls(filter.trace, filter.sizes.blockSize)
  {
    hide Started, BlockCalls;
    if filter.firstInputDone {
      StartedBlockCalls(filter.sizes, filter.trace, filter.message, filter.queue.Contents());
    } else {
      NoBlockCalls(filter.sizes.blockSize);
    }
  }

  lemma NoBlockCalls(s: nat)
    requires s > 0
    ensures BlockCalls([], s)
  {
  }

  /** The calls of a message without firstSize: whole blocks, and then the rest. */
  lemma WholeMessageCalls(sz: Sizes, before: seq<Call>, calls: seq<Call>, message: seq<byte>)
    requires Complete(sz, before + calls, message) && sz.firstSize == 0 && sz.blockSize > 0 && |calls| > 0
    ensures BlockCalls(before + calls[..|calls| - 1], sz.blockSize)
    ensures Joined(before + calls[..|calls| - 1]) == message[..Emitted(sz, |message|)]
    ensures calls[|calls| - 1].data == message[Emitted(sz, |message|)..]
    ensures |calls[|calls| - 1].data| < sz.blockSize + sz.lastSize
  {
    hide Started, BlockCalls, Joined, Emitted;
    var all := before + calls;
    assert all[..|all| - 1] == before + calls[..|calls| - 1];
    StartedBlockCalls(sz, all[..|all| - 1], message, all[|all| - 1].data);
  }

  lemma ShowOutput<S(!new)>(t: StreamTransformation<S>, padding: Padding, st: S, message: seq<byte>)
    requires Suits(t, padding)
    ensures var e := Emitted(FilterSizes(t, padding), |message|);
      && (t.isForward ==> |message[e..]| < t.mandatoryBlockSize)
      && var middle := Process(t, st, message[..e]);
         FilterOutput(t, padding, st, message) ==
         match LastOutput(t, padding, middle.0, message[e..]) case Ok(last) => Ok(middle.1 + last.1) case Err(error) => Err(error)
  {
    hide Process, LastOutput;
  }

  /** A message in any pieces through the filter. */
  method TransformMessage<S(!new)>(f: StreamTransformationFilter<S>, pieces: seq<seq<byte>>, last: seq<byte>)
    returns (result: Result<seq<byte>, Error>)
    requires f.Valid() && f.filter.message == []
    modifies f, f.filter, f.filter.queue, f.filter.queue.buffer
    ensures result == FilterOutput(f.cipher, f.padding, old(f.start), Concat(pieces) + last)
  {
    hide Process, Started, Joined, KeepsLength, FilterOutput;
    for i := 0 to |pieces|
      invariant f.Valid() && f.filter.message == Concat(pieces[..i]) && f.start == old(f.start)
      invariant f.filter.queue.buffer == old(f.filter.queue.buffer) || fresh(f.filter.queue.buffer)
    {
      var none := f.Put2(pieces[i], false);
      assert pieces[..i + 1][..i] == pieces[..i];
    }
    assert pieces[..|pieces|] == pieces;
    result := f.Put2(last, true);
  }

  /** Encrypted in one split and decrypted in any other, a message comes back. */
  method EncryptThenDecrypt<S(!new)>(t: StreamTransformation<S>, u: StreamTransformation<S>, padding: Padding, st: S,
                                     pieces: seq<seq<byte>>, last: seq<byte>, cuts: seq<nat>)
    returns (ciphertext: Result<seq<byte>, Error>, plaintext: Result<seq<byte>, Error>)
    requires Suits(t, padding) && Marks(padding) && t.isForward && !u.isForward && TakesBack(t, u)
    ensures ciphertext == FilterOutput(t, padding, st, Concat(pieces) + last) && ciphertext.Ok?
    ensures plaintext == Ok(Concat(pieces) + last)
  {
    hide FilterOutput;
    PaddingRoundTrip(t, u, padding, st, Concat(pieces) + last);
    var encryption := new StreamTransformationFilter(t, padding, st);
    ciphertext := TransformMessage(encryption, pieces, last);
    var received, rest := CutMessage(ciphertext.value, cuts);
    var decryption := new StreamTransformationFilter(u, padding, st);
    plaintext := TransformMessage(decryption, received, rest);
  }
}

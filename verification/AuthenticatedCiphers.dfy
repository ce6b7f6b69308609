/** AuthenticatedSymmetricCipherBase of authenc.cpp: the six states in which header,
    confidential message and footer are authenticated block by block.  The calls that a
    derived class receives are kept in a log. */
module AuthenticatedCiphers {
  import opened ByteStrings
  import opened BufferedFilters
  import opened StreamFilters
  import opened Wrappers

  datatype State = Start | KeySet | IVSet | AuthUntransformed | AuthTransformed | AuthFooter

  /** AuthenticateBlocks on whole blocks, and the three hooks with the bytes left in
      the buffer. */
  datatype Hook =
    | Blocks(data: seq<byte>)
    | LastHeaderBlock(residue: seq<byte>)
    | LastConfidentialBlock(residue: seq<byte>)
    | LastFooterBlock(residue: seq<byte>)

  datatype Refusal = BadState | LengthExceeded | InvalidIV | InvalidKey

  /** What the parameters of a key say about an IV: nothing, one that is refused, or the
      state in which the cipher starts. */
  datatype GivenIV<S> = Absent | Refused | Usable(start: S)

  predicate HasIV(state: State) { !state.Start? && !state.KeySet? }

  /** What one phase authenticated: whole blocks, and less than a block at its end. */
  datatype Phase = Phase(blocks: seq<byte>, residue: seq<byte>)

  /** A session read from the log: the finished phases and the blocks of the current one. */
  datatype Session = Session(finished: seq<Phase>, blocks: seq<byte>)

  /** The only orders in which the hooks may come. */
  ghost function Next(s: Session, blockSize: nat, hook: Hook): (r: Option<Session>)
    requires blockSize > 0
  {
    match hook
    case Blocks(data) =>
      if |data| % blockSize == 0 && |s.finished| < 3 then Some(Session(s.finished, s.blocks + data)) else None
    case LastHeaderBlock(r) =>
      if |s.finished| == 0 && |r| < blockSize then Some(Session([Phase(s.blocks, r)], [])) else None
    case LastConfidentialBlock(r) =>
      if |s.finished| == 1 && |r| < blockSize then Some(Session(s.finished + [Phase(s.blocks, r)], [])) else None
    case LastFooterBlock(r) =>
      if |s.finished| == 2 && |r| < blockSize then Some(Session(s.finished + [Phase(s.blocks, r)], [])) else None
  }

  ghost function Read(blockSize: nat, log: seq<Hook>): (r: Option<Session>)
    requires blockSize > 0
  {
    if |log| == 0 then Some(Session([], []))
    else
      match Read(blockSize, log[..|log| - 1])
      case None => None
      case Some(s) => Next(s, blockSize, log[|log| - 1])
  }

  lemma ReadNext(blockSize: nat, log: seq<Hook>, hook: Hook)
    requires blockSize > 0 && Read(blockSize, log).Some?
    ensures Read(blockSize, log + [hook]) == Next(Read(blockSize, log).value, blockSize, hook)
  {
    assert (log + [hook])[..|log|] == log;
  }

  ghost predicate InBlocks(s: Session, blockSize: nat)
    requires blockSize > 0
  {
    && |s.blocks| % blockSize == 0 && |s.finished| <= 3
    && forall i :: 0 <= i < |s.finished| ==> |s.finished[i].blocks| % blockSize == 0 && |s.finished[i].residue| < blockSize
  }

  lemma NextInBlocks(s: Session, blockSize: nat, hook: Hook)
    requires blockSize > 0 && InBlocks(s, blockSize) && Next(s, blockSize, hook).Some?
    ensures InBlocks(Next(s, blockSize, hook).value, blockSize)
  {
    if hook.Blocks? {
      MultipleSum(|s.blocks|, |hook.data|, blockSize);
    }
  }

  lemma {:induction false} ReadWholeBlocks(blockSize: nat, log: seq<Hook>)
    requires blockSize > 0 && Read(blockSize, log).Some?
    ensures InBlocks(Read(blockSize, log).value, blockSize)
  {
    hide Next;
    if |log| > 0 {
      var before := log[..|log| - 1];
      ReadWholeBlocks(blockSize, before);
      NextInBlocks(Read(blockSize, before).value, blockSize, log[|log| - 1]);
    }
  }

  /** The one way to cut the input of a phase. */
  function Cut(blockSize: nat, input: seq<byte>): (p: Phase)
    requires blockSize > 0
  {
    var e := RoundDown(|input|, blockSize);
    Phase(input[..e], input[e..])
  }

  lemma CutUnique(blockSize: nat, p: Phase)
    requires blockSize > 0 && |p.blocks| % blockSize == 0 && |p.residue| < blockSize
    ensures p == Cut(blockSize, p.blocks + p.residue)
  {
    var input := p.blocks + p.residue;
    MultipleUnique(|p.blocks|, RoundDown(|input|, blockSize), |input|, blockSize);
  }

  /** Phase k is going on: the phases before it were cut the one way, and the blocks of
      this one with the buffered bytes are its input. */
  ghost predicate InPhase(blockSize: nat, log: seq<Hook>, k: nat, inputs: seq<seq<byte>>, residue: seq<byte>)
  {
    && blockSize > 0 && |inputs| == 3 && k < 3 && |residue| < blockSize
    && Read(blockSize, log).Some?
    && var s := Read(blockSize, log).value;
    && |s.finished| == k
    && (forall i :: 0 <= i < k ==> s.finished[i] == Cut(blockSize, inputs[i]))
    && s.blocks + residue == inputs[k]
  }

  /** The whole session was authenticated. */
  ghost predicate Authenticated(blockSize: nat, log: seq<Hook>, inputs: seq<seq<byte>>)
  {
    && blockSize > 0 && |inputs| == 3
    && Read(blockSize, log) == Some(Session([Cut(blockSize, inputs[0]), Cut(blockSize, inputs[1]), Cut(blockSize, inputs[2])], []))
  }

  lemma MoreBlocks(blockSize: nat, log: seq<Hook>, k: nat, inputs: seq<seq<byte>>, residue: seq<byte>, data: seq<byte>, rest: seq<byte>, more: seq<byte>)
    requires InPhase(blockSize, log, k, inputs, residue)
    requires residue + more == data + rest && |data| % blockSize == 0 && |rest| < blockSize
    ensures InPhase(blockSize, log + [Blocks(data)], k, inputs[k := inputs[k] + more], rest)
  {
    ReadNext(blockSize, log, Blocks(data));
    var s := Read(blockSize, log).value;
    assert (s.blocks + residue) + more == s.blocks + (residue + more);
    assert s.blocks + (data + rest) == (s.blocks + data) + rest;
  }

  lemma MoreResidue(blockSize: nat, log: seq<Hook>, k: nat, inputs: seq<seq<byte>>, residue: seq<byte>, more: seq<byte>)
    requires InPhase(blockSize, log, k, inputs, residue) && |residue| + |more| < blockSize
    ensures InPhase(blockSize, log, k, inputs[k := inputs[k] + more], residue + more)
  {
    var s := Read(blockSize, log).value;
    assert (s.blocks + residue) + more == s.blocks + (residue + more);
  }

  function HookOf(k: nat, residue: seq<byte>): (h: Hook)
  {
    if k == 0 then LastHeaderBlock(residue) else if k == 1 then LastConfidentialBlock(residue) else LastFooterBlock(residue)
  }

  lemma FinishPhase(blockSize: nat, log: seq<Hook>, k: nat, inputs: seq<seq<byte>>, residue: seq<byte>)
    requires InPhase(blockSize, log, k, inputs, residue) && k < 2 && inputs[k + 1] == []
    ensures InPhase(blockSize, log + [HookOf(k, residue)], k + 1, inputs, [])
  {
    hide Read, Cut;
    PhaseFinished(blockSize, log, k, inputs, residue);
  }

  lemma FinishSession(blockSize: nat, log: seq<Hook>, inputs: seq<seq<byte>>, residue: seq<byte>)
    requires InPhase(blockSize, log, 2, inputs, residue)
    ensures Authenticated(blockSize, log + [LastFooterBlock(residue)], inputs)
  {
    hide Read, Cut;
    PhaseFinished(blockSize, log, 2, inputs, residue);
    var s := Read(blockSize, log).value;
    assert s.finished + [Cut(blockSize, inputs[2])] == [Cut(blockSize, inputs[0]), Cut(blockSize, inputs[1]), Cut(blockSize, inputs[2])];
  }

  lemma PhaseFinished(blockSize: nat, log: seq<Hook>, k: nat, inputs: seq<seq<byte>>, residue: seq<byte>)
    requires InPhase(blockSize, log, k, inputs, residue)
    ensures var s := Read(blockSize, log).value;
      Read(blockSize, log + [HookOf(k, residue)]) == Some(Session(s.finished + [Cut(blockSize, inputs[k])], []))
  {
    var s := Read(blockSize, log).value;
    ReadWholeBlocks(blockSize, log);
    ReadNext(blockSize, log, HookOf(k, residue));
    CutUnique(blockSize, Phase(s.blocks, residue));
    assert k == 0 ==> s.finished + [Phase(s.blocks, residue)] == [Phase(s.blocks, residue)];
  }

  /** The plaintext, or the ciphertext, whichever way the cipher works. */
  function ToAuthenticate<S>(t: StreamTransformation<S>, onPlaintext: bool, message: seq<byte>, output: seq<byte>): (r: seq<byte>)
  {
    if onPlaintext == t.isForward then message else output
  }

  // ------------------------------------------------------------------
  // The object

  class AuthenticatedSymmetricCipher<S(!new)> {
    const cipher: StreamTransformation<S>
    const authenticationIsOnPlaintext: bool
    const blockSize: nat
    const maxHeaderLength: nat
    const maxMessageLength: nat
    const maxFooterLength: nat

    var state: State
    var bufferedDataLength: nat
    const buffer: array<byte>
    var totalHeaderLength: nat
    var totalMessageLength: nat
    var totalFooterLength: nat
    var symmetric: S
    var log: seq<Hook>

    // The session's history: where the cipher started, the message and what it became,
    // and the bytes to authenticate in the three phases.
    ghost var start: S
    ghost var message: seq<byte>
    ghost var output: seq<byte>
    ghost var inputs: seq<seq<byte>>

    ghost function Residue(): (r: seq<byte>)
      requires bufferedDataLength <= buffer.Length
      reads this, buffer
    {
      buffer[..bufferedDataLength]
    }

    ghost predicate Shape()
      reads this
    {
      && blockSize > 0 && buffer.Length == blockSize
      && cipher.mandatoryBlockSize == 1 && KeepsLength(cipher)
      && bufferedDataLength < blockSize
    }

    /** While a session runs: which phase is going on, and what its bytes are. */
    ghost predicate Running()
      requires Shape()
      reads this, buffer
    {
      && |inputs| == 3
      && totalHeaderLength == |inputs[0]| && totalFooterLength == |inputs[2]| && totalMessageLength >= |message|
      && (symmetric, output) == Process(cipher, start, message)
      && inputs[1] == ToAuthenticate(cipher, authenticationIsOnPlaintext, message, output)
      && (state.IVSet? ==> message == [] && inputs[2] == [] && InPhase(blockSize, log, 0, inputs, Residue()))
      && (state.AuthUntransformed? || state.AuthTransformed? ==>
          inputs[2] == [] && InPhase(blockSize, log, 1, inputs, Residue()))
      && (state.AuthUntransformed? ==> authenticationIsOnPlaintext == cipher.isForward)
      && (state.AuthTransformed? ==> authenticationIsOnPlaintext != cipher.isForward)
      && (state.AuthFooter? ==> InPhase(blockSize, log, 2, inputs, Residue()))
    }

    ghost predicate Valid()
      reads this, buffer
    {
      Shape() && (HasIV(state) ==> Running())
    }

    /** A session without input as yet. */
    ghost predicate Opened(iv: S)
      reads this
    {
      inputs == [[], [], []] && message == [] && output == [] && start == iv && totalMessageLength == 0
    }

    constructor (cipher: StreamTransformation<S>, authenticationIsOnPlaintext: bool, blockSize: nat,
                 maxHeaderLength: nat, maxMessageLength: nat, maxFooterLength: nat, initial: S)
      requires blockSize > 0 && cipher.mandatoryBlockSize == 1 && KeepsLength(cipher)
      ensures Valid() && state == Start && fresh(buffer)
      ensures this.cipher == cipher && this.authenticationIsOnPlaintext == authenticationIsOnPlaintext && this.blockSize == blockSize
      ensures this.maxHeaderLength == maxHeaderLength && this.maxMessageLength == maxMessageLength && this.maxFooterLength == maxFooterLength
    {
      this.cipher := cipher;
      this.authenticationIsOnPlaintext := authenticationIsOnPlaintext;
      this.blockSize := blockSize;
      this.maxHeaderLength := maxHeaderLength;
      this.maxMessageLength := maxMessageLength;
      this.maxFooterLength := maxFooterLength;
      state := Start;
      bufferedDataLength := 0;
      buffer := new byte[blockSize];
      totalHeaderLength, totalMessageLength, totalFooterLength := 0, 0, 0;
      symmetric := initial;
      log := [];
      start := initial;
      message, output, inputs := [], [], [[], [], []];
    }

    /** A key that is refused leaves no key; an IV given with the key opens a session. */
    method SetKey(keyAccepted: bool, iv: GivenIV<S>) returns (r: Result<bool, Refusal>)
      requires Valid()
      modifies this
      ensures Valid()
      ensures r == if !keyAccepted then Err(InvalidKey) else if iv.Refused? then Err(InvalidIV) else Ok(true)
      ensures state == if !keyAccepted then Start else if iv.Usable? then IVSet else KeySet
      ensures r.Ok? && iv.Usable? ==> Opened(iv.start)
    {
      hide InPhase, Process, KeepsLength;
      bufferedDataLength := 0;
      state := Start;
      if !keyAccepted {
        return Err(InvalidKey);
      }
      state := KeySet;
      match iv
      case Absent => r := Ok(true);
      case Refused => r := Err(InvalidIV);
      case Usable(st) => r := Resynchronize(Some(st));
    }

    method Restart()
      requires Valid()
      modifies `state
      ensures Valid() && state == if HasIV(old(state)) then KeySet else old(state)
    {
      if HasIV(state) {
        state := KeySet;
      }
    }

    /** Starts a session; an IV of a wrong length stops it. */
    method Resynchronize(iv: Option<S>) returns (r: Result<bool, Refusal>)
      requires Valid()
      modifies this
      ensures Valid()
      ensures r.Err? && r.error == BadState <==> old(state).Start?
      ensures r.Err? && r.error == InvalidIV <==> !old(state).Start? && iv.None?
      ensures r.Err? ==> r.error == BadState || r.error == InvalidIV
      ensures r.Ok? ==> r.value
      ensures r.Err? ==> state == if old(state).Start? then Start else KeySet
      ensures r.Ok? ==> state == IVSet && Opened(iv.value)
    {
      hide Running, KeepsLength;
      if state.Start? {
        return Err(BadState);
      }
      bufferedDataLength := 0;
      totalHeaderLength, totalMessageLength, totalFooterLength := 0, 0, 0;
      state := KeySet;
      if iv.None? {
        return Err(InvalidIV);
      }
      Open(iv.value);
      r := Ok(true);
    }

    /** Nothing has been authenticated under a new IV. */
    method Open(iv: S)
      requires Shape() && bufferedDataLength == 0
      requires totalHeaderLength == totalMessageLength == totalFooterLength == 0
      modifies `symmetric, `log, `state, `start, `message, `output, `inputs
      ensures Valid() && state == IVSet && Opened(iv)
    {
      hide InPhase, Process, KeepsLength;
      symmetric := iv;
      log := [];
      start, message, output, inputs := iv, [], [], [[], [], []];
      state := IVSet;
      FirstPhase(blockSize);
      assert Residue() == [];
      ProcessNothing(cipher, start, []);
    }

    /** Header before the message, footer after it. */
    method Update(input: seq<byte>) returns (r: Result<bool, Refusal>)
      requires Valid()
      modifies this, buffer
      ensures Valid()
      ensures r.Err? <==> |input| > 0 && !HasIV(old(state))
      ensures r.Err? ==> r.error == BadState
      ensures r.Err? || |input| == 0 ==> state == old(state) && inputs == old(inputs) && log == old(log)
      ensures r.Ok? && |input| > 0 && old(state).IVSet? ==> state == IVSet && inputs == old(inputs)[0 := old(inputs)[0] + input]
      ensures r.Ok? && |input| > 0 && !old(state).IVSet? ==> state == AuthFooter && inputs == old(inputs)[2 := old(inputs)[2] + input]
      ensures message == old(message) && start == old(start) && output == old(output)
      ensures totalMessageLength == old(totalMessageLength)
    {
      hide InPhase, Process, KeepsLength;
      r := Ok(true);
      if |input| == 0 {
        return;
      }
      if !HasIV(state) {
        return Err(BadState);
      }
      if state.IVSet? {
        AuthenticateData(input, 0);
        totalHeaderLength := totalHeaderLength + |input|;
      } else {
        if !state.AuthFooter? {
          EndPhase(1);
          state := AuthFooter;
        }
        AuthenticateData(input, 2);
        totalFooterLength := totalFooterLength + |input|;
      }
    }

    /** A hook ends phase k. */
    method EndPhase(k: nat)
      requires Shape() && k < 2 && |inputs| == 3 && inputs[k + 1] == [] && InPhase(blockSize, log, k, inputs, Residue())
      modifies `log, `bufferedDataLength
      ensures Shape() && InPhase(blockSize, log, k + 1, inputs, Residue())
      ensures log == old(log) + [HookOf(k, old(Residue()))]
    {
      hide InPhase, KeepsLength;
      FinishPhase(blockSize, log, k, inputs, Residue());
      log := log + [HookOf(k, buffer[..bufferedDataLength])];
      bufferedDataLength := 0;
      assert Residue() == [];
    }

    /** A piece of the message, transformed and authenticated. */
    method ProcessData(inString: seq<byte>) returns (r: Result<seq<byte>, Refusal>)
      requires Valid()
      modifies this, buffer
      ensures Valid()
      ensures r.Err? && r.error == LengthExceeded <==> HasIV(old(state)) && old(totalMessageLength) + |inString| > maxMessageLength
      ensures r.Err? && r.error == BadState <==>
        !HasIV(old(state)) || (old(state).AuthFooter? && old(totalMessageLength) + |inString| <= maxMessageLength)
      ensures r.Err? ==> (r.error == BadState || r.error == LengthExceeded) && state == old(state) && inputs == old(inputs) && message == old(message) && log == old(log)
      ensures r.Ok? ==>
        && message == old(message) + inString && output == old(output) + r.value
        && |inputs| == 3 && |old(inputs)| == 3 && inputs[0] == old(inputs)[0] && inputs[2] == old(inputs)[2]
        && (state.AuthUntransformed? || state.AuthTransformed?)
        && inputs[1] == if authenticationIsOnPlaintext == cipher.isForward then message else output
      ensures start == old(start) && totalMessageLength == old(totalMessageLength) + |inString|
    {
      hide InPhase, Process, KeepsLength;
      totalMessageLength := totalMessageLength + |inString|;
      if HasIV(state) && totalMessageLength > maxMessageLength {
        return Err(LengthExceeded);
      }
      if !HasIV(state) || state.AuthFooter? {
        return Err(BadState);
      }
      if state.IVSet? {
        BeginMessage();
      }
      var outString;
      if state.AuthUntransformed? {
        AuthenticateData(inString, 1);
        outString := TransformString(inString);
      } else {
        outString := TransformString(inString);
        AuthenticateData(outString, 1);
      }
      r := Ok(outString);
    }

    /** The header is over; from here on plaintext or ciphertext is authenticated. */
    method BeginMessage()
      requires Shape() && Running() && state.IVSet?
      modifies `log, `bufferedDataLength, `state
      ensures Shape() && Running() && (state.AuthUntransformed? || state.AuthTransformed?)
    {
      hide InPhase, Process, KeepsLength;
      EmptyMessage(cipher, authenticationIsOnPlaintext, start);
      EndPhase(0);
      state := if authenticationIsOnPlaintext == cipher.isForward then AuthUntransformed else AuthTransformed;
    }

    /** The symmetric cipher, byte by byte. */
    method TransformString(inString: seq<byte>) returns (outString: seq<byte>)
      requires cipher.mandatoryBlockSize == 1 && (symmetric, output) == Process(cipher, start, message)
      modifies `symmetric, `message, `output
      ensures (symmetric, output) == Process(cipher, start, message)
      ensures message == old(message) + inString && output == old(output) + outString
    {
      hide Process;
      outString := [];
      assert message + inString[..0] == message && output + [] == output;
      for i := 0 to |inString|
        invariant message == old(message) + inString[..i] && output == old(output) + outString
        invariant (symmetric, output) == Process(cipher, start, message)
      {
        ghost var piece := [inString[i]];
        ProcessConcat(cipher, start, message, piece);
        ProcessStep(cipher, symmetric, piece, []);
        var one := cipher.step(symmetric, [inString[i]]);
        ProcessNothing(cipher, one.0, []);
        assert piece + [] == piece && one.1 + [] == one.1;
        AppendAssociative(old(output), outString, one.1);
        AppendAssociative(old(message), inString[..i], piece);
        assert inString[..i] + piece == inString[..i + 1];
        outString := outString + one.1;
        symmetric := one.0;
        message := message + piece;
        output := output + one.1;
      }
      assert inString[..|inString|] == inString;
    }

    /** Ends the session: every phase that is still open is finished, in order. */
    method TruncatedFinal() returns (r: Result<bool, Refusal>)
      requires Valid()
      modifies this
      ensures Valid()
      ensures HasIV(old(state)) ==>
        (r.Err? <==> |old(inputs)[0]| > maxHeaderLength || |old(inputs)[2]| > maxFooterLength)
      ensures !HasIV(old(state)) ==> r.Err?
      ensures r.Err? ==> state == old(state)
      ensures r.Ok? ==> state == KeySet && Authenticated(blockSize, log, old(inputs))
      ensures message == old(message) && output == old(output) && start == old(start) && inputs == old(inputs)
      ensures r.Ok? ==> symmetric == old(symmetric)
    {
      hide InPhase, Process, KeepsLength, Authenticated;
      if totalHeaderLength > maxHeaderLength {
        return Err(LengthExceeded);
      }
      if totalFooterLength > maxFooterLength {
        return Err(LengthExceeded);
      }
      if !HasIV(state) {
        return Err(BadState);
      }
      if state.IVSet? {
        EmptyMessage(cipher, authenticationIsOnPlaintext, start);
        EndPhase(0);
        EndPhase(1);
      } else if !state.AuthFooter? {
        EndPhase(1);
      }
      FinishSession(blockSize, log, inputs, Residue());
      log := log + [LastFooterBlock(buffer[..bufferedDataLength])];
      bufferedDataLength := 0;
      state := KeySet;
      r := Ok(true);
    }

    /** Buffers less than a block and authenticates whole blocks. */
    method AuthenticateData(input: seq<byte>, ghost k: nat)
      requires Shape() && InPhase(blockSize, log, k, inputs, Residue())
      modifies `bufferedDataLength, `log, `inputs, buffer
      ensures Shape() && inputs == old(inputs)[k := old(inputs)[k] + input]
      ensures InPhase(blockSize, log, k, inputs, Residue())
    {
      hide InPhase, KeepsLength;
      PhaseShape(blockSize, log, k, inputs, Residue());
      var rest := input;
      if bufferedDataLength != 0 {
        if bufferedDataLength + |input| < blockSize {
          KeepBytes(input, k);
          return;
        }
        rest := CompleteBlock(input, k);
        PhaseShape(blockSize, log, k, inputs, Residue());
        assert input == input[..|input| - |rest|] + rest;
        AppendAssociative(old(inputs)[k], input[..|input| - |rest|], rest);
      }
      AuthenticateWhole(rest, k);
    }

    /** Too little for a block: just more residue. */
    method KeepBytes(input: seq<byte>, ghost k: nat)
      requires Shape() && InPhase(blockSize, log, k, inputs, Residue())
      requires bufferedDataLength + |input| < blockSize
      modifies `bufferedDataLength, `inputs, buffer
      ensures Shape() && inputs == old(inputs)[k := old(inputs)[k] + input]
      ensures InPhase(blockSize, log, k, inputs, Residue())
    {
      hide InPhase, KeepsLength;
      PhaseShape(blockSize, log, k, inputs, Residue());
      MoreResidue(blockSize, log, k, inputs, Residue(), input);
      CopyIn(input);
      bufferedDataLength := bufferedDataLength + |input|;
      inputs := inputs[k := inputs[k] + input];
    }

    /** The buffered bytes become a block. */
    method CompleteBlock(input: seq<byte>, ghost k: nat) returns (rest: seq<byte>)
      requires Shape() && InPhase(blockSize, log, k, inputs, Residue())
      requires bufferedDataLength + |input| >= blockSize
      modifies `bufferedDataLength, `log, `inputs, buffer
      ensures Shape() && bufferedDataLength == 0
      ensures |rest| <= |input| && rest == input[|input| - |rest|..]
      ensures inputs == old(inputs)[k := old(inputs)[k] + input[..|input| - |rest|]]
      ensures InPhase(blockSize, log, k, inputs, Residue())
    {
      hide InPhase, KeepsLength;
      PhaseShape(blockSize, log, k, inputs, Residue());
      var n := blockSize - bufferedDataLength;
      ghost var residue := Residue();
      CopyIn(input[..n]);
      assert buffer[..] == residue + input[..n] == (residue + input[..n]) + [];
      WholeBlock(blockSize);
      MoreBlocks(blockSize, log, k, inputs, residue, buffer[..], [], input[..n]);
      log := log + [Blocks(buffer[..])];
      inputs := inputs[k := inputs[k] + input[..n]];
      bufferedDataLength := 0;
      rest := input[n..];
      assert Residue() == [];
    }

    /** Whole blocks straight from the input, the rest into the empty buffer. */
    method AuthenticateWhole(input: seq<byte>, ghost k: nat)
      requires Shape() && InPhase(blockSize, log, k, inputs, Residue()) && bufferedDataLength == 0
      modifies `bufferedDataLength, `log, `inputs, buffer
      ensures Shape() && inputs == old(inputs)[k := old(inputs)[k] + input]
      ensures InPhase(blockSize, log, k, inputs, Residue())
    {
      hide InPhase, KeepsLength;
      PhaseShape(blockSize, log, k, inputs, Residue());
      assert Residue() == [];
      var rest := input;
      if |input| >= blockSize {
        var whole := RoundDown(|input|, blockSize);
        assert [] + input == input[..whole] + input[whole..];
        MoreBlocks(blockSize, log, k, inputs, [], input[..whole], input[whole..], input);
        log := log + [Blocks(input[..whole])];
        rest := input[whole..];
      } else {
        assert [] + input == input;
        MoreResidue(blockSize, log, k, inputs, [], input);
      }
      inputs := inputs[k := inputs[k] + input];
      CopyIn(rest);
      bufferedDataLength := |rest|;
      assert Residue() == [] + rest == rest;
    }

    /** memcpy behind the bytes already in the buffer. */
    method CopyIn(input: seq<byte>)
      requires bufferedDataLength + |input| <= buffer.Length
      modifies buffer
      ensures buffer[..bufferedDataLength + |input|] == old(buffer[..bufferedDataLength]) + input
    {
      forall i | 0 <= i < |input| {
        buffer[bufferedDataLength + i] := input[i];
      }
    }
  }

  lemma FirstPhase(blockSize: nat)
    requires blockSize > 0
    ensures InPhase(blockSize, [], 0, [[], [], []], [])
  {
  }

  lemma EmptyMessage<S(!new)>(t: StreamTransformation<S>, onPlaintext: bool, st: S)
    requires t.mandatoryBlockSize > 0
    ensures Process(t, st, []).1 == [] && ToAuthenticate(t, onPlaintext, [], []) == []
  {
  }

  lemma PhaseShape(blockSize: nat, log: seq<Hook>, k: nat, inputs: seq<seq<byte>>, residue: seq<byte>)
    requires InPhase(blockSize, log, k, inputs, residue)
    ensures |inputs| == 3 && k < 3 && blockSize > 0
  {
  }

  // ------------------------------------------------------------------
  // Whole sessions

  predicate IsHook(k: nat, h: Hook)
  {
    if k == 0 then h.LastHeaderBlock? else if k == 1 then h.LastConfidentialBlock? else h.LastFooterBlock?
  }

  /** Where the hooks of the finished phases stand in the log. */
  ghost predicate HooksAt(log: seq<Hook>, at: seq<nat>)
  {
    && (forall k :: 0 <= k < |at| ==> at[k] < |log| && IsHook(k, log[at[k]]))
    && (forall k :: 0 < k < |at| ==> at[k - 1] < at[k])
    && (forall i: nat :: i < |log| && i !in at ==> log[i].Blocks?)
  }

  lemma {:induction false} FindHooks(blockSize: nat, log: seq<Hook>) returns (at: seq<nat>)
    requires blockSize > 0 && Read(blockSize, log).Some?
    ensures |at| == |Read(blockSize, log).value.finished| && HooksAt(log, at)
    ensures |at| == 3 ==> at[2] == |log| - 1
    decreases |log|
  {
    if |log| == 0 {
      at := [];
    } else {
      var before := log[..|log| - 1];
      at := FindHooks(blockSize, before);
      AppendHook(before, at, log[|log| - 1]);
      assert log == before + [log[|log| - 1]];
      if !log[|log| - 1].Blocks? {
        at := at + [|log| - 1];
      }
    }
  }

  lemma AppendHook(log: seq<Hook>, at: seq<nat>, hook: Hook)
    requires HooksAt(log, at)
    ensures hook.Blocks? ==> HooksAt(log + [hook], at)
    ensures IsHook(|at|, hook) ==> HooksAt(log + [hook], at + [|log|])
  {
    if IsHook(|at|, hook) {
      var longer := at + [|log|];
      assert forall i :: i in at ==> i in longer;
      assert longer[|at|] == |log|;
    }
  }

  /** In a finished session each hook fired once, in order, the footer hook last. */
  lemma EachHookOnce(blockSize: nat, log: seq<Hook>, inputs: seq<seq<byte>>)
    requires Authenticated(blockSize, log, inputs)
    ensures exists i, j :: (
      && 0 <= i < j < |log| - 1
      && log[i].LastHeaderBlock? && log[j].LastConfidentialBlock? && log[|log| - 1].LastFooterBlock?
      && forall m :: 0 <= m < |log| && m != i && m != j && m != |log| - 1 ==> log[m].Blocks?)
  {
    var at := FindHooks(blockSize, log);
    var i, j := at[0], at[1];
    assert IsHook(0, log[i]) && IsHook(1, log[j]) && IsHook(2, log[at[2]]);
    assert at[1 - 1] < at[1] && at[2 - 1] < at[2];
    forall m | 0 <= m < |log| && m != i && m != j && m != |log| - 1
      ensures log[m].Blocks?
    {
      assert m !in at;
    }
  }

  method UpdateAll<S(!new)>(c: AuthenticatedSymmetricCipher<S>, pieces: seq<seq<byte>>, ghost k: nat)
    requires c.Valid() && HasIV(c.state) && |c.inputs| == 3 && (k == 0 || k == 2)
    requires k == 0 <==> c.state.IVSet?
    modifies c, c.buffer
    ensures c.Valid() && |c.inputs| == 3
    ensures c.message == old(c.message) && c.start == old(c.start) && c.output == old(c.output)
    ensures c.totalMessageLength == old(c.totalMessageLength)
    ensures HasIV(c.state) && c.inputs == old(c.inputs)[k := old(c.inputs)[k] + Concat(pieces)]
    ensures (k == 0 <==> c.state.IVSet?)
  {
    hide InPhase, Process, KeepsLength;
    assert pieces[..0] == [];
    assert c.inputs[k] + [] == c.inputs[k];
    for i := 0 to |pieces|
      invariant c.Valid() && HasIV(c.state) && |c.inputs| == 3 && (k == 0 <==> c.state.IVSet?)
      invariant c.message == old(c.message) && c.start == old(c.start) && c.output == old(c.output)
      invariant c.totalMessageLength == old(c.totalMessageLength)
      invariant c.inputs == old(c.inputs)[k := old(c.inputs)[k] + Concat(pieces[..i])]
    {
      var r := c.Update(pieces[i]);
      assert pieces[..i + 1][..i] == pieces[..i];
      AppendAssociative(old(c.inputs)[k], Concat(pieces[..i]), pieces[i]);
      assert |pieces[i]| == 0 ==> Concat(pieces[..i]) + pieces[i] == Concat(pieces[..i]);
    }
    assert pieces[..|pieces|] == pieces;
  }

  method ProcessAll<S(!new)>(c: AuthenticatedSymmetricCipher<S>, pieces: seq<seq<byte>>) returns (out: Option<seq<byte>>)
    requires c.Valid() && c.state.IVSet? && |c.inputs| == 3 && c.message == [] && c.output == [] && c.totalMessageLength == 0
    modifies c, c.buffer
    ensures c.Valid() && |c.inputs| == 3 && c.start == old(c.start)
    ensures out.Some? <==> |Concat(pieces)| <= c.maxMessageLength
    ensures out.Some? ==> HasIV(c.state) && c.message == Concat(pieces) && c.output == out.value
    ensures out.Some? ==> c.inputs[0] == old(c.inputs)[0] && c.inputs[2] == [] && (c.state.IVSet? <==> |pieces| == 0)
  {
    hide InPhase, Process, KeepsLength;
    var o := [];
    for i := 0 to |pieces|
      invariant c.Valid() && |c.inputs| == 3 && c.start == old(c.start)
      invariant HasIV(c.state) && !c.state.AuthFooter? && c.message == Concat(pieces[..i]) && c.output == o
      invariant c.totalMessageLength == |c.message| <= c.maxMessageLength
      invariant c.inputs[0] == old(c.inputs)[0] && c.inputs[2] == [] && (c.state.IVSet? <==> i == 0)
    {
      var r := c.ProcessData(pieces[i]);
      assert pieces[..i + 1][..i] == pieces[..i];
      if r.Err? {
        PrefixLength(pieces, i + 1);
        return None;
      }
      o := o + r.value;
    }
    assert pieces[..|pieces|] == pieces;
    out := Some(o);
  }

  lemma {:induction false} PrefixLength(pieces: seq<seq<byte>>, n: nat)
    requires n <= |pieces|
    ensures |Concat(pieces[..n])| <= |Concat(pieces)|
    decreases |pieces|
  {
    if n < |pieces| {
      PrefixLength(pieces[..|pieces| - 1], n);
      assert pieces[..|pieces| - 1][..n] == pieces[..n];
    } else {
      assert pieces[..n] == pieces;
    }
  }

  /** What a session authenticates in its three phases.  Without a message there is
      nothing to tell a footer from the header. */
  function SessionInputs<S>(c: StreamTransformation<S>, onPlaintext: bool, header: seq<seq<byte>>, message: seq<seq<byte>>,
                            footer: seq<seq<byte>>, output: seq<byte>): (r: seq<seq<byte>>)
  {
    if |message| == 0 then [Concat(header) + Concat(footer), [], []]
    else [Concat(header), ToAuthenticate(c, onPlaintext, Concat(message), output), Concat(footer)]
  }

  /** Exactly when no call of a session is refused: there are a key and a valid IV, and
      header, message and footer keep to their lengths.  Without a message the footer
      counts as header. */
  ghost predicate Accepts<S(!new)>(c: AuthenticatedSymmetricCipher<S>, iv: Option<S>, header: seq<seq<byte>>,
                                   message: seq<seq<byte>>, footer: seq<seq<byte>>)
    reads c
  {
    && !c.state.Start? && iv.Some? && |Concat(message)| <= c.maxMessageLength
    && if |message| == 0 then |Concat(header)| + |Concat(footer)| <= c.maxHeaderLength
       else |Concat(header)| <= c.maxHeaderLength && |Concat(footer)| <= c.maxFooterLength
  }

  /** A session from Resynchronize to TruncatedFinal; None if any call was refused. */
  method RunSession<S(!new)>(c: AuthenticatedSymmetricCipher<S>, iv: Option<S>, header: seq<seq<byte>>, message: seq<seq<byte>>,
                             footer: seq<seq<byte>>)
    returns (out: Option<seq<byte>>)
    requires c.Valid()
    modifies c, c.buffer
    ensures c.Valid()
    ensures out.Some? <==> old(Accepts(c, iv, header, message, footer))
    ensures out.Some? ==>
      && out.value == Process(c.cipher, iv.value, Concat(message)).1
      && Authenticated(c.blockSize, c.log,
           SessionInputs(c.cipher, c.authenticationIsOnPlaintext, header, message, footer, out.value))
    ensures out.Some? && |message| > 0 ==>
      Read(c.blockSize, c.log) == Some(Session([
        Cut(c.blockSize, Concat(header)),
        Cut(c.blockSize, if c.authenticationIsOnPlaintext == c.cipher.isForward then Concat(message) else out.value),
        Cut(c.blockSize, Concat(footer))], []))
    ensures out.Some? && |message| == 0 ==>
      Read(c.blockSize, c.log) == Some(Session([
        Cut(c.blockSize, Concat(header) + Concat(footer)), Cut(c.blockSize, []), Cut(c.blockSize, [])], []))
  {
    hide InPhase, Process, KeepsLength, Authenticated, Concat;
    var r := c.Resynchronize(iv);
    if r.Err? {
      return None;
    }
    UpdateAll(c, header, 0);
    out := ProcessAll(c, message);
    if out.None? {
      return;
    }
    UpdateAll(c, footer, if |message| == 0 then 0 else 2);
    ghost var inputs := c.inputs;
    assert [] + Concat(header) == Concat(header) && [] + Concat(footer) == Concat(footer);
    NoPieces(message);
    assert inputs == SessionInputs(c.cipher, c.authenticationIsOnPlaintext, header, message, footer, out.value);
    var f := c.TruncatedFinal();
    if f.Err? {
      out := None;
    } else {
      SessionRead(c.blockSize, c.log, inputs);
    }
  }

  lemma SessionRead(blockSize: nat, log: seq<Hook>, inputs: seq<seq<byte>>)
    requires Authenticated(blockSize, log, inputs)
    ensures Read(blockSize, log)
         == Some(Session([Cut(blockSize, inputs[0]), Cut(blockSize, inputs[1]), Cut(blockSize, inputs[2])], []))
  {
  }

  lemma NoPieces(pieces: seq<seq<byte>>)
    ensures |pieces| == 0 ==> Concat(pieces) == []
  {
  }

  /** A decrypting session authenticates what the encrypting one did, and gives the
      message back. */
  lemma MatchingInputs<S(!new)>(t: StreamTransformation<S>, u: StreamTransformation<S>, onPlaintext: bool, iv: S,
                                header: seq<seq<byte>>, message: seq<seq<byte>>, received: seq<seq<byte>>, footer: seq<seq<byte>>)
    requires t.isForward && !u.isForward && TakesBack(t, u) && t.mandatoryBlockSize == 1
    requires Concat(received) == Process(t, iv, Concat(message)).1 && (|message| == 0 <==> |received| == 0)
    ensures var c := Process(t, iv, Concat(message)).1;
      && Process(u, iv, c).1 == Concat(message) && |c| == |Concat(message)|
      && SessionInputs(u, onPlaintext, header, received, footer, Concat(message))
         == SessionInputs(t, onPlaintext, header, message, footer, c)
  {
    hide Process;
    ProcessInverse(t, u, iv, Concat(message));
    ProcessLength(t, iv, Concat(message));
  }

  /** Encrypted in one split and decrypted in any other: unless a side refuses its session,
      the message comes back, and the same blocks and residues were authenticated. */
  method SealAndOpen<S(!new)>(e: AuthenticatedSymmetricCipher<S>, d: AuthenticatedSymmetricCipher<S>, iv: Option<S>,
                              header: seq<seq<byte>>, message: seq<seq<byte>>, footer: seq<seq<byte>>, cuts: seq<nat>)
    returns (secret: Option<seq<byte>>, plain: Option<seq<byte>>)
    requires e.Valid() && d.Valid() && e != d && e.buffer != d.buffer
    requires e.cipher.isForward && !d.cipher.isForward && TakesBack(e.cipher, d.cipher)
    requires e.authenticationIsOnPlaintext == d.authenticationIsOnPlaintext && e.blockSize == d.blockSize
    modifies e, e.buffer, d, d.buffer
    ensures secret.Some? <==> old(Accepts(e, iv, header, message, footer))
    ensures plain.Some? <==> old(Accepts(e, iv, header, message, footer) && Accepts(d, iv, header, message, footer))
    ensures plain.Some? ==>
      && plain.value == Concat(message)
      && Read(e.blockSize, e.log) == Read(d.blockSize, d.log)
    ensures plain.Some? && |message| > 0 ==>
      Read(e.blockSize, e.log) == Some(Session([
        Cut(e.blockSize, Concat(header)),
        Cut(e.blockSize, if e.authenticationIsOnPlaintext then Concat(message) else secret.value),
        Cut(e.blockSize, Concat(footer))], []))
  {
    hide InPhase, Process, KeepsLength, TakesBack, Read, Concat;
    plain := None;
    secret := RunSession(e, iv, header, message, footer);
    if secret.None? {
      return;
    }
    NoPieces(message);
    ProcessLength(e.cipher, iv.value, Concat(message));
    var received := Receive(secret.value, cuts, |message| == 0);
    MatchingInputs(e.cipher, d.cipher, e.authenticationIsOnPlaintext, iv.value, header, message, received, footer);
    plain := RunSession(d, iv, header, received, footer);
  }

  /** The ciphertext in other pieces, or in none if there was no message. */
  method Receive(secret: seq<byte>, cuts: seq<nat>, none: bool) returns (received: seq<seq<byte>>)
    requires none ==> secret == []
    ensures Concat(received) == secret && (none <==> |received| == 0)
  {
    received := [];
    if !none {
      var rest;
      received, rest := CutMessage(secret, cuts);
      received := received + [rest];
      assert received[..|received| - 1] + [rest] == received;
    }
  }
}

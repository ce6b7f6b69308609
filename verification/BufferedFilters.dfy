/** FilterWithBufferedInput of filters.h and filters.cpp: input in arbitrary pieces is
    handed on as one FirstPut, NextPut calls of whole blocks, and one LastPut. */
module BufferedFilters {
  import opened ByteStrings
  import opened BlockQueues
  import opened Wrappers

  datatype Call = FirstPut(data: seq<byte>) | NextPut(data: seq<byte>) | LastPut(data: seq<byte>)

  datatype Sizes = Sizes(firstSize: nat, blockSize: nat, lastSize: nat)

  /** Of a message of n bytes, with the first part done, so many go to NextPut: whole
      blocks that leave at least lastSize bytes. */
  function Emitted(sz: Sizes, n: nat): (e: nat)
    requires sz.blockSize > 0 && sz.firstSize <= n
    ensures sz.firstSize + e <= n
  {
    var m := n - sz.firstSize;
    if m < sz.lastSize then 0 else RoundDown(m - sz.lastSize, sz.blockSize)
  }

  ghost function Joined(calls: seq<Call>): (data: seq<byte>)
  {
    if |calls| == 0 then [] else Joined(calls[..|calls| - 1]) + calls[|calls| - 1].data
  }

  /** NextPut calls of one or more blocks each. */
  ghost predicate Pieces(calls: seq<Call>, blockSize: nat)
    requires blockSize > 0
  {
    forall i :: 0 <= i < |calls| ==> calls[i].NextPut? && |calls[i].data| > 0 && |calls[i].data| % blockSize == 0
  }

  /** The calls for the message so far, and what is still held back. */
  ghost predicate Started(sz: Sizes, calls: seq<Call>, message: seq<byte>, held: seq<byte>)
  {
    && sz.blockSize > 0 && |message| >= sz.firstSize
    && |calls| >= 1 && calls[0] == FirstPut(message[..sz.firstSize])
    && Pieces(calls[1..], sz.blockSize)
    && Joined(calls[1..]) == message[sz.firstSize..sz.firstSize + Emitted(sz, |message|)]
    && held == message[sz.firstSize + Emitted(sz, |message|)..]
  }

  /** The calls of a whole message. */
  ghost predicate Complete(sz: Sizes, calls: seq<Call>, message: seq<byte>)
  {
    if |message| < sz.firstSize then calls == [LastPut(message)]
    else
      && |calls| >= 2 && calls[|calls| - 1].LastPut?
      && Started(sz, calls[..|calls| - 1], message, calls[|calls| - 1].data)
  }

  /** Two runs over the same message differ at most in how the middle is cut. */
  lemma SplitDoesNotMatter(sz: Sizes, a: seq<Call>, b: seq<Call>, message: seq<byte>)
    requires Complete(sz, a, message) && Complete(sz, b, message)
    ensures a[0] == b[0] && a[|a| - 1] == b[|b| - 1]
    ensures |message| >= sz.firstSize ==> Joined(a[1..|a| - 1]) == Joined(b[1..|b| - 1])
    ensures Joined(a) == Joined(b) == message
  {
    WholeMessage(sz, a, message);
    WholeMessage(sz, b, message);
    if |message| >= sz.firstSize {
      assert a[..|a| - 1][1..] == a[1..|a| - 1];
      assert b[..|b| - 1][1..] == b[1..|b| - 1];
    }
  }

  lemma {:induction false} JoinedHead(calls: seq<Call>)
    requires |calls| > 0
    ensures Joined(calls) == calls[0].data + Joined(calls[1..])
  {
    if |calls| > 1 {
      JoinedHead(calls[..|calls| - 1]);
      assert calls[..|calls| - 1][1..] == calls[1..][..|calls| - 2];
    }
  }

  lemma FirstPartDone(sz: Sizes, calls: seq<Call>, message: seq<byte>, held: seq<byte>)
    requires Started(sz, calls, message, held)
    ensures |message| >= sz.firstSize && |calls| >= 1
  {
  }

  lemma StartedWhole(sz: Sizes, calls: seq<Call>, message: seq<byte>, held: seq<byte>)
    requires Started(sz, calls, message, held)
    ensures Joined(calls) + held == message
  {
    hide Joined, Pieces;
    JoinedHead(calls);
    var e := sz.firstSize + Emitted(sz, |message|);
    assert message[..sz.firstSize] + message[sz.firstSize..e] == message[..e];
    assert message == message[..e] + message[e..];
  }

  /** Nothing of the message is lost or doubled. */
  lemma WholeMessage(sz: Sizes, calls: seq<Call>, message: seq<byte>)
    requires Complete(sz, calls, message)
    ensures |calls| >= 1 && Joined(calls) == message
  {
    hide Started;
    if |message| >= sz.firstSize {
      StartedWhole(sz, calls[..|calls| - 1], message, calls[|calls| - 1].data);
    } else {
      assert calls[..0] == [];
    }
  }

  /** FirstPut has the first firstSize bytes, and NextPut whole blocks. */
  lemma DocumentedCalls(sz: Sizes, calls: seq<Call>, message: seq<byte>)
    requires Complete(sz, calls, message) && sz.blockSize > 0
    ensures |message| >= sz.firstSize ==> calls[0] == FirstPut(message[..sz.firstSize])
    ensures forall i :: 0 <= i < |calls| && calls[i].NextPut? ==> |calls[i].data| % sz.blockSize == 0
  {
    hide Joined, Emitted;
    if |message| >= sz.firstSize {
      var middle := calls[..|calls| - 1][1..];
      forall i | 0 <= i < |calls| && calls[i].NextPut?
        ensures |calls[i].data| % sz.blockSize == 0
      {
        assert calls[i] == middle[i - 1];
      }
    }
  }

  /** The lengths that filters.h promises for LastPut, and when NextPut is called. */
  lemma DocumentedBoundaries(sz: Sizes, calls: seq<Call>, message: seq<byte>)
    requires Complete(sz, calls, message) && sz.blockSize > 0
    ensures var total, last := |message|, |calls[|calls| - 1].data|;
      && (total < sz.firstSize ==> last == total)
      && (sz.firstSize <= total <= sz.firstSize + sz.lastSize ==> last == total - sz.firstSize)
      && (total > sz.firstSize + sz.lastSize ==> sz.lastSize <= last < sz.lastSize + sz.blockSize)
    ensures (exists i :: 0 <= i < |calls| && calls[i].NextPut?) <==> |message| >= sz.firstSize + sz.blockSize + sz.lastSize
    ensures (exists i :: 0 <= i < |calls| && calls[i].FirstPut?) <==> |message| >= sz.firstSize
  {
    if |message| >= sz.firstSize {
      var middle := calls[..|calls| - 1][1..];
      assert calls[0].FirstPut?;
      if |middle| > 0 {
        assert calls[1] == middle[0] && calls[1].NextPut?;
        JoinedHead(middle);
        SmallMultiple(|middle[0].data|, sz.blockSize);
      } else {
        assert Joined(middle) == [];
        forall i | 0 <= i < |calls|
          ensures !calls[i].NextPut?
        {
        }
      }
    }
  }

  // ------------------------------------------------------------------
  // Handing on

  /** Everything not yet handed on is pending; at least lastSize bytes are, unless
      nothing has been handed on. */
  ghost predicate Delivering(sz: Sizes, calls: seq<Call>, message: seq<byte>, pending: seq<byte>)
  {
    && sz.blockSize > 0 && |message| >= sz.firstSize
    && |calls| >= 1 && calls[0] == FirstPut(message[..sz.firstSize])
    && Pieces(calls[1..], sz.blockSize)
    && Joined(calls[1..]) + pending == message[sz.firstSize..]
    && |Joined(calls[1..])| % sz.blockSize == 0
    && (|pending| >= sz.lastSize || Joined(calls[1..]) == [])
  }

  lemma DeliverFirst(sz: Sizes, message: seq<byte>)
    requires sz.blockSize > 0 && |message| >= sz.firstSize
    ensures Delivering(sz, [FirstPut(message[..sz.firstSize])], message, message[sz.firstSize..])
  {
  }

  lemma DeliverNext(sz: Sizes, calls: seq<Call>, message: seq<byte>, data: seq<byte>, rest: seq<byte>)
    requires Delivering(sz, calls, message, data + rest)
    requires |data| > 0 && |data| % sz.blockSize == 0 && |rest| >= sz.lastSize
    ensures Delivering(sz, calls + [NextPut(data)], message, rest)
  {
    var middle := calls[1..];
    var longer := (calls + [NextPut(data)])[1..];
    assert longer == middle + [NextPut(data)];
    assert longer[..|longer| - 1] == middle;
    assert Joined(longer) == Joined(middle) + data;
    MultipleSum(|Joined(middle)|, |data|, sz.blockSize);
    assert Joined(middle) + (data + rest) == Joined(longer) + rest;
  }

  /** With less than a block to spare the boundary is where the total puts it. */
  lemma Settled(sz: Sizes, calls: seq<Call>, message: seq<byte>, pending: seq<byte>)
    requires Delivering(sz, calls, message, pending) && |pending| < sz.blockSize + sz.lastSize
    ensures Started(sz, calls, message, pending)
  {
    var done := Joined(calls[1..]);
    var m := |message| - sz.firstSize;
    assert |done| + |pending| == m;
    if m >= sz.lastSize {
      MultipleUnique(|done|, RoundDown(m - sz.lastSize, sz.blockSize), m - sz.lastSize, sz.blockSize);
    }
    assert |done| == Emitted(sz, |message|);
    assert message[sz.firstSize..][..|done|] == done && message[sz.firstSize..][|done|..] == pending;
  }

  /** What remains to be called at the end of a message. */
  lemma EndOfMessage(sz: Sizes, done: bool, calls: seq<Call>, message: seq<byte>, held: seq<byte>)
    requires sz.blockSize > 0
    requires done ==> Started(sz, calls, message, held)
    requires !done ==> calls == [] && held == message && (|message| < sz.firstSize || message == [])
    ensures Complete(sz, calls + ((if !done && sz.firstSize == 0 then [FirstPut([])] else []) + [LastPut(held)]), message)
  {
    hide Started, Delivering;
    var made := calls;
    if done {
      FirstPartDone(sz, calls, message, held);
    } else if sz.firstSize == 0 {
      made := [FirstPut([])];
      DeliverFirst(sz, []);
      Settled(sz, made, [], []);
      assert message[..0] == [];
    }
    var all := calls + ((if !done && sz.firstSize == 0 then [FirstPut([])] else []) + [LastPut(held)]);
    assert all == made + [LastPut(held)];
    assert all[..|all| - 1] == made;
  }

  /** More input is more to deliver. */
  lemma MoreInput(sz: Sizes, calls: seq<Call>, message: seq<byte>, held: seq<byte>, input: seq<byte>)
    requires Started(sz, calls, message, held)
    ensures Delivering(sz, calls, message + input, held + input)
  {
    hide Joined, Pieces;
    var e := Emitted(sz, |message|);
    assert (message + input)[..sz.firstSize] == message[..sz.firstSize];
    assert (message + input)[sz.firstSize..] == message[sz.firstSize..sz.firstSize + e] + (message[sz.firstSize + e..] + input);
  }

  /** The ring buffer has room for what is ever held. */
  function Capacity(sz: Sizes): (c: nat)
    requires sz.blockSize > 0
    ensures c >= sz.blockSize + sz.lastSize - 1 && (sz.blockSize > 1 ==> c >= sz.blockSize)
  {
    var q := (2 * sz.blockSize + sz.lastSize - 2) / sz.blockSize;
    MultipleBelow(2 * sz.blockSize + sz.lastSize - 2, sz.blockSize);
    CapacityOfBlocks(sz, q);
    sz.blockSize * q
  }

  /** It is the least number of whole blocks that holds what can be held back. */
  lemma CapacityIsLeast(sz: Sizes)
    requires sz.blockSize > 0
    ensures Capacity(sz) % sz.blockSize == 0
    ensures sz.blockSize + sz.lastSize - 1 <= Capacity(sz) < 2 * sz.blockSize + sz.lastSize - 1
  {
    var n := 2 * sz.blockSize + sz.lastSize - 2;
    CapacityOfBlocks(sz, n / sz.blockSize);
    MultipleIsMultiple(n / sz.blockSize, sz.blockSize);
    MultipleBelow(n, sz.blockSize);
  }

  lemma CapacityOfBlocks(sz: Sizes, q: nat)
    requires sz.blockSize > 0 && q == (2 * sz.blockSize + sz.lastSize - 2) / sz.blockSize
    ensures sz.blockSize * q >= 0 && sz.blockSize * q == q * sz.blockSize
  {
  }

  // ------------------------------------------------------------------
  // The object

  class FilterWithBufferedInput {
    const sizes: Sizes
    const queue: BlockQueue
    var firstInputDone: bool
    ghost var message: seq<byte>
    ghost var trace: seq<Call>

    ghost predicate QueueFor(done: bool)
      reads this, queue, queue.buffer
    {
      && sizes.blockSize > 0 && queue.Valid() && queue.Aligned()
      && (if done then queue.blockSize == sizes.blockSize && queue.buffer.Length == Capacity(sizes)
          else queue.blockSize == 1 && queue.buffer.Length == sizes.firstSize && queue.begin == 0)
    }

    ghost predicate Valid()
      reads this, queue, queue.buffer
    {
      && QueueFor(firstInputDone)
      && if firstInputDone then Started(sizes, trace, message, queue.Contents())
         else trace == [] && queue.Contents() == message && (|message| < sizes.firstSize || message == [])
    }

    constructor (firstSize: nat, blockSize: nat, lastSize: nat)
      requires blockSize >= 1
      ensures Valid() && message == [] && trace == [] && !firstInputDone
      ensures sizes == Sizes(firstSize, blockSize, lastSize)
      ensures fresh(queue) && fresh(queue.buffer)
    {
      sizes := Sizes(firstSize, blockSize, lastSize);
      queue := new BlockQueue(1, firstSize);
      firstInputDone := false;
      message := [];
      trace := [];
    }

    /** Takes input and, at the end of a message, finishes it.  The calls made are
        returned; input that may not block is refused. */
    method PutMaybeModifiable(inString: seq<byte>, messageEnd: bool, blocking: bool) returns (calls: Option<seq<Call>>)
      requires Valid()
      modifies this, queue, queue.buffer
      ensures Valid() && (queue.buffer == old(queue.buffer) || fresh(queue.buffer))
      ensures calls.None? <==> !blocking
      ensures calls.None? ==> message == old(message) && trace == old(trace)
      ensures calls.Some? && !messageEnd ==> message == old(message) + inString && trace == old(trace) + calls.value
      ensures calls.Some? && messageEnd ==>
        && Complete(sizes, old(trace) + calls.value, old(message) + inString) && |calls.value| >= 1
        && message == [] && trace == []
    {
      hide Started, Complete, Ring;
      if !blocking {
        return None;
      }
      var made := [];
      if |inString| != 0 {
        made := PutBytes(inString);
      } else {
        assert message + inString == message && trace + made == trace;
      }
      if messageEnd {
        ghost var before := trace;
        var ending := EndMessage();
        assert old(trace) + (made + ending) == before + ending;
        made := made + ending;
      }
      calls := Some(made);
    }

    method PutBytes(input: seq<byte>) returns (calls: seq<Call>)
      requires Valid() && |input| != 0
      modifies this, queue, queue.buffer
      ensures Valid() && (queue.buffer == old(queue.buffer) || fresh(queue.buffer))
      ensures message == old(message) + input && trace == old(trace) + calls
    {
      hide Started, Delivering, Ring;
      calls := [];
      var rest := input;
      if firstInputDone {
        MoreInput(sizes, trace, message, queue.Contents(), input);
      }
      if !firstInputDone && queue.size + |rest| >= sizes.firstSize {
        rest, calls := BeginMessage(input);
      } else {
        message := message + input;
      }
      ghost var begun := trace;
      assert begun == old(trace) + calls;
      if firstInputDone {
        var next;
        if sizes.blockSize == 1 {
          rest, next := DeliverBytes(rest);
        } else {
          rest, next := DeliverBlocks(rest);
        }
        assert begun + next == old(trace) + (calls + next);
        calls := calls + next;
        Settled(sizes, trace, message, queue.Contents() + rest);
      }
      queue.Put(rest);
    }

    /** The first part is complete: FirstPut, and the queue takes blocks from now on. */
    method BeginMessage(input: seq<byte>) returns (rest: seq<byte>, calls: seq<Call>)
      requires Valid() && !firstInputDone && queue.size + |input| >= sizes.firstSize
      modifies this, queue, queue.buffer
      ensures firstInputDone && QueueFor(true) && fresh(queue.buffer)
      ensures message == old(message) + input && trace == calls
      ensures Delivering(sizes, trace, message, queue.Contents() + rest)
    {
      hide Started, Delivering, Ring;
      var len := sizes.firstSize - queue.size;
      ghost var held := message;
      message := message + input;
      queue.Put(input[..len]);
      assert held + input[..len] == message[..sizes.firstSize];
      var first := queue.GetContigousBlocks(sizes.firstSize);
      assert first == message[..sizes.firstSize];
      calls := [FirstPut(first)];
      trace := calls;
      queue.ResetQueue(sizes.blockSize, (2 * sizes.blockSize + sizes.lastSize - 2) / sizes.blockSize);
      rest := input[len..];
      firstInputDone := true;
      DeliverFirst(sizes, message);
      assert queue.Contents() + rest == message[sizes.firstSize..];
    }

    /** Byte-wise: all but the last lastSize bytes go on, first those in the queue. */
    method DeliverBytes(input: seq<byte>) returns (rest: seq<byte>, calls: seq<Call>)
      requires QueueFor(true) && sizes.blockSize == 1 && Delivering(sizes, trace, message, queue.Contents() + input)
      modifies queue, `trace
      ensures QueueFor(true) && queue.buffer == old(queue.buffer)
      ensures Delivering(sizes, trace, message, queue.Contents() + rest)
      ensures queue.size + |rest| <= sizes.lastSize && trace == old(trace) + calls
    {
      hide Delivering, Started, Ring;
      calls := [];
      rest := input;
      var newLength := queue.size + |input|;
      while newLength > sizes.lastSize && queue.size > 0
        invariant QueueFor(true) && queue.buffer == old(queue.buffer)
        invariant newLength == queue.size + |rest| && trace == old(trace) + calls
        invariant Delivering(sizes, trace, message, queue.Contents() + rest)
        decreases queue.size
      {
        ghost var held := queue.Contents();
        var data := queue.GetContigousBlocks(newLength - sizes.lastSize);
        assert held + rest == data + (queue.Contents() + rest);
        DeliverNext(sizes, trace, message, data, queue.Contents() + rest);
        calls := calls + [NextPut(data)];
        trace := trace + [NextPut(data)];
        newLength := newLength - |data|;
      }
      if newLength > sizes.lastSize {
        var len := newLength - sizes.lastSize;
        assert queue.Contents() == [];
        assert queue.Contents() + rest == rest[..len] + rest[len..];
        DeliverNext(sizes, trace, message, rest[..len], rest[len..]);
        calls := calls + [NextPut(rest[..len])];
        trace := trace + [NextPut(rest[..len])];
        rest := rest[len..];
        assert queue.Contents() + rest == rest;
      }
    }

    /** Block-wise: blocks from the queue, one block put together, blocks from the input. */
    method DeliverBlocks(input: seq<byte>) returns (rest: seq<byte>, calls: seq<Call>)
      requires QueueFor(true) && sizes.blockSize > 1 && Delivering(sizes, trace, message, queue.Contents() + input)
      modifies queue, queue.buffer, `trace
      ensures QueueFor(true) && queue.buffer == old(queue.buffer)
      ensures Delivering(sizes, trace, message, queue.Contents() + rest)
      ensures queue.size + |rest| < sizes.blockSize + sizes.lastSize && trace == old(trace) + calls
    {
      hide Delivering, Started, Ring;
      rest := input;
      calls := DeliverQueuedBlocks(rest);
      if queue.size + |rest| >= sizes.blockSize + sizes.lastSize && queue.size > 0 {
        var next;
        rest, next := DeliverMixedBlock(rest);
        calls := calls + next;
      }
      var newLength := queue.size + |rest|;
      if newLength >= sizes.blockSize + sizes.lastSize {
        var len := RoundDown(newLength - sizes.lastSize, sizes.blockSize);
        assert queue.Contents() == [];
        assert queue.Contents() + rest == rest[..len] + rest[len..];
        DeliverNext(sizes, trace, message, rest[..len], rest[len..]);
        calls := calls + [NextPut(rest[..len])];
        trace := trace + [NextPut(rest[..len])];
        rest := rest[len..];
        assert queue.Contents() + rest == rest;
      }
    }

    method DeliverQueuedBlocks(rest: seq<byte>) returns (calls: seq<Call>)
      requires QueueFor(true) && Delivering(sizes, trace, message, queue.Contents() + rest)
      modifies queue, `trace
      ensures QueueFor(true) && queue.buffer == old(queue.buffer)
      ensures Delivering(sizes, trace, message, queue.Contents() + rest)
      ensures queue.size + |rest| >= sizes.blockSize + sizes.lastSize ==> queue.size < sizes.blockSize
      ensures trace == old(trace) + calls
    {
      hide Delivering, Started, Ring;
      calls := [];
      while queue.size + |rest| >= sizes.blockSize + sizes.lastSize && queue.size >= sizes.blockSize
        invariant QueueFor(true) && queue.buffer == old(queue.buffer)
        invariant Delivering(sizes, trace, message, queue.Contents() + rest)
        invariant trace == old(trace) + calls
        decreases queue.size
      {
        ghost var held := queue.Contents();
        var block := queue.GetBlock();
        assert held + rest == block.value + (queue.Contents() + rest);
        WholeBlock(sizes.blockSize);
        DeliverNext(sizes, trace, message, block.value, queue.Contents() + rest);
        calls := calls + [NextPut(block.value)];
        trace := trace + [NextPut(block.value)];
      }
    }

    /** A block that starts in the queue and ends in the input. */
    method DeliverMixedBlock(input: seq<byte>) returns (rest: seq<byte>, calls: seq<Call>)
      requires QueueFor(true) && sizes.blockSize > 1 && Delivering(sizes, trace, message, queue.Contents() + input)
      requires queue.size + |input| >= sizes.blockSize + sizes.lastSize && 0 < queue.size < sizes.blockSize
      modifies queue, queue.buffer, `trace
      ensures QueueFor(true) && queue.buffer == old(queue.buffer) && queue.size == 0
      ensures Delivering(sizes, trace, message, queue.Contents() + rest)
      ensures trace == old(trace) + calls
    {
      hide Delivering, Started, Ring;
      var len := sizes.blockSize - queue.size;
      ghost var held := queue.Contents();
      queue.Put(input[..len]);
      rest := input[len..];
      assert queue.Contents() + rest == held + input;
      ghost var filled := queue.Contents();
      var block := queue.GetBlock();
      assert filled + rest == block.value + (queue.Contents() + rest);
      WholeBlock(sizes.blockSize);
      DeliverNext(sizes, trace, message, block.value, queue.Contents() + rest);
      calls := [NextPut(block.value)];
      trace := trace + [NextPut(block.value)];
    }

    method EndMessage() returns (calls: seq<Call>)
      requires Valid()
      modifies this, queue
      ensures Valid() && fresh(queue.buffer)
      ensures Complete(sizes, old(trace) + calls, old(message)) && |calls| >= 1
      ensures message == [] && trace == []
    {
      hide Started, Delivering, Ring, Complete;
      calls := [];
      EndOfMessage(sizes, firstInputDone, trace, message, queue.Contents());
      if !firstInputDone && sizes.firstSize == 0 {
        calls := [FirstPut([])];
      }
      var temp := queue.GetAll();
      calls := calls + [LastPut(temp)];
      firstInputDone := false;
      queue.ResetQueue(1, sizes.firstSize);
      message := [];
      trace := [];
    }
  }

  /** A message fed in any pieces, the end signalled with the last one. */
  method FilterMessage(filter: FilterWithBufferedInput, pieces: seq<seq<byte>>, last: seq<byte>) returns (trace: seq<Call>)
    requires filter.Valid() && filter.message == [] && filter.trace == []
    modifies filter, filter.queue, filter.queue.buffer
    ensures filter.Valid() && filter.message == [] && filter.trace == []
    ensures filter.queue.buffer == old(filter.queue.buffer) || fresh(filter.queue.buffer)
    ensures Complete(filter.sizes, trace, Concat(pieces) + last)
  {
    hide Started, Complete, Ring;
    trace := [];
    for i := 0 to |pieces|
      invariant filter.Valid() && filter.trace == trace && filter.message == Concat(pieces[..i])
      invariant filter.queue.buffer == old(filter.queue.buffer) || fresh(filter.queue.buffer)
    {
      var calls := filter.PutMaybeModifiable(pieces[i], false, true);
      trace := trace + calls.value;
      assert pieces[..i + 1][..i] == pieces[..i];
    }
    assert pieces[..|pieces|] == pieces;
    var calls := filter.PutMaybeModifiable(last, true, true);
    trace := trace + calls.value;
  }
}

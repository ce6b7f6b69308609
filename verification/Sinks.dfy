/** An attached transformation that may refuse output for a while: it takes a whole
    piece, or blocks, as its schedule says. */
module Sinks {
  import opened ByteStrings

  /** size_t has 64 bits. */
  const SIZE_LIMIT: nat := 0x1_0000_0000_0000_0000

  /** What Put2 of a filter returns when its target refuses a piece.  The macro of the
      source subtracts the input position from the length of that piece, not of the
      input, and size_t wraps around. */
  function Unsent(pieceLength: nat, inputPosition: nat): (r: nat)
    ensures r > 0
  {
    var left := (pieceLength - inputPosition) % SIZE_LIMIT;
    if left > 1 then left else 1
  }

  /** When this is the input that is left: if the refused piece is as long as the input,
      or one byte is left and the piece is as long as what went before it. */
  lemma UnsentExact(pieceLength: nat, inputPosition: nat, length: nat)
    requires inputPosition <= length < SIZE_LIMIT && pieceLength < SIZE_LIMIT
    ensures Unsent(pieceLength, inputPosition) == length - inputPosition
       <==> inputPosition < length && (pieceLength == length || (length == inputPosition + 1 && pieceLength == inputPosition))
  {
    if pieceLength < inputPosition {
      assert (pieceLength - inputPosition) % SIZE_LIMIT == pieceLength - inputPosition + SIZE_LIMIT;
    }
  }

  /** Whether the next call blocks. */
  predicate Blocks(schedule: seq<bool>)
  {
    |schedule| > 0 && schedule[0]
  }

  /** What is left of a schedule after k calls. */
  function After(schedule: seq<bool>, k: nat): (rest: seq<bool>)
  {
    if k <= |schedule| then schedule[k..] else []
  }

  /** The first k calls do not block. */
  predicate Takes(schedule: seq<bool>, k: nat)
  {
    forall i :: 0 <= i < k && i < |schedule| ==> !schedule[i]
  }

  lemma TakesNext(schedule: seq<bool>, k: nat)
    ensures After(After(schedule, k), 1) == After(schedule, k + 1)
    ensures Takes(schedule, k) && !Blocks(After(schedule, k)) ==> Takes(schedule, k + 1)
  {
  }

  class Sink {
    /** Whether the next calls block; calls beyond the schedule do not. */
    var schedule: seq<bool>
    var data: seq<byte>
    var messages: nat

    constructor (schedule: seq<bool>)
      ensures data == [] && messages == 0 && this.schedule == schedule
    {
      this.schedule := schedule;
      data := [];
      messages := 0;
    }

    method Put2(inString: seq<byte>, messageEnd: bool) returns (blocked: bool)
      modifies this
      ensures blocked == Blocks(old(schedule)) && schedule == After(old(schedule), 1)
      ensures blocked ==> data == old(data) && messages == old(messages) && |schedule| < |old(schedule)|
      ensures !blocked ==> data == old(data) + inString && messages == old(messages) + (if messageEnd then 1 else 0)
      ensures !blocked ==> |schedule| <= |old(schedule)|
    {
      blocked := Blocks(schedule);
      if |schedule| > 0 {
        schedule := schedule[1..];
      }
      if !blocked {
        data := data + inString;
        messages := messages + if messageEnd then 1 else 0;
      }
    }
  }
}

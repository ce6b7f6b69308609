/** Grouper of basecode.cpp: a separator between groups of a fixed size, and a
    terminator at the end. */
module Groupers {
  import opened ByteStrings
  import opened Sinks

  datatype Grouping = Grouping(groupSize: nat, separator: seq<byte>, terminator: seq<byte>)

  /** How many bytes the last group of the data has. */
  function InGroup(g: Grouping, data: seq<byte>): (n: nat)
    requires g.groupSize > 0
    ensures n <= g.groupSize
  {
    if |data| == 0 then 0
    else
      var n := InGroup(g, data[..|data| - 1]);
      if n == g.groupSize then 1 else n + 1
  }

  /** The data in groups: a separator stands before a byte that starts a new one. */
  function Groups(g: Grouping, data: seq<byte>): (text: seq<byte>)
  {
    if |data| == 0 || g.groupSize == 0 then data
    else
      var before := data[..|data| - 1];
      Groups(g, before) + (if InGroup(g, before) == g.groupSize then g.separator else []) + [data[|data| - 1]]
  }

  function Grouped(g: Grouping, data: seq<byte>): (text: seq<byte>)
  {
    Groups(g, data) + g.terminator
  }

  /** A stretch that fits into the group that is open, or fills a new one. */
  lemma {:induction false} Stretch(g: Grouping, data: seq<byte>, stretch: seq<byte>)
    requires g.groupSize > 0 && |stretch| > 0
    requires var n := InGroup(g, data); |stretch| <= g.groupSize - (if n == g.groupSize then 0 else n)
    ensures var n := InGroup(g, data); var full := n == g.groupSize;
      && InGroup(g, data + stretch) == (if full then 0 else n) + |stretch|
      && Groups(g, data + stretch) == (Groups(g, data) + (if full then g.separator else [])) + stretch
    decreases |stretch|
  {
    hide InGroup, Groups;
    var last := |stretch| - 1;
    var before, b := stretch[..last], stretch[last];
    assert stretch == before + [b] && data + stretch == (data + before) + [b];
    GroupsAppend(g, data + before, b);
    var n := InGroup(g, data);
    var first := Groups(g, data) + (if n == g.groupSize then g.separator else []);
    if last == 0 {
      assert data + before == data;
    } else {
      Stretch(g, data, before);
      assert (first + before) + [] + [b] == first + stretch;
    }
  }

  lemma GroupsAppend(g: Grouping, data: seq<byte>, b: byte)
    requires g.groupSize > 0
    ensures var n := InGroup(g, data);
      && InGroup(g, data + [b]) == (if n == g.groupSize then 1 else n + 1)
      && Groups(g, data + [b]) == Groups(g, data) + (if n == g.groupSize then g.separator else []) + [b]
  {
    assert (data + [b])[..|data|] == data;
  }

  lemma FirstGroup(g: Grouping, data: seq<byte>)
    requires 0 < |data| <= g.groupSize
    ensures InGroup(g, data) == |data| && Groups(g, data) == data
  {
    hide InGroup, Groups;
    NoGroup(g);
    Stretch(g, [], data);
    assert [] + data == data && ([] + []) + data == data;
  }

  lemma NoGroup(g: Grouping)
    ensures Groups(g, []) == [] && (g.groupSize > 0 ==> InGroup(g, []) == 0)
  {
  }

  /** The groups from the front: the first group, a separator, and the groups of the
      rest. */
  lemma {:induction false} GroupsFromFront(g: Grouping, data: seq<byte>)
    requires g.groupSize > 0
    ensures |data| <= g.groupSize ==> Groups(g, data) == data
    ensures |data| > g.groupSize ==>
      var rest := data[g.groupSize..];
      && Groups(g, data) == data[..g.groupSize] + g.separator + Groups(g, rest)
      && InGroup(g, data) == InGroup(g, rest)
    decreases |data|
  {
    hide InGroup, Groups;
    var n := g.groupSize;
    if |data| == 0 {
      NoGroup(g);
      assert data == [];
    } else if |data| <= n {
      FirstGroup(g, data);
    } else {
      var before, b := data[..|data| - 1], data[|data| - 1];
      assert data == before + [b] && data[..n] == before[..n];
      GroupsAppend(g, before, b);
      if |before| == n {
        FirstGroup(g, before);
        FirstGroup(g, [b]);
        assert data[n..] == [b];
      } else {
        GroupsFromFront(g, before);
        GroupsAppend(g, before[n..], b);
        assert data[n..] == before[n..] + [b];
        Regrouped(before[..n] + g.separator, Groups(g, before[n..]), if InGroup(g, before) == n then g.separator else [], b);
      }
    }
  }

  lemma Regrouped(front: seq<byte>, middle: seq<byte>, between: seq<byte>, b: byte)
    ensures (front + middle) + between + [b] == front + (middle + between + [b])
  {
  }

  class Grouper {
    const grouping: Grouping
    const target: Sink
    var counter: nat
    var inputPosition: nat
    var continueAt: nat

    // The data taken so far, and the target's data when the message began.
    ghost var message: seq<byte>
    ghost var base: seq<byte>
    // While a call is blocked: its input, and the data as it will be when it is over.
    ghost var input: seq<byte>
    ghost var whole: seq<byte>

    /** A separator may have gone out before the byte that it precedes. */
    ghost predicate Counted()
      reads `counter, `message, `base, target
    {
      && (grouping.groupSize == 0 ==> target.data == base + Groups(grouping, message))
      && (grouping.groupSize > 0 ==>
          var n := InGroup(grouping, message);
          && (counter == n || (counter == 0 && n == grouping.groupSize))
          && target.data == base + (Groups(grouping, message) + (if counter == n then [] else grouping.separator)))
    }

    /** No separator stands without a byte after it. */
    ghost predicate Settled()
      requires grouping.groupSize > 0
      reads `counter, `message
    {
      counter == InGroup(grouping, message)
    }

    ghost predicate Valid()
      reads this, target
    {
      && Counted() && continueAt <= 4
      && (continueAt == 0 || continueAt == 4 ==> grouping.groupSize > 0 ==> Settled())
      && (1 <= continueAt <= 3 ==> inputPosition <= |input| && whole == message + input[inputPosition..])
      && (continueAt == 1 || continueAt == 2 ==> grouping.groupSize > 0 && inputPosition < |input|)
      && (continueAt == 3 ==> grouping.groupSize == 0 && inputPosition == 0)
      && (continueAt == 4 ==> whole == message)
    }

    constructor (grouping: Grouping, target: Sink)
      ensures Valid() && message == [] && base == target.data && continueAt == 0
      ensures this.grouping == grouping && this.target == target
    {
      this.grouping := grouping;
      this.target := target;
      counter, inputPosition, continueAt := 0, 0, 0;
      message, base := [], target.data;
      input, whole := [], [];
    }

    method Output(site: nat, data: seq<byte>, messageEnd: bool) returns (blocked: bool)
      modifies `continueAt, target
      ensures continueAt == if blocked then site else 0
      ensures blocked ==> target.data == old(target.data) && |target.schedule| < |old(target.schedule)|
      ensures !blocked ==> target.data == old(target.data) + data && |target.schedule| <= |old(target.schedule)|
    {
      blocked := target.Put2(data, messageEnd);
      continueAt := if blocked then site else 0;
    }

    /** Group by group. */
    method PutGroups(begin: seq<byte>) returns (blocked: bool)
      requires grouping.groupSize > 0 && begin == input && Counted()
      requires inputPosition <= |begin| && whole == message + begin[inputPosition..]
      requires inputPosition == |begin| ==> Settled()
      requires continueAt == 0 || inputPosition < |begin|
      modifies `counter, `inputPosition, `continueAt, `message, target
      ensures Counted() && inputPosition <= |begin| && whole == message + begin[inputPosition..]
      ensures blocked ==> (continueAt == 1 || continueAt == 2) && inputPosition < |begin|
      ensures continueAt == 2 ==> counter < grouping.groupSize
      ensures blocked ==> |target.schedule| < |old(target.schedule)|
      ensures !blocked ==> continueAt == 0 && inputPosition == |begin| && Settled() && |target.schedule| <= |old(target.schedule)|
    {
      hide Groups, InGroup;
      blocked := false;
      while inputPosition < |begin|
        invariant Counted() && inputPosition <= |begin| && whole == message + begin[inputPosition..]
        invariant inputPosition == |begin| ==> Settled() && continueAt == 0
        invariant |target.schedule| <= |old(target.schedule)|
        decreases |begin| - inputPosition
      {
        if counter == grouping.groupSize {
          blocked := PutSeparator();
          if blocked {
            return;
          }
        }
        blocked := PutStretch(begin);
        if blocked {
          return;
        }
      }
    }

    method PutSeparator() returns (blocked: bool)
      requires grouping.groupSize > 0 && Counted() && counter == grouping.groupSize
      modifies `counter, `continueAt, target
      ensures Counted() && |target.schedule| <= |old(target.schedule)|
      ensures continueAt == if blocked then 1 else 0
      ensures blocked ==> counter == old(counter) && |target.schedule| < |old(target.schedule)|
      ensures !blocked ==> counter == 0
    {
      hide Groups, InGroup;
      GroupBound(grouping, message);
      AppendSeparator(base, Groups(grouping, message), grouping.separator);
      blocked := Output(1, grouping.separator, false);
      if !blocked {
        counter := 0;
      }
    }

    /** As much of the input as the open group takes. */
    method PutStretch(begin: seq<byte>) returns (blocked: bool)
      requires grouping.groupSize > 0 && Counted() && counter < grouping.groupSize && inputPosition < |begin|
      requires whole == message + begin[inputPosition..]
      modifies `counter, `inputPosition, `continueAt, `message, target
      ensures Counted() && |target.schedule| <= |old(target.schedule)| && continueAt == if blocked then 2 else 0
      ensures inputPosition <= |begin| && whole == message + begin[inputPosition..]
      ensures blocked ==> inputPosition == old(inputPosition) && counter == old(counter) && |target.schedule| < |old(target.schedule)|
      ensures !blocked ==> inputPosition > old(inputPosition) && Settled()
    {
      hide Groups, InGroup;
      var len := Min(|begin| - inputPosition, grouping.groupSize - counter);
      var stretch := begin[inputPosition..inputPosition + len];
      ghost var rest := begin[inputPosition + len..];
      assert begin[inputPosition..] == stretch + rest;
      StretchSent(grouping, base, message, counter, target.data, stretch);
      blocked := Output(2, stretch, false);
      if !blocked {
        assert message + (stretch + rest) == (message + stretch) + rest;
        message := message + stretch;
        inputPosition := inputPosition + len;
        counter := counter + len;
      }
    }

    /** The length of the piece that is refused at the present site. */
    function PieceLength(begin: seq<byte>): (n: nat)
      requires grouping.groupSize > 0 ==> counter <= grouping.groupSize
      requires continueAt == 2 ==> grouping.groupSize > 0 && inputPosition <= |begin|
      reads this
    {
      match continueAt
      case 1 => |grouping.separator|
      case 2 => Min(|begin| - inputPosition, grouping.groupSize - counter)
      case 3 => |begin|
      case _ => |grouping.terminator|
    }

    /** Takes data, and the end of a message.  A result other than zero means that the
        target blocked: the same call must be made again. */
    method Put2(begin: seq<byte>, messageEnd: bool) returns (remaining: nat)
      requires Valid()
      requires continueAt != 0 ==> begin == input
      requires continueAt == 4 ==> messageEnd
      modifies this, target
      ensures Valid() && (remaining == 0 <==> continueAt == 0) && |target.schedule| <= |old(target.schedule)|
      ensures remaining != 0 ==> input == begin && base == old(base) && |target.schedule| < |old(target.schedule)|
      ensures remaining != 0 ==> whole == (if old(continueAt) == 0 then old(message) + begin else old(whole))
      ensures continueAt == 4 ==> messageEnd
      ensures continueAt == 1 ==> remaining == Unsent(|grouping.separator|, inputPosition)
      ensures continueAt == 2 ==>
        && inputPosition < |begin| && counter < grouping.groupSize
        && remaining == Unsent(Min(|begin| - inputPosition, grouping.groupSize - counter), inputPosition)
      ensures continueAt == 3 ==> remaining == Unsent(|begin|, inputPosition)
      ensures continueAt == 4 ==> remaining == Unsent(|grouping.terminator|, inputPosition)
      ensures remaining == 0 && !messageEnd ==>
        message == (if old(continueAt) == 0 then old(message) + begin else old(whole)) && base == old(base)
      ensures remaining == 0 && messageEnd ==>
        && message == [] && base == target.data
        && target.data == old(base) + Grouped(grouping, if old(continueAt) == 0 then old(message) + begin else old(whole))
    {
      hide Groups, InGroup;
      if continueAt == 0 {
        inputPosition := 0;
        input := begin;
        whole := message + begin;
      }
      assert begin[0..] == begin;
      if continueAt != 4 {
        var blocked;
        if grouping.groupSize > 0 {
          blocked := PutGroups(begin);
        } else {
          blocked := PutAll(begin);
        }
        if blocked {
          return Unsent(PieceLength(begin), inputPosition);
        }
      }
      assert whole == message by {
        assert message + [] == message;
      }
      if messageEnd {
        var blocked := OutputTerminator();
        if blocked {
          return Unsent(PieceLength(begin), inputPosition);
        }
      }
      return 0;
    }

    method PutAll(begin: seq<byte>) returns (blocked: bool)
      requires grouping.groupSize == 0 && begin == input && Counted() && whole == message + begin
      modifies `continueAt, `message, target
      ensures Counted() && continueAt == if blocked then 3 else 0
      ensures blocked ==> message == old(message) && |target.schedule| < |old(target.schedule)|
      ensures !blocked ==> message == whole && |target.schedule| <= |old(target.schedule)|
    {
      blocked := Output(3, begin, false);
      if !blocked {
        UngroupedText(grouping, base, message, begin);
        message := message + begin;
      }
    }

    method OutputTerminator() returns (blocked: bool)
      requires Counted() && (grouping.groupSize > 0 ==> Settled())
      modifies `continueAt, `counter, `message, `base, target
      ensures Counted() && (grouping.groupSize > 0 ==> Settled()) && continueAt == if blocked then 4 else 0
      ensures blocked ==> message == old(message) && base == old(base) && |target.schedule| < |old(target.schedule)|
      ensures !blocked ==> message == [] && base == target.data && |target.schedule| <= |old(target.schedule)|
      ensures !blocked ==> target.data == old(base) + Grouped(grouping, old(message))
    {
      hide InGroup, Groups;
      NoSeparator(Groups(grouping, message));
      AppendSeparator(base, Groups(grouping, message), grouping.terminator);
      blocked := Output(4, grouping.terminator, true);
      if !blocked {
        counter := 0;
        message, base := [], target.data;
        NothingGrouped(grouping, base);
      }
    }
  }

  lemma AppendSeparator(base: seq<byte>, text: seq<byte>, more: seq<byte>)
    ensures (base + text) + more == base + (text + more)
    ensures base + (text + []) + more == base + (text + more)
  {
    assert text + [] == text;
  }

  lemma UngroupedText(g: Grouping, base: seq<byte>, message: seq<byte>, more: seq<byte>)
    requires g.groupSize == 0
    ensures base + Groups(g, message) + more == base + Groups(g, message + more)
  {
    AppendSeparator(base, message, more);
  }

  lemma NothingGrouped(g: Grouping, base: seq<byte>)
    ensures Groups(g, []) == [] && base + Groups(g, []) == base && base + (Groups(g, []) + []) == base
    ensures g.groupSize > 0 ==> InGroup(g, []) == 0
  {
  }

  lemma GroupBound(g: Grouping, data: seq<byte>)
    requires g.groupSize > 0
    ensures InGroup(g, data) <= g.groupSize
  {
  }

  lemma StretchSent(g: Grouping, base: seq<byte>, message: seq<byte>, counter: nat, data: seq<byte>, stretch: seq<byte>)
    requires g.groupSize > 0 && |stretch| > 0 && counter + |stretch| <= g.groupSize
    requires var n := InGroup(g, message);
      && (counter == n || (counter == 0 && n == g.groupSize))
      && data == base + (Groups(g, message) + (if counter == n then [] else g.separator))
    ensures InGroup(g, message + stretch) == counter + |stretch|
    ensures data + stretch == base + (Groups(g, message + stretch) + [])
  {
    hide Groups, InGroup;
    Stretch(g, message, stretch);
    var text := Groups(g, message) + (if counter == InGroup(g, message) then [] else g.separator);
    AppendSeparator(base, text, stretch);
    NoSeparator(Groups(g, message + stretch));
  }

  lemma NoSeparator(text: seq<byte>)
    ensures text + [] == text
  {
  }

  /** Data in any pieces, each call repeated while the target blocks. */
  method GroupMessage(grouper: Grouper, pieces: seq<seq<byte>>, last: seq<byte>)
    requires grouper.Valid() && grouper.continueAt == 0 && grouper.message == []
    modifies grouper, grouper.target
    ensures grouper.Valid() && grouper.continueAt == 0 && grouper.message == []
    ensures grouper.target.data == old(grouper.base) + Grouped(grouper.grouping, Concat(pieces) + last)
    ensures grouper.target.data == old(grouper.base) + (Groups(grouper.grouping, Concat(pieces) + last) + grouper.grouping.terminator)
  {
    hide Grouped, Grouper.Valid;
    for i := 0 to |pieces|
      invariant grouper.Valid() && grouper.continueAt == 0
      invariant grouper.message == Concat(pieces[..i]) && grouper.base == old(grouper.base)
    {
      PutUntilDone(grouper, pieces[i], false);
      assert pieces[..i + 1][..i] == pieces[..i];
    }
    assert pieces[..|pieces|] == pieces;
    PutUntilDone(grouper, last, true);
    GroupedText(grouper.grouping, Concat(pieces) + last);
  }

  lemma GroupedText(g: Grouping, data: seq<byte>)
    ensures Grouped(g, data) == Groups(g, data) + g.terminator
    ensures g.groupSize == 0 ==> Groups(g, data) == data
  {
  }

  method PutUntilDone(grouper: Grouper, begin: seq<byte>, messageEnd: bool)
    requires grouper.Valid() && grouper.continueAt == 0
    modifies grouper, grouper.target
    ensures grouper.Valid() && grouper.continueAt == 0
    ensures !messageEnd ==> grouper.message == old(grouper.message) + begin && grouper.base == old(grouper.base)
    ensures messageEnd ==>
      && grouper.message == []
      && grouper.target.data == old(grouper.base) + Grouped(grouper.grouping, old(grouper.message) + begin)
  {
    hide Grouped, Grouper.Valid;
    ghost var whole := grouper.message + begin;
    var remaining := grouper.Put2(begin, messageEnd);
    while remaining != 0
      invariant grouper.Valid() && (remaining == 0 <==> grouper.continueAt == 0)
      invariant remaining != 0 ==> grouper.input == begin && grouper.whole == whole && grouper.base == old(grouper.base)
      invariant grouper.continueAt == 4 ==> messageEnd
      invariant remaining == 0 && !messageEnd ==> grouper.message == whole && grouper.base == old(grouper.base)
      invariant remaining == 0 && messageEnd ==>
        grouper.message == [] && grouper.target.data == old(grouper.base) + Grouped(grouper.grouping, whole)
      decreases |grouper.target.schedule| + (if remaining == 0 then 0 else 1)
    {
      remaining := grouper.Put2(begin, messageEnd);
    }
  }
}

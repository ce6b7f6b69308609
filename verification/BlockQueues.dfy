/** FilterWithBufferedInput::BlockQueue of filters.cpp: a ring buffer that hands out
    whole blocks as contiguous stretches of the buffer. */
module BlockQueues {
  import opened ByteStrings
  import opened Wrappers

  /** The place of the i-th byte of the queue. */
  ghost function Place(begin: nat, i: nat, length: nat): (p: int)
  {
    if begin + i < length then begin + i else begin + i - length
  }

  /** The bytes of a ring buffer, oldest first. */
  ghost function Ring(b: seq<byte>, begin: nat, size: nat): (s: seq<byte>)
    requires size <= |b| && begin <= |b|
    ensures |s| == size
  {
    seq(size, i requires 0 <= i < size => b[Place(begin, i, |b|)])
  }

  lemma RingTake(b: seq<byte>, begin: nat, size: nat, k: nat)
    requires k <= size <= |b| && begin + k <= |b|
    ensures var next := if k == size || begin + k == |b| then 0 else begin + k;
      Ring(b, begin, size) == b[begin..begin + k] + Ring(b, next, size - k)
  {
    var next := if k == size || begin + k == |b| then 0 else begin + k;
    var whole, rest := Ring(b, begin, size), Ring(b, next, size - k);
    forall i | 0 <= i < size
      ensures whole[i] == (b[begin..begin + k] + rest)[i]
    {
      if i >= k { assert Place(next, i - k, |b|) == Place(begin, i, |b|); }
    }
  }

  lemma RingPut(b: seq<byte>, u: seq<byte>, begin: nat, size: nat, input: seq<byte>)
    requires |b| == |u| && size + |input| <= |b| && begin <= |b|
    requires forall i :: 0 <= i < size ==> u[Place(begin, i, |b|)] == b[Place(begin, i, |b|)]
    requires forall i :: 0 <= i < |input| ==> u[Place(begin, size + i, |b|)] == input[i]
    ensures Ring(u, begin, size + |input|) == Ring(b, begin, size) + input
  {
    var r := Ring(u, begin, size + |input|);
    forall i | 0 <= i < size + |input|
      ensures r[i] == (Ring(b, begin, size) + input)[i]
    {
      if i >= size { assert u[Place(begin, size + (i - size), |b|)] == input[i - size]; }
    }
  }

  class BlockQueue {
    var buffer: array<byte>
    var blockSize: nat
    var maxBlocks: nat
    var size: nat
    var begin: nat

    ghost predicate Valid()
      reads this, buffer
    {
      && buffer.Length == blockSize * maxBlocks
      && size <= buffer.Length
      && (begin < buffer.Length || begin == 0)
    }

    /** The bytes in the queue, oldest first. */
    ghost function Contents(): (s: seq<byte>)
      requires Valid()
      reads this, buffer
      ensures |s| == size
    {
      Ring(buffer[..], begin, size)
    }

    /** Blocks start at multiples of the block size, so none wraps around. */
    ghost predicate Aligned()
      reads this
    {
      blockSize > 0 && begin % blockSize == 0
    }

    constructor (blockSize: nat, maxBlocks: nat)
      ensures Valid() && Contents() == [] && fresh(buffer)
      ensures this.blockSize == blockSize && this.maxBlocks == maxBlocks && begin == 0
    {
      this.blockSize := blockSize;
      this.maxBlocks := maxBlocks;
      buffer := new byte[blockSize * maxBlocks];
      size := 0;
      begin := 0;
    }

    method ResetQueue(blockSize: nat, maxBlocks: nat)
      modifies this
      ensures Valid() && Contents() == [] && fresh(buffer)
      ensures this.blockSize == blockSize && this.maxBlocks == maxBlocks && begin == 0
    {
      buffer := new byte[blockSize * maxBlocks];
      this.blockSize := blockSize;
      this.maxBlocks := maxBlocks;
      size := 0;
      begin := 0;
    }

    /** The oldest block, if the queue holds one. */
    method GetBlock() returns (block: Option<seq<byte>>)
      requires Valid() && Aligned()
      modifies `size, `begin
      ensures Valid() && Aligned()
      ensures block.None? <==> old(size) < blockSize
      ensures block.None? ==> Contents() == old(Contents())
      ensures block.Some? ==> |block.value| == blockSize && block.value + Contents() == old(Contents())
    {
      if size < blockSize {
        return None;
      }
      BlockFits(buffer.Length, maxBlocks, begin, blockSize);
      hide Ring;
      RingTake(buffer[..], begin, size, blockSize);
      var start := begin;
      begin := begin + blockSize;
      NextMultiple(start, blockSize);
      if begin == buffer.Length {
        begin := 0;
      }
      size := size - blockSize;
      EmptyRing(buffer[..], begin);
      return Some(buffer[start..start + blockSize]);
    }

    /** As many of the oldest bytes, up to the wanted number, as lie contiguously. */
    method GetContigousBlocks(wanted: nat) returns (bytes: seq<byte>)
      requires Valid()
      modifies `size, `begin
      ensures Valid()
      ensures bytes + Contents() == old(Contents())
      ensures |bytes| == Min(wanted, Min(buffer.Length - old(begin), old(size)))
      ensures size > 0 && |bytes| < wanted ==> begin == 0
    {
      hide Ring;
      var numberOfBytes := Min(wanted, Min(buffer.Length - begin, size));
      RingTake(buffer[..], begin, size, numberOfBytes);
      var start := begin;
      begin := begin + numberOfBytes;
      size := size - numberOfBytes;
      if size == 0 || begin == buffer.Length {
        begin := 0;
      }
      bytes := buffer[start..start + numberOfBytes];
    }

    /** Everything, the part up to the end of the buffer first. */
    method GetAll() returns (bytes: seq<byte>)
      requires Valid()
      modifies `size, `begin
      ensures Valid() && bytes == old(Contents()) && Contents() == []
    {
      var first := GetContigousBlocks(maxBlocks * blockSize);
      RingTake(buffer[..], begin, size, size);
      bytes := first + buffer[begin..begin + size];
      size := 0;
    }

    method Put(input: seq<byte>)
      requires Valid() && size + |input| <= buffer.Length
      modifies `size, buffer
      ensures Valid() && Contents() == old(Contents()) + input
    {
      ghost var before := buffer[..];
      hide Ring;
      var end: nat := if size < buffer.Length - begin then begin + size else begin + size - buffer.Length;
      var len := Min(|input|, buffer.Length - end);
      forall i | 0 <= i < len {
        buffer[end + i] := input[i];
      }
      if len < |input| {
        forall i | 0 <= i < |input| - len {
          buffer[i] := input[len + i];
        }
      }
      RingPut(before, buffer[..], begin, size, input);
      size := size + |input|;
    }
  }

  /** A block that starts at a multiple of the block size ends in the buffer. */
  lemma BlockFits(length: nat, maxBlocks: nat, begin: nat, blockSize: nat)
    requires blockSize > 0 && length == blockSize * maxBlocks && begin % blockSize == 0 && begin < length
    ensures begin + blockSize <= length
  {
    var k := begin / blockSize;
    assert begin == k * blockSize;
    MultipleIsMultiple(maxBlocks, blockSize);
    MultipleDifference(length, begin, blockSize);
  }

  lemma EmptyRing(b: seq<byte>, begin: nat)
    requires begin <= |b|
    ensures Ring(b, begin, 0) == Ring(b, 0, 0)
  {
  }

  lemma NextMultiple(n: nat, m: nat)
    requires m > 0 && n % m == 0
    ensures (n + m) % m == 0
  {
    MultipleIsMultiple(1, m);
    MultipleSum(n, m, m);
  }
}

/** Bytes, messages in pieces, and multiples of a block size. */
module ByteStrings {
  import opened Bits

  type byte = x: int | 0 <= x < 256

  /** The pieces of a message put together. */
  function Concat(pieces: seq<seq<byte>>): (r: seq<byte>)
  {
    if |pieces| == 0 then [] else Concat(pieces[..|pieces| - 1]) + pieces[|pieces| - 1]
  }

  function Fill(b: byte, n: nat): (r: seq<byte>)
    ensures |r| == n && forall i :: 0 <= i < n ==> r[i] == b
  {
    seq(n, _ => b)
  }

  lemma AppendAssociative(a: seq<byte>, b: seq<byte>, c: seq<byte>)
    ensures a + (b + c) == (a + b) + c
  {
  }

  /** The C++ helpers STDMIN and RoundDownToMultipleOf. */
  function Min(a: nat, b: nat): (r: nat)
    ensures r <= a && r <= b && (r == a || r == b)
  {
    if a < b then a else b
  }

  function RoundDown(n: nat, m: nat): (r: nat)
    requires m > 0
    ensures r <= n < r + m && r % m == 0
  {
    MultipleBelow(n, m);
    n / m * m
  }

  lemma MultipleBelow(n: nat, m: nat)
    requires m > 0
    ensures 0 <= n / m * m <= n < n / m * m + m && (n / m * m) % m == 0
  {
    var q := n / m;
    assert n == q * m + n % m;
    MultipleIsMultiple(q, m);
  }

  lemma MultipleIsMultiple(q: nat, m: nat)
    requires m > 0
    ensures q * m >= 0 && (q * m) % m == 0 && (q * m) / m == q
  {
    DivModUnique(q * m, m, q, 0);
  }

  lemma WholeBlock(m: nat)
    requires m > 0
    ensures m % m == 0
  {
    MultipleIsMultiple(1, m);
  }

  lemma SmallMultiple(n: nat, m: nat)
    requires m > 0 && n > 0 && n % m == 0
    ensures n >= m
  {
  }

  lemma MultipleSum(a: nat, b: nat, m: nat)
    requires m > 0 && a % m == 0 && b % m == 0
    ensures (a + b) % m == 0
  {
    var i, j := a / m, b / m;
    assert a == i * m && b == j * m;
    assert (i + j) * m == i * m + j * m;
    MultipleIsMultiple(i + j, m);
  }

  lemma MultipleDifference(a: nat, b: nat, m: nat)
    requires m > 0 && a % m == 0 && b % m == 0 && a >= b
    ensures (a - b) % m == 0
    ensures a > b ==> a >= b + m
  {
    var i, j := a / m, b / m;
    assert a == i * m && b == j * m;
    if i < j {
      MulMonotone(m, i + 1, j);
    }
    var d: nat := i - j;
    assert d * m == i * m - j * m;
    MultipleIsMultiple(d, m);
    if d > 0 {
      MulMonotone(m, 1, d);
    }
  }

  /** Between a multiple and the next there is no other. */
  lemma MultipleUnique(a: nat, b: nat, n: nat, m: nat)
    requires m > 0 && a % m == 0 && b % m == 0 && a <= n < a + m && b <= n < b + m
    ensures a == b
  {
    if a > b { MultipleDifference(a, b, m); }
    if b > a { MultipleDifference(b, a, m); }
  }

  /** Cuts a message into pieces of the given sizes. */
  method CutMessage(message: seq<byte>, cuts: seq<nat>) returns (pieces: seq<seq<byte>>, last: seq<byte>)
    ensures Concat(pieces) + last == message
  {
    pieces := [];
    last := message;
    for i := 0 to |cuts|
      invariant Concat(pieces) + last == message
    {
      var n := Min(cuts[i], |last|);
      assert Concat(pieces) + last == (Concat(pieces) + last[..n]) + last[n..];
      var longer := pieces + [last[..n]];
      assert longer[..|longer| - 1] == pieces;
      pieces := longer;
      last := last[n..];
    }
  }
}

/** The Blum-Blum-Shub generator of blumshub.cpp: a squaring generator, and its
    random access with the factorisation of the modulus. */
module BlumBlumShubs {
  import opened Bits
  import opened NumberTheory
  import opened FermatTheorem

  /** Bit i of the stream that starts from x0: block i / maxBits is x0 squared
      i / maxBits + 1 times, and its low maxBits bits come out highest first. */
  ghost function StreamBit(n: int, x0: int, maxBits: nat, i: nat): nat
    requires n > 0 && maxBits > 0
  {
    Bit(Pow(x0, Pow2(i / maxBits + 1)) % n, maxBits - 1 - i % maxBits)
  }

  /** The stream in terms of the seed: block j is the seed squared j + 2 times. */
  lemma StreamFromSeed(n: int, seed: int, maxBits: nat, i: nat)
    requires n > 0 && maxBits > 0
    ensures StreamBit(n, (seed * seed) % n, maxBits, i)
         == Bit(Pow(seed, Pow2(i / maxBits + 2)) % n, maxBits - 1 - i % maxBits)
  {
    hide Pow, Bit;
    var e := Pow2(i / maxBits + 1);
    assert Pow2(i / maxBits + 2) == 2 * e;
    CongMod(seed * seed, n);
    CongSym(seed * seed, (seed * seed) % n, n);
    CongPow((seed * seed) % n, seed * seed, e, n);
    CongSameMod(Pow((seed * seed) % n, e), Pow(seed * seed, e), n);
    PowMul(seed, 2, e);
    SecondPower(seed);
  }

  lemma SecondPower(x: int)
    ensures Pow(x, 2) == x * x
  {
    assert Pow(x, 2) == x * Pow(x, 1) == x * (x * Pow(x, 0));
  }

  /** The number written by k successive bits from position i on. */
  ghost function StreamBits(n: int, x0: int, maxBits: nat, i: nat, k: nat): nat
    requires n > 0 && maxBits > 0
  {
    if k == 0 then 0 else 2 * StreamBits(n, x0, maxBits, i, k - 1) + StreamBit(n, x0, maxBits, i + k - 1)
  }

  lemma {:induction false} StreamBitsBound(n: int, x0: int, maxBits: nat, i: nat, k: nat)
    requires n > 0 && maxBits > 0
    ensures StreamBits(n, x0, maxBits, i, k) < Pow2(k)
  {
    if k > 0 { StreamBitsBound(n, x0, maxBits, i, k - 1); }
  }

  /** The bytes of the stream from bit position `from` on. */
  ghost predicate IsStream(output: seq<nat>, n: int, x0: int, maxBits: nat, from: nat)
    requires n > 0 && maxBits > 0
  {
    forall k :: 0 <= k < |output| ==> output[k] == StreamBits(n, x0, maxBits, from + 8 * k, 8)
  }

  lemma StreamSuffix(whole: seq<nat>, part: seq<nat>, n: int, x0: int, maxBits: nat, index: nat)
    requires n > 0 && maxBits > 0 && |whole| == index + |part|
    requires IsStream(whole, n, x0, maxBits, 0) && IsStream(part, n, x0, maxBits, 8 * index)
    ensures part == whole[index..]
  {
    hide StreamBits;
    forall k | 0 <= k < |part|
      ensures part[k] == whole[index + k]
    {
      assert 8 * index + 8 * k == 0 + 8 * (index + k);
    }
  }

  class PublicBlumBlumShub {
    const n: int
    const maxBits: nat
    var bitsLeft: nat
    var current: int

    // Where the stream starts, the square of the seed, and the number of bits given out.
    ghost var x0: int
    ghost var position: nat
    ghost var block: nat

    ghost predicate Valid()
      reads this
    {
      && n > 0 && maxBits > 0 && bitsLeft <= maxBits
      && current == Pow(x0, Pow2(block + 1)) % n
      && position + bitsLeft == (block + 1) * maxBits
    }

    constructor (nIn: int, seed: int)
      requires nIn >= 2
      ensures Valid() && position == 0 && n == nIn && x0 == (seed * seed) % n
      ensures maxBits == BitCount(BitCount(n)) - 1
    {
      TwoBits(nIn);
      n := nIn;
      maxBits := BitCount(BitCount(nIn)) - 1;
      var square := (seed * seed) % nIn;
      current := (square * square) % nIn;
      bitsLeft := BitCount(BitCount(nIn)) - 1;
      x0 := square;
      position := 0;
      block := 0;
      new;
      assert Pow2(1) == 2;
      assert Pow(x0, 2) == x0 * Pow(x0, 1) == x0 * (x0 * Pow(x0, 0));
    }

    method GenerateBit() returns (bit: nat)
      requires Valid()
      modifies this
      ensures Valid() && position == old(position) + 1 && x0 == old(x0)
      ensures bit == StreamBit(n, x0, maxBits, old(position))
    {
      hide Pow, Pow2, Bit, StreamBit;
      if bitsLeft == 0 {
        SquareBlock(n, x0, block, current);
        NextMultiple(block + 1, maxBits);
        current := (current * current) % n;
        bitsLeft := maxBits;
        block := block + 1;
      }
      bitsLeft := bitsLeft - 1;
      BitInBlock(n, x0, position, block, maxBits, bitsLeft);
      position := position + 1;
      bit := Bit(current, bitsLeft);
    }

    method GenerateByte() returns (b: nat)
      requires Valid()
      modifies this
      ensures Valid() && position == old(position) + 8 && x0 == old(x0)
      ensures b == StreamBits(n, x0, maxBits, old(position), 8) && b < 256
    {
      hide StreamBit;
      b := 0;
      for i := 0 to 8
        invariant Valid() && position == old(position) + i && x0 == old(x0)
        invariant b == StreamBits(n, x0, maxBits, old(position), i)
      {
        var bit := GenerateBit();
        b := 2 * b + bit;
      }
      StreamBitsBound(n, x0, maxBits, old(position), 8);
      assert Pow2(8) == 256;
    }

    method GenerateBlock(size: nat) returns (output: seq<nat>)
      requires Valid()
      modifies this
      ensures Valid() && position == old(position) + 8 * size && x0 == old(x0)
      ensures |output| == size && IsStream(output, n, x0, maxBits, old(position))
    {
      hide StreamBits;
      output := [];
      for k := 0 to size
        invariant Valid() && position == old(position) + 8 * k && |output| == k && x0 == old(x0)
        invariant IsStream(output, n, x0, maxBits, old(position))
      {
        var b := GenerateByte();
        output := output + [b];
      }
    }
  }

  lemma TwoBits(n: int)
    requires n >= 2
    ensures BitCount(n) >= 2 && BitCount(BitCount(n)) >= 2
  {
    assert BitCount(n) == 2 + BitCount(n / 2 / 2);
    assert BitCount(BitCount(n)) == 2 + BitCount(BitCount(n) / 2 / 2);
  }

  lemma SquareBlock(n: int, x0: int, block: nat, current: int)
    requires n > 0 && current == Pow(x0, Pow2(block + 1)) % n
    ensures (current * current) % n == Pow(x0, Pow2(block + 2)) % n
  {
    var e := Pow2(block + 1);
    assert Pow2(block + 2) == e + e;
    PowAdd(x0, e, e);
    ModMul(Pow(x0, e), Pow(x0, e), n);
    ModMul(Pow(x0, e) % n, Pow(x0, e), n);
    ModMul(Pow(x0, e), Pow(x0, e) % n, n);
  }

  lemma NextMultiple(k: nat, m: nat)
    ensures (k + 1) * m == k * m + m
  {
  }

  lemma BitInBlock(n: int, x0: int, position: nat, block: nat, maxBits: nat, bitsLeft: nat)
    requires n > 0 && bitsLeft < maxBits && position + bitsLeft + 1 == (block + 1) * maxBits
    ensures StreamBit(n, x0, maxBits, position) == Bit(Pow(x0, Pow2(block + 1)) % n, bitsLeft)
  {
    hide Pow, Pow2, Bit;
    assert (block + 1) * maxBits == block * maxBits + maxBits;
    DivModUnique(position, maxBits, block, maxBits - 1 - bitsLeft);
  }

  // ------------------------------------------------------------------
  // Random access

  /** Neither prime divides x. */
  ghost predicate Unit(x: int, p: int, q: int)
  {
    !Divides(p, x) && !Divides(q, x)
  }

  lemma {:induction false} FermatPower(p: int, x: int, k: nat)
    requires Prime(p) && !Divides(p, x)
    ensures Cong(Pow(x, (p - 1) * k), 1, p)
  {
    FermatLittle(p, x);
    PowMul(x, p - 1, k);
    CongPow(Pow(x, p - 1), 1, k, p);
    OnePower(k);
  }

  lemma {:induction false} OnePower(k: nat)
    ensures Pow(1, k) == 1
  {
    if k > 0 { OnePower(k - 1); }
  }

  /** Reducing a positive exponent modulo a multiple of p - 1 does not change the
      power modulo p, unless the exponent becomes zero while p divides x. */
  lemma ReduceExponent(p: int, x: int, e: nat, f: nat, k: nat)
    requires Prime(p) && e > 0 && e == f + (p - 1) * k
    ensures Cong(Pow(x, f), Pow(x, e), p) <==> !Divides(p, x) || f > 0
  {
    if Divides(p, x) {
      PrimeDividesPow(p, x, e);
      if f > 0 {
        PrimeDividesPow(p, x, f);
        CongSym(Pow(x, e), 0, p);
        CongTrans(Pow(x, f), 0, Pow(x, e), p);
      } else if Cong(Pow(x, f), Pow(x, e), p) {
        CongTrans(1, Pow(x, e), 0, p);
        DivisorBound(p, 1);
      }
    } else {
      FermatPower(p, x, k);
      PowAdd(x, f, (p - 1) * k);
      CongRefl(Pow(x, f), p);
      CongMul(Pow(x, f), Pow(x, f), Pow(x, (p - 1) * k), 1, p);
      CongSym(Pow(x, e), Pow(x, f), p);
    }
  }

  /** The exponent modulus of Seek. */
  function Phi(p: int, q: int): int { (p - 1) * (q - 1) }

  lemma PhiFactors(p: int, q: int, k: int)
    requires p >= 2 && q >= 2
    ensures Phi(p, q) > 0 && p * q > 0
    ensures k * Phi(p, q) == (p - 1) * ((q - 1) * k) == (q - 1) * ((p - 1) * k)
    ensures k >= 0 ==> (q - 1) * k >= 0 && (p - 1) * k >= 0
  {
  }

  /** Exactly when the reduced exponent gives the same power modulo p * q. */
  lemma ReduceExponentProduct(p: int, q: int, x: int, e: nat)
    requires Prime(p) && Prime(q) && p != q && e > 0
    ensures Phi(p, q) > 0 && p * q > 0
    ensures var f := e % Phi(p, q);
            Pow(x, f) % (p * q) == Pow(x, e) % (p * q) <==> Unit(x, p, q) || f > 0
  {
    PhiFactors(p, q, 0);
    var k, f := e / Phi(p, q), e % Phi(p, q);
    hide Pow, Cong, Divides, Phi;
    PhiFactors(p, q, k);
    DivisionFacts(e, Phi(p, q));
    ReduceExponent(p, x, e, f, (q - 1) * k);
    ReduceExponent(q, x, e, f, (p - 1) * k);
    CongProduct(Pow(x, f), Pow(x, e), p, q);
    CongSameMod(Pow(x, f), Pow(x, e), p * q);
  }

  lemma DivisionFacts(e: nat, d: nat)
    requires d > 0
    ensures e == e % d + (e / d) * d && e / d >= 0 && 0 <= e % d < d
  {
  }

  /** The condition under which Seek works: the seed is a unit, or the reduced
      exponent does not vanish. */
  ghost predicate Seekable(p: int, q: int, x0: int, index: nat, maxBits: nat)
    requires Phi(p, q) > 0 && maxBits > 0
  {
    Unit(x0, p, q) || Pow(2, (8 * index) / maxBits + 1) % Phi(p, q) > 0
  }

  lemma {:induction false} OddDivisorOfPower(m: int, k: int, j: nat)
    requires m > 0 && m % 2 == 1 && m * k == Pow2(j)
    ensures m == 1
  {
    if j == 0 {
      ProductOne(m, k);
    } else {
      ProductParity(m, k);
      assert m * k == 2 * (m * (k / 2));
      OddDivisorOfPower(m, k / 2, j - 1);
    }
  }

  lemma ProductOne(m: nat, k: int)
    requires m > 0
    ensures m * k == 1 ==> m == 1
  {
    if k >= 1 {
      MulMonotone(m, 1, k);
    } else {
      MulMonotone(m, k, 0);
    }
  }

  lemma ProductParity(m: int, k: int)
    requires m % 2 == 1 && (m * k) % 2 == 0
    ensures k % 2 == 0 && k == 2 * (k / 2)
  {
    if k % 2 == 1 {
      assert m * k == 2 * ((m / 2) * k + k / 2) + 1 by {
        assert m == 2 * (m / 2) + 1 && k == 2 * (k / 2) + 1;
        assert m * k == 2 * (m / 2) * k + k;
      }
    }
  }

  /** The only odd factor of a power of two is 1. */
  lemma OddFactor(m: int, small: int, k: int, j: nat)
    requires m > 0 && m % 2 == 1 && Pow2(j) == k * ((2 * m) * small)
    ensures m == 1
  {
    assert k * ((2 * m) * small) == m * (2 * small * k);
    OddDivisorOfPower(m, 2 * small * k, j);
  }

  /** With the documented primes, congruent to 3 modulo 4, the reduced exponent
      never vanishes, so every seed is seekable. */
  lemma BlumPrimesSeekable(p: int, q: int, x0: int, index: nat, maxBits: nat)
    requires Prime(p) && Prime(q) && p != q && p % 4 == 3 && q % 4 == 3 && maxBits > 0
    ensures Phi(p, q) > 0 && Seekable(p, q, x0, index, maxBits)
  {
    hide Pow2, Pow, Prime;
    PrimeAtLeastTwo(p);
    PrimeAtLeastTwo(q);
    PhiFactors(p, q, 0);
    var phi, j := Phi(p, q), (8 * index) / maxBits + 1;
    PowOfTwo(j);
    if Pow2(j) % phi == 0 {
      // the larger prime exceeds 3, so its predecessor has an odd factor above 1
      var big, small := if p > 3 then p else q, if p > 3 then q else p;
      HalfOfPredecessor(big);
      DivisionFacts(Pow2(j), phi);
      assert phi == (2 * ((big - 1) / 2)) * (small - 1);
      OddFactor((big - 1) / 2, small - 1, Pow2(j) / phi, j);
    }
  }

  lemma PrimeAtLeastTwo(p: int)
    requires Prime(p)
    ensures p >= 2
  {
  }

  lemma HalfOfPredecessor(p: int)
    requires p > 3 && p % 4 == 3
    ensures p - 1 == 2 * ((p - 1) / 2) && ((p - 1) / 2) % 2 == 1 && (p - 1) / 2 > 1
  {
  }

  class BlumBlumShub {
    const p: int
    const q: int
    const generator: PublicBlumBlumShub
    const x0: int

    ghost predicate Valid()
      reads this, generator
    {
      Prime(p) && Prime(q) && p != q && generator.Valid() && generator.n == p * q && generator.x0 == x0
    }

    constructor (pIn: int, qIn: int, seed: int)
      requires Prime(pIn) && Prime(qIn) && pIn != qIn
      ensures Valid() && fresh(generator) && generator.position == 0
      ensures p == pIn && q == qIn && x0 == (seed * seed) % (p * q)
      ensures generator.maxBits == BitCount(BitCount(p * q)) - 1
    {
      hide Prime, BitCount;
      PrimeAtLeastTwo(pIn);
      PrimeAtLeastTwo(qIn);
      p := pIn;
      q := qIn;
      MulMonotone(pIn, 2, qIn);
      var g := new PublicBlumBlumShub(pIn * qIn, seed);
      generator := g;
      x0 := (seed * seed) % (pIn * qIn);
    }

    /** Moves to byte `index`.  What comes out next is what a fresh generator gives after
        8 * index bits exactly if the seed and the index are seekable; if not, it is the
        stream that starts from 1.  At the boundary of two blocks the next block is already
        current, where the sequential generator still holds the one used up. */
    method Seek(index: nat)
      requires Valid()
      modifies generator
      ensures Phi(p, q) > 0
      ensures generator.Valid() && generator.position == 8 * index
      ensures generator.x0 == if Seekable(p, q, x0, index, generator.maxBits) then x0 else 1
      ensures Valid() <==> Seekable(p, q, x0, index, generator.maxBits)
      ensures generator.current == Pow(x0, Pow2(8 * index / generator.maxBits + 1)) % (p * q)
         <==> Seekable(p, q, x0, index, generator.maxBits)
    {
      hide Pow, Pow2, Phi, Unit;
      var i := 8 * index;
      var maxBits := generator.maxBits;
      PowOfTwo(i / maxBits + 1);
      ReduceExponentProduct(p, q, x0, Pow2(i / maxBits + 1));
      var e := Pow(2, i / maxBits + 1) % Phi(p, q);
      generator.current := Pow(x0, e) % (p * q);
      generator.bitsLeft := maxBits - i % maxBits;
      generator.position := i;
      generator.block := i / maxBits;
      generator.x0 := if Seekable(p, q, x0, index, maxBits) then x0 else 1;
      DivisionFacts(i, maxBits);
      assert (i / maxBits + 1) * maxBits == (i / maxBits) * maxBits + maxBits;
      StreamOfOne(p, q, x0, Pow2(i / maxBits + 1));
    }
  }

  /** The zeroth power of x0 is 1, and so are all squares from there on. */
  lemma StreamOfOne(p: int, q: int, x0: int, e: nat)
    requires Prime(p) && Prime(q)
    ensures p * q > 1
    ensures Pow(x0, 0) % (p * q) == 1 == Pow(1, e) % (p * q)
  {
    PrimeAtLeastTwo(p);
    PrimeAtLeastTwo(q);
    MulMonotone(p, 2, q);
    OnePower(e);
  }

  /** Random access agrees with sequential generation: the bytes after Seek(index)
      are the bytes that follow the first `index` bytes of a fresh generator. */
  method SeekThenGenerate(p: int, q: int, seed: int, index: nat, size: nat) returns (whole: seq<nat>, part: seq<nat>)
    requires Prime(p) && Prime(q) && p != q
    requires (p % 4 == 3 && q % 4 == 3) || Unit(seed, p, q)
    ensures |whole| == index + size && part == whole[index..]
  {
    hide Prime, IsStream, Seekable, Unit, BitCount;
    var sequential := new BlumBlumShub(p, q, seed);
    whole := sequential.generator.GenerateBlock(index + size);
    var random := new BlumBlumShub(p, q, seed);
    SeedSeekable(p, q, seed, index, random.generator.maxBits);
    random.Seek(index);
    part := random.generator.GenerateBlock(size);
    StreamSuffix(whole, part, p * q, random.x0, random.generator.maxBits, index);
  }

  lemma SeedSeekable(p: int, q: int, seed: int, index: nat, maxBits: nat)
    requires Prime(p) && Prime(q) && p != q && maxBits > 0
    requires (p % 4 == 3 && q % 4 == 3) || Unit(seed, p, q)
    ensures Phi(p, q) > 0 && p * q > 0 && Seekable(p, q, (seed * seed) % (p * q), index, maxBits)
  {
    PhiFactors(p, q, 0);
    if p % 4 == 3 && q % 4 == 3 {
      BlumPrimesSeekable(p, q, (seed * seed) % (p * q), index, maxBits);
    } else {
      SquareIsUnit(seed, p, q);
    }
  }

  lemma SquareIsUnit(seed: int, p: int, q: int)
    requires Prime(p) && Prime(q) && p != q && Unit(seed, p, q)
    ensures p * q > 0 && Unit((seed * seed) % (p * q), p, q)
  {
    assert p * q > 0;
    var s := seed * seed;
    CongMod(s, p * q);
    CongProduct(s, s % (p * q), p, q);
    if Divides(p, s % (p * q)) {
      CongTrans(s, s % (p * q), 0, p);
      EuclidLemma(p, seed, seed);
    }
    if Divides(q, s % (p * q)) {
      CongTrans(s, s % (p * q), 0, q);
      EuclidLemma(q, seed, seed);
    }
  }

  // ------------------------------------------------------------------
  // A seed and an index for which Seek fails

  /** p == 3, q == 5, seed 3 and byte 1: the exponent 2^5 is 0 modulo 8.  All states of
      the sequential generator are 6; Seek leaves 1. */
  method SeekFails() returns (sequential: nat, sought: nat)
    ensures sequential == 0xAA && sought == 0x55
  {
    hide Prime, BitCount, Pow, Pow2, Unit, StreamBits, StreamBit;
    SmallParameters();
    var inOrder := new BlumBlumShub(3, 5, 3);
    var first := inOrder.generator.GenerateByte();
    sequential := inOrder.generator.GenerateByte();
    SixesAndOnes();
    var random := new BlumBlumShub(3, 5, 3);
    random.Seek(1);
    sought := random.generator.GenerateByte();
  }

  lemma SmallPrime(p: int)
    requires p == 3 || p == 5
    ensures Prime(p)
  {
    forall d {:trigger Divides(d, p)} | 2 <= d < p
      ensures !Divides(d, p)
    {
      DividesMod(d, p);
    }
  }

  lemma SmallParameters()
    ensures Prime(3) && Prime(5) && BitCount(BitCount(15)) - 1 == 2
    ensures Phi(3, 5) == 8 && !Seekable(3, 5, 9, 1, 2)
  {
    hide Pow2;
    SmallPrime(3);
    SmallPrime(5);
    assert BitCount(15) == 4;
    assert BitCount(4) == 3;
    assert Divides(3, 9) by { CongBy(9, 0, 3, 3); }
    assert Pow(2, 5) == 32;
  }

  /** The two streams in question, from bit 8 on. */
  lemma SixesAndOnes()
    ensures StreamBits(15, 9, 2, 8, 8) == 0xAA && StreamBits(15, 1, 2, 8, 8) == 0x55
  {
    hide StreamBit;
    TwoStreams(8);
    TwoStreams(10);
    TwoStreams(12);
    TwoStreams(14);
    FourPairs(9, 8);
    FourPairs(1, 8);
  }

  lemma FourPairs(x0: int, i: nat)
    ensures StreamBits(15, x0, 2, i, 8) ==
      128 * StreamBit(15, x0, 2, i) + 64 * StreamBit(15, x0, 2, i + 1)
      + 32 * StreamBit(15, x0, 2, i + 2) + 16 * StreamBit(15, x0, 2, i + 3)
      + 8 * StreamBit(15, x0, 2, i + 4) + 4 * StreamBit(15, x0, 2, i + 5)
      + 2 * StreamBit(15, x0, 2, i + 6) + StreamBit(15, x0, 2, i + 7)
  {
    hide StreamBit;
    assert StreamBits(15, x0, 2, i, 4) == 2 * StreamBits(15, x0, 2, i, 3) + StreamBit(15, x0, 2, i + 3);
    assert StreamBits(15, x0, 2, i, 2) == 2 * StreamBits(15, x0, 2, i, 1) + StreamBit(15, x0, 2, i + 1);
    assert StreamBits(15, x0, 2, i, 6) == 2 * StreamBits(15, x0, 2, i, 5) + StreamBit(15, x0, 2, i + 5);
  }

  /** Every pair of bits is 10 in the one stream and 01 in the other. */
  lemma TwoStreams(i: nat)
    requires i % 2 == 0
    ensures StreamBit(15, 9, 2, i) == 1 && StreamBit(15, 9, 2, i + 1) == 0
    ensures StreamBit(15, 1, 2, i) == 0 && StreamBit(15, 1, 2, i + 1) == 1
  {
    hide Pow, Pow2;
    NinePower(i / 2 + 1);
    OnePower(Pow2(i / 2 + 1));
    assert (i + 1) / 2 == i / 2;
    assert Bit(6, 1) == 1 && Bit(6, 0) == 0 && Bit(1, 1) == 0 && Bit(1, 0) == 1;
  }

  lemma {:induction false} NinePower(j: nat)
    requires j > 0
    ensures Pow(9, Pow2(j)) % 15 == 6
  {
    if j == 1 {
      Pow2First();
      assert Pow(9, 2) == 9 * Pow(9, 1) == 9 * (9 * Pow(9, 0));
    } else {
      NinePower(j - 1);
      SquareBlock(15, 9, j - 2, 6);
    }
  }
}

/** WindowSlider of algebra.cpp: cuts an exponent into odd windows, with a carry
    when the next bit makes a negative window cheaper. */
module WindowSliders {
  import opened Bits

  const WORD_BITS: nat := 64

  function WordCount(n: nat): nat { (BitCount(n) + WORD_BITS - 1) / WORD_BITS }

  function DefaultWindowSize(expLen: nat): (w: nat)
    ensures 1 <= w <= 7
  {
    if expLen <= 17 then 1 else if expLen <= 24 then 2 else if expLen <= 70 then 3
    else if expLen <= 197 then 4 else if expLen <= 539 then 5 else if expLen <= 1434 then 6 else 7
  }

  class WindowSlider {
    var exp: nat
    const windowModulus: nat
    const windowSize: nat
    var windowBegin: nat
    var expWindow: nat
    const fastNegate: bool
    var negateNext: bool
    var firstTime: bool
    var finished: bool

    // No window starts above this bit position.
    ghost const horizon: nat

    /** windowSizeIn == 0 selects the size from the exponent's length. */
    constructor (expIn: nat, fastNegateIn: bool, windowSizeIn: nat)
      requires windowSizeIn < 32
      ensures Valid() && !finished && Pending() == expIn && firstTime && windowBegin == 0
      ensures fastNegate == fastNegateIn && horizon == BitCount(expIn)
      ensures windowSize == if windowSizeIn == 0 then DefaultWindowSize(BitCount(expIn)) else windowSizeIn
    {
      exp := expIn;
      var size := if windowSizeIn == 0 then DefaultWindowSize(BitCount(expIn)) else windowSizeIn;
      windowSize := size;
      windowModulus := Shl(1, size);
      windowBegin := 0;
      expWindow := 0;
      fastNegate := fastNegateIn;
      negateNext := false;
      firstTime := true;
      finished := false;
      horizon := BitCount(expIn);
      new;
      BitCountBound(exp);
      ShlOne(windowSize);
    }

    ghost function Skip(): nat
      reads this
    {
      if firstTime then 0 else windowSize
    }

    /** The part of the exponent above the current window. */
    ghost function Pending(): int
      reads this
    {
      Shl(Shr(exp, Skip()), Skip() + windowBegin)
    }

    /** The signed window at its bit position. */
    ghost function Current(): int
      reads this
    {
      Shl(if negateNext then -(expWindow as int) else expWindow, windowBegin)
    }

    ghost predicate Valid()
      reads this
    {
      && 1 <= windowSize < 32
      && windowModulus == Pow2(windowSize)
      && Pending() <= Pow2(horizon)
    }

    /** Either nothing is left of the exponent, or the next window is odd, does
        not overlap the one before it, lies below the horizon, and together with
        what is still pending makes up exactly what was pending. */
    method FindNextWindow()
      requires Valid() && !finished
      modifies this
      ensures Valid() && !firstTime
      ensures finished <==> old(Pending()) == 0
      ensures !finished ==>
        && old(Pending()) == Current() + Pending()
        && old(windowBegin + Skip()) <= windowBegin <= horizon
        && expWindow % 2 == 1 && expWindow < Pow2(windowSize)
        && (negateNext ==> fastNegate)
    {
      hide Shl, Shr, Low, Pow2, BitCount, Bit, WordCount;
      ghost var skip0, begin0, pending0 := Skip(), windowBegin, Pending();
      var expLen := WordCount(exp) * WORD_BITS;
      var skipCount := if firstTime then 0 else windowSize;
      firstTime := false;
      while Bit(exp, skipCount) == 0
        invariant skip0 <= skipCount && !finished && !firstTime && exp == old(exp) && windowBegin == begin0
        invariant Shl(Shr(exp, skipCount), skipCount + begin0) == pending0
        decreases expLen - skipCount
      {
        if skipCount >= expLen {
          finished := true;
          NothingAbove(exp, skip0, skipCount, windowSize, begin0);
          assert Pending() == 0;
          return;
        }
        SkipZero(exp, skipCount, begin0);
        skipCount := skipCount + 1;
      }

      BitIsParity(exp, skipCount);
      TakeWindow(skipCount);
    }

    /** The second half of FindNextWindow: a set bit was found at skipCount. */
    method TakeWindow(skipCount: nat)
      requires 1 <= windowSize < 32 && windowModulus == Pow2(windowSize) && !firstTime
      requires Shr(exp, skipCount) % 2 == 1
      requires Shl(Shr(exp, skipCount), skipCount + windowBegin) <= Pow2(horizon)
      modifies `exp, `windowBegin, `expWindow, `negateNext
      ensures Valid()
      ensures 0 < Current() + Pending() == Shl(Shr(old(exp), skipCount), skipCount + old(windowBegin))
      ensures windowBegin == old(windowBegin) + skipCount <= horizon
      ensures expWindow % 2 == 1 && expWindow < Pow2(windowSize)
      ensures negateNext ==> fastNegate
    {
      hide Shl, Shr, Low, Pow2, Bit;
      ghost var whole := Shr(exp, skipCount);
      exp := Shr(exp, skipCount);
      windowBegin := windowBegin + skipCount;
      expWindow := Low(exp, windowSize);
      WindowParity(whole, windowSize);
      SplitBelow(whole, windowSize, windowBegin, horizon);

      if fastNegate && Bit(exp, windowSize) == 1 {
        CarrySplit(whole, windowSize, windowBegin);
        negateNext := true;
        expWindow := Pow2(windowSize) - expWindow;
        exp := exp + windowModulus;
      } else {
        PlainSplit(whole, windowSize, windowBegin);
        negateNext := false;
      }
    }
  }

  lemma SkipZero(n: nat, k: nat, begin: nat)
    requires Bit(n, k) == 0
    ensures Shl(Shr(n, k), k + begin) == Shl(Shr(n, k + 1), k + 1 + begin)
  {
    ShiftStep(n, k);
    ShlShl(Shr(n, k + 1), 1, k + begin);
  }

  lemma BitIsParity(n: nat, k: nat)
    ensures Bit(n, k) == Shr(n, k) % 2
  {
  }

  lemma NothingAbove(n: nat, skip: nat, skipCount: nat, size: nat, begin: nat)
    requires skip <= skipCount && skip <= size
    requires skipCount >= WordCount(n) * WORD_BITS
    requires Shl(Shr(n, skipCount), skipCount + begin) == Shl(Shr(n, skip), skip + begin)
    ensures Shl(Shr(n, skip), skip + begin) == 0
    ensures Shl(Shr(n, size), size + begin) == 0
  {
    BitCountUpper(n, skipCount);
    ShrSmall(n, skipCount);
    ShlZero(skipCount + begin);
    ShrShr(n, skip, size - skip);
    ShlZero(size + begin);
  }

  lemma WindowParity(u: nat, w: nat)
    requires w > 0 && u % 2 == 1
    ensures Low(u, w) % 2 == 1 && (Pow2(w) - Low(u, w)) % 2 == 1
  {
    var low, half := Low(u / 2, w - 1), Pow2(w - 1);
    OddTwice(low);
    OddTwice(half - low - 1);
  }

  lemma OddTwice(a: int)
    ensures (2 * a + 1) % 2 == 1
  {
  }

  lemma PlainSplit(u: nat, w: nat, begin: nat)
    ensures Shl(u, begin) == Shl(Low(u, w), begin) + Shl(Shr(u, w), w + begin)
  {
    SplitLow(u, w);
    SplitShifted(Shr(u, w), Low(u, w), w, begin);
  }

  /** Taking the low w bits as a negative window and carrying keeps the value. */
  lemma CarrySplit(u: nat, w: nat, begin: nat)
    ensures Shr(u + Pow2(w), w) == Shr(u, w) + 1
    ensures Shl(u, begin) == Shl(Low(u, w) - Pow2(w), begin) + Shl(Shr(u, w) + 1, w + begin)
  {
    hide Shl, Shr, Low, Pow2;
    var q, r := Shr(u, w), Low(u, w);
    SplitLow(u, w);
    ShlAdd(q, 1, w);
    ShlOne(w);
    SplitShifted(q + 1, r - Pow2(w), w, begin);
    SplitUnique(q + 1, r, w);
  }

  lemma SplitShifted(q: int, r: int, w: nat, begin: nat)
    ensures Shl(Shl(q, w) + r, begin) == Shl(r, begin) + Shl(q, w + begin)
  {
    ShlAdd(Shl(q, w), r, begin);
    ShlShl(q, w, begin);
  }

  lemma SplitBelow(u: nat, w: nat, begin: nat, horizon: nat)
    requires w > 0 && u % 2 == 1
    requires Shl(u, begin) <= Pow2(horizon)
    ensures begin <= horizon && Shl(u, begin) > 0
    ensures Shl(Shr(u, w), w + begin) <= Pow2(horizon)
    ensures Bit(u, w) == 1 ==> Shl(Shr(u, w) + 1, w + begin) <= Pow2(horizon)
  {
    hide Shl, Shr, Low, Pow2;
    BelowHorizon(u, begin, horizon);
    SplitLow(u, w);
    ShlMonotone(Shl(Shr(u, w), w), u, begin);
    ShlShl(Shr(u, w), w, begin);
    if Bit(u, w) == 1 {
      RoundUpBelow(u, w, horizon - begin);
      ShlMonotone(Shl(Shr(u, w) + 1, w), Pow2(horizon - begin), begin);
      ShlShl(Shr(u, w) + 1, w, begin);
      ShlOfPow2(horizon - begin, begin);
    }
  }

  lemma Pow2Even(k: nat)
    requires k > 0
    ensures Pow2(k) % 2 == 0
  {
    hide Pow2;
    Pow2Step(k);
  }

  lemma ShlOfPow2(a: nat, b: nat)
    ensures Shl(Pow2(a), b) == Pow2(a + b)
  {
    ShlOne(a);
    ShlShl(1, a, b);
    ShlOne(a + b);
  }

  lemma BelowHorizon(u: nat, begin: nat, horizon: nat)
    requires u > 0 && Shl(u, begin) <= Pow2(horizon)
    ensures begin <= horizon && u <= Pow2(horizon - begin)
  {
    ShlOne(begin);
    ShlMonotone(1, u, begin);
    if begin > horizon {
      Pow2Monotone(horizon, begin);
    } else if u > Pow2(horizon - begin) {
      ShlMonotone(Pow2(horizon - begin), u, begin);
      ShlOfPow2(horizon - begin, begin);
    }
  }

  /** An odd number with bit w set, rounded up to a multiple of 2^w, does not
      pass a power of two that bounds it. */
  lemma {:induction false} RoundUpBelow(u: nat, w: nat, k: nat)
    requires w > 0 && u % 2 == 1 && Bit(u, w) == 1
    requires u <= Pow2(k)
    ensures Shl(Shr(u, w) + 1, w) <= Pow2(k)
  {
    hide Shl, Shr, Low, Pow2;
    ShrSmall(u, w);
    Pow2Even(w);
    if k > 0 { Pow2Even(k); }
    ShlZero(w);
    if k <= w {
      Pow2Monotone(k, w);
    } else {
      ShlOfPow2(k - w, w);
      SplitLow(u, w);
      if Shr(u, w) + 1 > Pow2(k - w) {
        ShlMonotone(Pow2(k - w), Shr(u, w), w);
      }
      ShlMonotone(Shr(u, w) + 1, Pow2(k - w), w);
    }
  }
}

/** AbstractGroup::SimultaneousMultiply and ScalarMultiply of algebra.cpp:
    several multiples of one base, collected in buckets of odd windows. */
module ScalarMultiplication {
  import opened Bits
  import opened AbstractGroups
  import opened WindowSliders

  /** The sum of (2k + 1) * c[k] over k >= j. */
  ghost function OddWeighted(c: seq<int>, j: nat): int
    requires j <= |c|
    decreases |c| - j
  {
    if j == |c| then 0 else (2 * j + 1) * c[j] + OddWeighted(c, j + 1)
  }

  /** The sum of c[k] over k >= j, and the sum of these sums. */
  ghost function Suffix(c: seq<int>, j: nat): int
    requires j <= |c|
    decreases |c| - j
  {
    if j == |c| then 0 else c[j] + Suffix(c, j + 1)
  }

  ghost function SuffixSum(c: seq<int>, j: nat): int
    requires j <= |c|
    decreases |c| - j
  {
    if j == |c| then 0 else Suffix(c, j) + SuffixSum(c, j + 1)
  }

  lemma {:induction false} SweepIdentity(c: seq<int>, j: nat)
    requires j < |c|
    ensures OddWeighted(c, j) == 2 * SuffixSum(c, j + 1) + (2 * j + 1) * Suffix(c, j)
    decreases |c| - j
  {
    if j + 1 < |c| {
      SweepIdentity(c, j + 1);
      var s := Suffix(c, j + 1);
      assert (2 * j + 1) * (c[j] + s) == (2 * j + 1) * c[j] + (2 * j + 1) * s;
      assert (2 * (j + 1) + 1) * s == (2 * j + 1) * s + 2 * s;
    } else {
      assert Suffix(c, j) == c[j] + Suffix(c, j + 1);
      assert Suffix(c, j + 1) == 0 && SuffixSum(c, j + 1) == 0 && OddWeighted(c, j + 1) == 0;
    }
  }

  lemma {:induction false} OddWeightedUpdate(c: seq<int>, k: nat, v: int, j: nat)
    requires j <= |c| && k < |c|
    ensures OddWeighted(c[k := c[k] + v], j) == OddWeighted(c, j) + if j <= k then (2 * k + 1) * v else 0
    decreases |c| - j
  {
    if j < |c| {
      OddWeightedUpdate(c, k, v, j + 1);
      if j == k {
        assert (2 * k + 1) * (c[k] + v) == (2 * k + 1) * c[k] + (2 * k + 1) * v;
      }
    }
  }

  lemma {:induction false} OddWeightedZero(c: seq<int>, j: nat)
    requires j <= |c| && forall k :: 0 <= k < |c| ==> c[k] == 0
    ensures OddWeighted(c, j) == 0
    decreases |c| - j
  {
    if j < |c| { OddWeightedZero(c, j + 1); }
  }

  ghost predicate AreMultiples<T>(G: Group<T>, base: T, elements: seq<T>, c: seq<int>)
  {
    |elements| == |c| && forall j :: 0 <= j < |c| ==> elements[j] == Multiple(G, base, c[j])
  }

  /** What one exponent's buckets hold so far, and what its slider still has to
      give, make up the exponent; no window position before p is still to come. */
  ghost predicate Slot<T>(G: Group<T>, base: T, e: nat, slider: WindowSlider, bucket: seq<T>, c: seq<int>, p: nat)
    reads slider
  {
    && slider.Valid() && !slider.firstTime && slider.fastNegate == G.inversionIsFast
    && |bucket| == Pow2(slider.windowSize - 1)
    && AreMultiples(G, base, bucket, c)
    && OddWeighted(c, 0) + (if slider.finished then 0 else slider.Current() + slider.Pending()) == e
    && (!slider.finished ==>
          p <= slider.windowBegin <= slider.horizon
          && slider.expWindow % 2 == 1 && slider.expWindow < Pow2(slider.windowSize))
  }

  /** Puts base * 2^p, or its inverse, into the bucket of the current window and
      moves on to the next window. */
  method Deposit<T(!new)>(G: Group<T>, base: T, ghost e: nat, slider: WindowSlider, bucket: seq<T>, ghost c: seq<int>,
                          ghost p: nat, g: T)
    returns (bucket': seq<T>, ghost c': seq<int>)
    requires IsGroup(G) && G.has(base) && g == Multiple(G, base, Pow2(p))
    requires Slot(G, base, e, slider, bucket, c, p) && !slider.finished && slider.windowBegin == p
    modifies slider
    ensures Slot(G, base, e, slider, bucket', c', p + 1)
  {
    hide Multiple, Pow2, Shl, IsGroup, OddWeighted;
    var k := slider.expWindow / 2;
    HalfWindow(slider.expWindow, slider.windowSize);
    MultipleInverse(G, base, Pow2(p));
    var v: int := if slider.negateNext then -(Pow2(p) as int) else Pow2(p);
    var element := if slider.negateNext then G.inverse(g) else g;
    MultipleAdd(G, base, c[k], v);
    bucket' := bucket[k := G.add(bucket[k], element)];
    c' := c[k := c[k] + v];
    OddWeightedUpdate(c, k, v, 0);
    WindowValue(k, slider.negateNext, p);
    slider.FindNextWindow();
  }

  lemma HalfWindow(x: nat, w: nat)
    requires w > 0 && x % 2 == 1 && x < Pow2(w)
    ensures x / 2 < Pow2(w - 1) && x == 2 * (x / 2) + 1
  {
  }

  lemma WindowValue(k: nat, negate: bool, p: nat)
    ensures Shl(if negate then -(2 * k + 1) else 2 * k + 1, p)
         == (2 * k + 1) * (if negate then -(Pow2(p) as int) else Pow2(p) as int)
  {
    ShlPow2(2 * k + 1, p);
    ShlPow2(-(2 * k + 1), p);
  }

  /** The final sweep over one exponent's buckets. */
  method SweepBuckets<T(!new)>(G: Group<T>, base: T, bucketIn: seq<T>, ghost c: seq<int>) returns (r: T)
    requires IsGroup(G) && G.has(base) && |bucketIn| > 0 && AreMultiples(G, base, bucketIn, c)
    ensures r == Multiple(G, base, OddWeighted(c, 0))
  {
    hide Multiple, IsGroup;
    var bucket := bucketIn;
    r := bucket[|bucket| - 1];
    SweepIdentity(c, 0);
    if |bucket| > 1 {
      var j := |bucket| - 2;
      LastSuffix(c);
      while j >= 1
        invariant 0 <= j <= |c| - 2 && |bucket| == |c|
        invariant forall k :: 0 <= k <= j ==> bucket[k] == Multiple(G, base, c[k])
        invariant bucket[j + 1] == Multiple(G, base, Suffix(c, j + 1))
        invariant r == Multiple(G, base, SuffixSum(c, j + 1))
      {
        MultipleAdd(G, base, c[j], Suffix(c, j + 1));
        bucket := bucket[j := G.add(bucket[j], bucket[j + 1])];
        MultipleAdd(G, base, SuffixSum(c, j + 1), Suffix(c, j));
        r := G.add(r, bucket[j]);
        j := j - 1;
      }
      MultipleAdd(G, base, c[0], Suffix(c, 1));
      bucket := bucket[0 := G.add(bucket[0], bucket[1])];
      MultipleDouble(G, base, SuffixSum(c, 1));
      MultipleAdd(G, base, 2 * SuffixSum(c, 1), Suffix(c, 0));
      r := G.add(G.Double(r), bucket[0]);
    } else {
      OneBucket(c);
    }
  }

  lemma OneBucket(c: seq<int>)
    requires |c| == 1
    ensures OddWeighted(c, 0) == c[0]
  {
    assert OddWeighted(c, 1) == 0;
  }

  lemma LastSuffix(c: seq<int>)
    requires |c| > 0
    ensures Suffix(c, |c| - 1) == c[|c| - 1] && SuffixSum(c, |c| - 1) == c[|c| - 1]
  {
    assert Suffix(c, |c|) == 0 && SuffixSum(c, |c|) == 0;
  }

  ghost function MaxBitCount(exps: seq<nat>): (m: nat)
    ensures forall i :: 0 <= i < |exps| ==> BitCount(exps[i]) <= m
  {
    if |exps| == 0 then 0
    else
      var m := MaxBitCount(exps[..|exps| - 1]);
      if BitCount(exps[|exps| - 1]) > m then BitCount(exps[|exps| - 1]) else m
  }

  ghost predicate Distinct(sliders: seq<WindowSlider>)
  {
    forall i, j :: 0 <= i < j < |sliders| ==> sliders[i] != sliders[j]
  }

  /** Everything the scan knows when it stands at bit position p. */
  ghost predicate Scanning<T>(G: Group<T>, base: T, exps: seq<nat>, sliders: seq<WindowSlider>,
                              buckets: seq<seq<T>>, c: seq<seq<int>>, p: nat, top: nat)
    reads sliders
  {
    && |buckets| == |c| == |sliders| == |exps|
    && Distinct(sliders)
    && (forall k :: 0 <= k < |exps| ==> sliders[k].horizon <= top)
    && (forall k :: 0 <= k < |exps| ==> Slot(G, base, exps[k], sliders[k], buckets[k], c[k], p))
  }

  ghost predicate AllFinished(sliders: seq<WindowSlider>)
    reads sliders
  {
    forall k :: 0 <= k < |sliders| ==> sliders[k].finished
  }

  /** The inner loop of the scan: deposits base * 2^p for every exponent that has
      a window at bit position p. */
  method ScanPosition<T(!new)>(G: Group<T>, base: T, ghost exps: seq<nat>, sliders: seq<WindowSlider>,
                               bucketsIn: seq<seq<T>>, ghost cIn: seq<seq<int>>, p: nat, ghost top: nat, g: T)
    returns (buckets: seq<seq<T>>, ghost c: seq<seq<int>>, notDone: bool)
    requires IsGroup(G) && G.has(base) && g == Multiple(G, base, Pow2(p))
    requires Scanning(G, base, exps, sliders, bucketsIn, cIn, p, top)
    modifies sliders
    ensures Scanning(G, base, exps, sliders, buckets, c, p + 1, top)
    ensures !notDone <==> AllFinished(sliders)
    ensures notDone ==> p + 1 <= top
  {
    hide Multiple, IsGroup, Pow2, Shl, OddWeighted, AreMultiples;
    buckets, c := bucketsIn, cIn;
    notDone := false;
    for i := 0 to |sliders|
      invariant |buckets| == |c| == |sliders|
      invariant forall k :: 0 <= k < i ==> Slot(G, base, exps[k], sliders[k], buckets[k], c[k], p + 1)
      invariant forall k :: i <= k < |sliders| ==> Slot(G, base, exps[k], sliders[k], buckets[k], c[k], p)
      invariant notDone <==> exists k :: 0 <= k < i && !sliders[k].finished
    {
      if !sliders[i].finished && p == sliders[i].windowBegin {
        var b, d := Deposit(G, base, exps[i], sliders[i], buckets[i], c[i], p, g);
        buckets := buckets[i := b];
        c := c[i := d];
      }
      notDone := notDone || !sliders[i].finished;
    }
  }

  method StartSliders<T(!new)>(G: Group<T>, base: T, exps: seq<nat>)
    returns (sliders: seq<WindowSlider>, buckets: seq<seq<T>>, ghost c: seq<seq<int>>)
    requires IsGroup(G) && G.has(base)
    ensures Scanning(G, base, exps, sliders, buckets, c, 0, MaxBitCount(exps))
    ensures forall k :: 0 <= k < |sliders| ==> fresh(sliders[k])
  {
    hide Multiple, IsGroup, Pow2, Shl, OddWeighted;
    buckets, c, sliders := [], [], [];
    for i := 0 to |exps|
      invariant |buckets| == |c| == |sliders| == i
      invariant forall k :: 0 <= k < i ==> fresh(sliders[k]) && sliders[k].horizon <= MaxBitCount(exps)
      invariant Distinct(sliders)
      invariant forall k :: 0 <= k < i ==> Slot(G, base, exps[k], sliders[k], buckets[k], c[k], 0)
    {
      var slider := new WindowSlider(exps[i], G.inversionIsFast, 0);
      slider.FindNextWindow();
      var size := Pow2(slider.windowSize - 1);
      MultipleOne(G, base);
      OddWeightedZero(seq(size, _ => 0), 0);
      sliders := sliders + [slider];
      buckets := buckets + [seq(size, _ => G.identity)];
      c := c + [seq(size, _ => 0)];
    }
  }

  ghost predicate BucketsComplete<T>(G: Group<T>, base: T, exps: seq<nat>, buckets: seq<seq<T>>, c: seq<seq<int>>)
  {
    && |buckets| == |c| == |exps|
    && forall k :: 0 <= k < |exps| ==>
         |buckets[k]| > 0 && AreMultiples(G, base, buckets[k], c[k]) && OddWeighted(c[k], 0) == exps[k]
  }

  method SimultaneousMultiply<T(!new)>(G: Group<T>, base: T, exps: seq<nat>) returns (results: seq<T>)
    requires IsGroup(G) && G.has(base)
    ensures |results| == |exps|
    ensures forall i :: 0 <= i < |exps| ==> results[i] == Multiple(G, base, exps[i])
  {
    hide Multiple, IsGroup, Pow2, Shl, OddWeighted;
    var exponents, buckets;
    ghost var c;
    exponents, buckets, c := StartSliders(G, base, exps);

    ghost var top := MaxBitCount(exps);
    var expBitPosition := 0;
    var g := base;
    Pow2First();
    MultipleOne(G, base);
    var notDone := true;
    while notDone
      invariant notDone ==> Scanning(G, base, exps, exponents, buckets, c, expBitPosition, top) && expBitPosition <= top
      invariant !notDone ==> Scanning(G, base, exps, exponents, buckets, c, expBitPosition + 1, top) && AllFinished(exponents)
      invariant forall k :: 0 <= k < |exponents| ==> fresh(exponents[k])
      invariant g == Multiple(G, base, Pow2(expBitPosition))
      decreases if notDone then top - expBitPosition + 1 else 0
    {
      buckets, c, notDone := ScanPosition(G, base, exps, exponents, buckets, c, expBitPosition, top, g);
      if notDone {
        MultipleDouble(G, base, Pow2(expBitPosition));
        Pow2Step(expBitPosition + 1);
        g := G.Double(g);
        expBitPosition := expBitPosition + 1;
      }
    }

    assert BucketsComplete(G, base, exps, buckets, c);
    results := SweepAll(G, base, exps, buckets, c);
  }

  /** The last loop: the result of every exponent from its buckets. */
  method SweepAll<T(!new)>(G: Group<T>, base: T, exps: seq<nat>, buckets: seq<seq<T>>, ghost c: seq<seq<int>>)
    returns (results: seq<T>)
    requires IsGroup(G) && G.has(base) && BucketsComplete(G, base, exps, buckets, c)
    ensures |results| == |exps|
    ensures forall i :: 0 <= i < |exps| ==> results[i] == Multiple(G, base, exps[i])
  {
    hide Multiple, IsGroup, OddWeighted;
    results := [];
    for i := 0 to |exps|
      invariant |results| == i
      invariant forall k :: 0 <= k < i ==> results[k] == Multiple(G, base, exps[k])
    {
      var r := SweepBuckets(G, base, buckets[i], c[i]);
      results := results + [r];
    }
  }

  method ScalarMultiply<T(!new)>(G: Group<T>, base: T, exponent: nat) returns (result: T)
    requires IsGroup(G) && G.has(base)
    ensures result == Multiple(G, base, exponent)
  {
    var results := SimultaneousMultiply(G, base, [exponent]);
    result := results[0];
  }
}

/** ECP::SimultaneousMultiply and ECP::ScalarMultiply of ecp.cpp: windows of the
    exponents are collected while a projective point is doubled, the recorded
    points are made affine together, and one small cascade per exponent is left.
    That the affine points form a group is taken as given. */
module EcpMultiplication {
  import opened Bits
  import opened AbstractGroups
  import opened WindowSliders
  import opened Heaps
  import opened ScalarMultiplication
  import opened GeneralCascades
  import opened FixedBasePrecomputations
  import opened Fields
  import opened EllipticCurves
  import opened Wrappers

  function CurveGroup<T(==)>(F: Field<T>, a: T, onCurve: Point<T> -> bool): Group<Point<T>>
  {
    Group(onCurve, Infinity, (P: Point<T>, Q: Point<T>) => PointAdd(F, a, P, Q), (P: Point<T>) => PointInverse(F, P), true)
  }

  /** Adding a point to itself is the doubling formula. */
  lemma DoubleIsAdd<T(!new)>(F: Field<T>, a: T, onCurve: Point<T> -> bool, P: Point<T>)
    ensures CurveGroup(F, a, onCurve).Double(P) == PointDouble(F, a, P)
  {
  }

  lemma {:induction false} DoubleTimesIsMultiple<T(!new)>(F: Field<T>, a: T, onCurve: Point<T> -> bool, P: Point<T>, k: nat)
    requires IsGroup(CurveGroup(F, a, onCurve)) && onCurve(P)
    ensures DoubleTimes(F, a, P, k) == Multiple(CurveGroup(F, a, onCurve), P, Pow2(k))
  {
    hide IsGroup, Multiple;
    var G := CurveGroup(F, a, onCurve);
    if k == 0 {
      MultipleOne(G, P);
    } else {
      DoubleTimesIsMultiple(F, a, onCurve, P, k - 1);
      DoubleIsAdd(F, a, onCurve, Multiple(G, P, Pow2(k - 1)));
      MultipleDouble(G, P, Pow2(k - 1));
    }
  }

  /** A window of an exponent and the recorded base it applies to. */
  datatype WindowUse = WindowUse(window: nat, baseIndex: nat, negate: bool)

  ghost predicate Refers(uses: seq<WindowUse>, n: nat)
  {
    forall j :: 0 <= j < |uses| ==> uses[j].baseIndex < n && 0 < uses[j].window < 32
  }

  ghost function SignedWindow(u: WindowUse): int
  {
    if u.negate then -(u.window as int) else u.window
  }

  /** The sum of the signed windows at their bit positions. */
  ghost function UseValue(uses: seq<WindowUse>, positions: seq<nat>): int
    requires Refers(uses, |positions|)
  {
    if |uses| == 0 then 0
    else
      var u := uses[|uses| - 1];
      UseValue(uses[..|uses| - 1], positions) + Shl(SignedWindow(u), positions[u.baseIndex])
  }

  lemma {:induction false} UseValueExtend(uses: seq<WindowUse>, positions: seq<nat>, p: nat)
    requires Refers(uses, |positions|)
    ensures UseValue(uses, positions + [p]) == UseValue(uses, positions)
  {
    if |uses| > 0 { UseValueExtend(uses[..|uses| - 1], positions, p); }
  }

  lemma UseValueAppend(uses: seq<WindowUse>, positions: seq<nat>, u: WindowUse)
    requires Refers(uses, |positions|) && u.baseIndex < |positions| && 0 < u.window < 32
    ensures Refers(uses + [u], |positions|)
    ensures UseValue(uses + [u], positions) == UseValue(uses, positions) + Shl(SignedWindow(u), positions[u.baseIndex])
  {
    assert (uses + [u])[..|uses + [u]| - 1] == uses;
  }

  /** What one exponent has recorded and what its slider still has to give. */
  ghost predicate Recorded(e: nat, slider: WindowSlider, uses: seq<WindowUse>, positions: seq<nat>, p: nat)
    reads slider
  {
    && slider.Valid() && !slider.firstTime && slider.windowSize == 5
    && Refers(uses, |positions|)
    && UseValue(uses, positions) + (if slider.finished then 0 else slider.Current() + slider.Pending()) == e
    && (e == 0 ==> slider.finished && uses == [])
    && (!slider.finished ==>
          p <= slider.windowBegin <= slider.horizon
          && slider.expWindow % 2 == 1 && slider.expWindow < Pow2(slider.windowSize))
  }

  /** bases[b] represents 2^positions[b] times the point, by affine doublings. */
  ghost predicate BasesRecorded<T>(F: Field<T>, a: T, P: Point<T>, bases: seq<ProjectivePoint<T>>, positions: seq<nat>)
  {
    |bases| == |positions| && forall b :: 0 <= b < |bases| ==> Represents(F, bases[b], DoubleTimes(F, a, P, positions[b]))
  }

  ghost predicate Recording(exps: seq<nat>, sliders: seq<WindowSlider>, uses: seq<seq<WindowUse>>,
                            positions: seq<nat>, p: nat, top: nat)
    reads sliders
  {
    && |uses| == |sliders| == |exps|
    && Distinct(sliders)
    && (forall k :: 0 <= k < |exps| ==> sliders[k].horizon <= top)
    && (forall k :: 0 <= k < |exps| ==> Recorded(exps[k], sliders[k], uses[k], positions, p))
  }

  /** Records the window of one slider, whose base is the last one, and moves on. */
  method RecordWindow(ghost e: nat, slider: WindowSlider, uses: seq<WindowUse>, ghost positions: seq<nat>, last: nat, ghost p: nat)
    returns (uses': seq<WindowUse>)
    requires Recorded(e, slider, uses, positions, p) && !slider.finished && slider.windowBegin == p
    requires last < |positions| && positions[last] == p
    modifies slider
    ensures Recorded(e, slider, uses', positions, p + 1)
  {
    hide UseValue, Shl, Refers;
    assert Pow2(5) == 32;
    var u := WindowUse(slider.expWindow, last, slider.negateNext);
    UseValueAppend(uses, positions, u);
    uses' := uses + [u];
    slider.FindNextWindow();
  }

  lemma RecordedExtend(e: nat, slider: WindowSlider, uses: seq<WindowUse>, positions: seq<nat>, p: nat, q: nat)
    requires Recorded(e, slider, uses, positions, p)
    ensures Recorded(e, slider, uses, positions + [q], p)
  {
    UseValueExtend(uses, positions, q);
  }

  /** Records the current projective point unless this was done at this position. */
  method PushBase<T(==, !new)>(rd: ProjectiveDoubling<T>, ghost P: Point<T>, ghost exps: seq<nat>, ghost sliders: seq<WindowSlider>,
                               ghost uses: seq<seq<WindowUse>>, basesIn: seq<ProjectivePoint<T>>, ghost positionsIn: seq<nat>,
                               ghost i: nat, ghost p: nat, baseAdded: bool)
    returns (bases: seq<ProjectivePoint<T>>, ghost positions: seq<nat>)
    requires rd.Valid(DoubleTimes(rd.F, rd.a, P, p)) && |basesIn| == |positionsIn|
    requires BasesRecorded(rd.F, rd.a, P, basesIn, positionsIn)
    requires baseAdded ==> |positionsIn| > 0 && positionsIn[|positionsIn| - 1] == p
    requires RecordedUpTo(exps, sliders, uses, positionsIn, i, p)
    ensures BasesRecorded(rd.F, rd.a, P, bases, positions)
    ensures |bases| == |positions| > 0 && positions[|positions| - 1] == p
    ensures RecordedUpTo(exps, sliders, uses, positions, i, p)
  {
    hide Recorded, Represents, DoubleTimes, BasesRecorded;
    bases, positions := basesIn, positionsIn;
    if !baseAdded {
      ExtendAll(exps, sliders, uses, positions, i, p);
      AppendBase(rd.F, rd.a, P, bases, positions, rd.P, p);
      bases := bases + [rd.P];
      positions := positions + [p];
    }
  }

  /** Position p has been handled for the first i exponents. */
  ghost predicate RecordedUpTo(exps: seq<nat>, sliders: seq<WindowSlider>, uses: seq<seq<WindowUse>>, positions: seq<nat>, i: nat, p: nat)
    reads sliders
  {
    && i <= |exps| == |sliders| == |uses|
    && forall k :: 0 <= k < |sliders| ==> Recorded(exps[k], sliders[k], uses[k], positions, if k < i then p + 1 else p)
  }

  /** The inner loop of the scan at bit position p. */
  method RecordPosition<T(==, !new)>(rd: ProjectiveDoubling<T>, ghost P: Point<T>, ghost exps: seq<nat>, sliders: seq<WindowSlider>,
                                     usesIn: seq<seq<WindowUse>>, basesIn: seq<ProjectivePoint<T>>, ghost positionsIn: seq<nat>,
                                     p: nat, ghost top: nat)
    returns (uses: seq<seq<WindowUse>>, bases: seq<ProjectivePoint<T>>, ghost positions: seq<nat>, notDone: bool)
    requires rd.Valid(DoubleTimes(rd.F, rd.a, P, p))
    requires BasesRecorded(rd.F, rd.a, P, basesIn, positionsIn)
    requires Recording(exps, sliders, usesIn, positionsIn, p, top)
    modifies sliders
    ensures BasesRecorded(rd.F, rd.a, P, bases, positions)
    ensures Recording(exps, sliders, uses, positions, p + 1, top)
    ensures !notDone <==> AllFinished(sliders)
    ensures notDone ==> p + 1 <= top
  {
    hide Refers, UseValue, Shl, Pow2, Represents, DoubleTimes, BasesRecorded, RecordedUpTo;
    uses, bases, positions := usesIn, basesIn, positionsIn;
    StartPosition(exps, sliders, uses, positions, p, top);
    SameCount(rd.F, rd.a, P, bases, positions);
    notDone := false;
    var baseAdded := false;
    for i := 0 to |sliders|
      invariant |uses| == |sliders| && |bases| == |positions|
      invariant baseAdded ==> |positions| > 0 && positions[|positions| - 1] == p
      invariant BasesRecorded(rd.F, rd.a, P, bases, positions)
      invariant RecordedUpTo(exps, sliders, uses, positions, i, p)
      invariant forall k :: 0 <= k < |sliders| ==> sliders[k].horizon <= top
      invariant notDone <==> exists k :: 0 <= k < i && !sliders[k].finished
    {
      if !sliders[i].finished && p == sliders[i].windowBegin {
        bases, positions := PushBase(rd, P, exps, sliders, uses, bases, positions, i, p, baseAdded);
        baseAdded := true;
        uses := RecordAt(exps, sliders, uses, positions, |bases| - 1, i, p);
      } else {
        SkipAt(exps, sliders, uses, positions, i, p);
      }
      notDone := notDone || !sliders[i].finished;
    }
    EndPosition(exps, sliders, uses, positions, p, top);
  }

  lemma StartPosition(exps: seq<nat>, sliders: seq<WindowSlider>, uses: seq<seq<WindowUse>>, positions: seq<nat>, p: nat, top: nat)
    requires Recording(exps, sliders, uses, positions, p, top)
    ensures RecordedUpTo(exps, sliders, uses, positions, 0, p)
  {
  }

  lemma EndPosition(exps: seq<nat>, sliders: seq<WindowSlider>, uses: seq<seq<WindowUse>>, positions: seq<nat>, p: nat, top: nat)
    requires RecordedUpTo(exps, sliders, uses, positions, |sliders|, p) && Distinct(sliders)
    requires forall k :: 0 <= k < |sliders| ==> sliders[k].horizon <= top
    ensures Recording(exps, sliders, uses, positions, p + 1, top)
    ensures !AllFinished(sliders) ==> p + 1 <= top
  {
  }

  lemma SkipAt(exps: seq<nat>, sliders: seq<WindowSlider>, uses: seq<seq<WindowUse>>, positions: seq<nat>, i: nat, p: nat)
    requires RecordedUpTo(exps, sliders, uses, positions, i, p) && i < |sliders|
    requires sliders[i].finished || sliders[i].windowBegin != p
    ensures RecordedUpTo(exps, sliders, uses, positions, i + 1, p)
  {
  }

  method RecordAt(ghost exps: seq<nat>, sliders: seq<WindowSlider>, usesIn: seq<seq<WindowUse>>, ghost positions: seq<nat>,
                  last: nat, i: nat, ghost p: nat)
    returns (uses: seq<seq<WindowUse>>)
    requires RecordedUpTo(exps, sliders, usesIn, positions, i, p) && Distinct(sliders) && i < |sliders| == |usesIn|
    requires !sliders[i].finished && sliders[i].windowBegin == p
    requires last < |positions| && positions[last] == p
    modifies sliders[i]
    ensures |uses| == |usesIn| && RecordedUpTo(exps, sliders, uses, positions, i + 1, p)
  {
    hide UseValue, Shl, Refers, Pow2;
    var u := RecordWindow(exps[i], sliders[i], usesIn[i], positions, last, p);
    uses := usesIn[i := u];
  }

  lemma SameCount<T>(F: Field<T>, a: T, P: Point<T>, bases: seq<ProjectivePoint<T>>, positions: seq<nat>)
    requires BasesRecorded(F, a, P, bases, positions)
    ensures |bases| == |positions|
  {
  }

  lemma AppendBase<T>(F: Field<T>, a: T, P: Point<T>, bases: seq<ProjectivePoint<T>>, positions: seq<nat>,
                      R: ProjectivePoint<T>, p: nat)
    requires BasesRecorded(F, a, P, bases, positions) && Represents(F, R, DoubleTimes(F, a, P, p))
    ensures BasesRecorded(F, a, P, bases + [R], positions + [p])
  {
  }

  lemma ExtendAll(exps: seq<nat>, sliders: seq<WindowSlider>, uses: seq<seq<WindowUse>>, positions: seq<nat>, i: nat, p: nat)
    requires RecordedUpTo(exps, sliders, uses, positions, i, p)
    ensures RecordedUpTo(exps, sliders, uses, positions + [p], i, p)
  {
    hide Recorded;
    forall k | 0 <= k < |sliders|
      ensures Recorded(exps[k], sliders[k], uses[k], positions + [p], if k < i then p + 1 else p)
    {
      RecordedExtend(exps[k], sliders[k], uses[k], positions, if k < i then p + 1 else p, p);
    }
  }

  method StartRecording(exps: seq<nat>) returns (sliders: seq<WindowSlider>, uses: seq<seq<WindowUse>>)
    ensures Recording(exps, sliders, uses, [], 0, MaxBitCount(exps))
    ensures forall k :: 0 <= k < |sliders| ==> fresh(sliders[k])
  {
    hide Shl, Pow2;
    sliders, uses := [], [];
    for i := 0 to |exps|
      invariant |uses| == |sliders| == i
      invariant forall k :: 0 <= k < i ==> fresh(sliders[k]) && sliders[k].horizon <= MaxBitCount(exps)
      invariant Distinct(sliders)
      invariant forall k :: 0 <= k < i ==> Recorded(exps[k], sliders[k], uses[k], [], 0)
    {
      var slider := new WindowSlider(exps[i], true, 5);
      slider.FindNextWindow();
      sliders := sliders + [slider];
      uses := uses + [[]];
    }
  }

  /** ParallelInvert on the z coordinates, then the conversion loop. */
  method MakeAffine<T(==, !new)>(F: Field<T>, ghost a: T, ghost P: Point<T>, basesIn: seq<ProjectivePoint<T>>, ghost positions: seq<nat>)
    returns (points: seq<Point<T>>)
    requires IsField(F) && BasesRecorded(F, a, P, basesIn, positions)
    ensures |points| == |positions|
    ensures forall b :: 0 <= b < |points| ==> points[b] == DoubleTimes(F, a, P, positions[b])
  {
    hide IsField, Represents, DoubleTimes, Normalize, ToAffine;
    var zs := new T[|basesIn|](i requires 0 <= i < |basesIn| => basesIn[i].z);
    ParallelInvert(F, zs);
    points := [];
    for i := 0 to |basesIn|
      invariant |points| == i
      invariant forall b :: 0 <= b < |basesIn| ==> zs[b] == F.invert(basesIn[b].z)
      invariant forall b :: 0 <= b < i ==> points[b] == DoubleTimes(F, a, P, positions[b])
    {
      NormalizeCorrect(F, basesIn[i], DoubleTimes(F, a, P, positions[i]));
      points := points + [ToAffine(F, Normalize(F, basesIn[i].(z := zs[i])))];
    }
  }

  /** The cascade of one exponent. */
  function FinalCascade<T>(F: Field<T>, points: seq<Point<T>>, uses: seq<WindowUse>): (cascade: seq<BaseAndExponent<Point<T>>>)
    requires forall j :: 0 <= j < |uses| ==> uses[j].baseIndex < |points|
    ensures |cascade| == |uses|
  {
    seq(|uses|, j requires 0 <= j < |uses| =>
      var base := points[uses[j].baseIndex];
      BaseAndExponent(if uses[j].negate then PointInverse(F, base) else base, uses[j].window))
  }

  lemma {:induction false} FinalCascadeSum<T(!new)>(F: Field<T>, a: T, onCurve: Point<T> -> bool, P: Point<T>,
                                                    points: seq<Point<T>>, positions: seq<nat>, uses: seq<WindowUse>)
    requires IsGroup(CurveGroup(F, a, onCurve)) && onCurve(P)
    requires Refers(uses, |positions|) && |points| == |positions|
    requires forall b :: 0 <= b < |points| ==> points[b] == DoubleTimes(F, a, P, positions[b])
    ensures BasesIn(CurveGroup(F, a, onCurve), FinalCascade(F, points, uses))
    ensures CascadeSum(CurveGroup(F, a, onCurve), FinalCascade(F, points, uses))
         == Multiple(CurveGroup(F, a, onCurve), P, UseValue(uses, positions))
  {
    hide IsGroup, Multiple, Shl, Pow2, CascadeSum, DoubleTimes;
    var G := CurveGroup(F, a, onCurve);
    if |uses| == 0 {
      MultipleOne(G, P);
      EmptySum(G);
      assert FinalCascade(F, points, uses) == [];
    } else {
      var init, u := uses[..|uses| - 1], uses[|uses| - 1];
      FinalCascadeSum(F, a, onCurve, P, points, positions, init);
      var k := positions[u.baseIndex];
      DoubleTimesIsMultiple(F, a, onCurve, P, k);
      var last := FinalCascade(F, points, uses)[|uses| - 1];
      assert FinalCascade(F, points, uses) == FinalCascade(F, points, init) + [last];
      AppendTerm(G, FinalCascade(F, points, init), last);
      MultipleHas(G, P, Pow2(k));
      Closed(G, Multiple(G, P, Pow2(k)), Multiple(G, P, Pow2(k)));
      WindowTerm(G, P, u, k);
      MultipleAdd(G, P, UseValue(init, positions), Shl(SignedWindow(u), k));
    }
  }

  lemma WindowTerm<T(!new)>(G: Group<T>, P: T, u: WindowUse, k: nat)
    requires IsGroup(G) && G.has(P)
    ensures Multiple(G, if u.negate then G.inverse(Multiple(G, P, Pow2(k))) else Multiple(G, P, Pow2(k)), u.window)
         == Multiple(G, P, Shl(SignedWindow(u), k))
  {
    hide IsGroup, Multiple, Shl, Pow2;
    MultipleInverse(G, P, Pow2(k));
    ShlPow2(SignedWindow(u), k);
    if u.negate {
      MultipleMultiple(G, P, -(Pow2(k) as int), u.window);
      assert -(Pow2(k) as int) * u.window == -(u.window as int) * Pow2(k);
    } else {
      MultipleMultiple(G, P, Pow2(k), u.window);
      assert Pow2(k) * u.window == u.window * Pow2(k);
    }
  }

  /** The result for an exponent is its multiple of P.  A zero exponent has no
      window, and the empty cascade it leaves has no result (None). */
  method EcpSimultaneousMultiply<T(==, !new)>(F: Field<T>, a: T, onCurve: Point<T> -> bool, P: Point<T>, exps: seq<nat>)
    returns (results: seq<Option<Point<T>>>)
    requires IsField(F) && IsGroup(CurveGroup(F, a, onCurve)) && onCurve(P)
    ensures |results| == |exps|
    ensures forall i :: 0 <= i < |exps| ==>
      results[i] == if exps[i] == 0 then None else Some(Multiple(CurveGroup(F, a, onCurve), P, exps[i]))
  {
    hide IsField, IsGroup, Multiple, Shl, Pow2, UseValue, DoubleTimes, BasesRecorded;
    var rd := new ProjectiveDoubling(F, a, P);
    var sliders, uses := StartRecording(exps);
    var bases: seq<ProjectivePoint<T>> := [];
    ghost var positions: seq<nat> := [];
    ghost var top := MaxBitCount(exps);
    NoDoubling(F, a, P);
    var expBitPosition := 0;
    var notDone := true;
    while notDone
      invariant fresh(rd) && rd.F == F && rd.a == a && forall k :: 0 <= k < |sliders| ==> fresh(sliders[k])
      invariant rd.Valid(DoubleTimes(F, a, P, expBitPosition))
      invariant BasesRecorded(F, a, P, bases, positions)
      invariant notDone ==> Recording(exps, sliders, uses, positions, expBitPosition, top) && expBitPosition <= top
      invariant !notDone ==> Recording(exps, sliders, uses, positions, expBitPosition + 1, top) && AllFinished(sliders)
      decreases if notDone then top - expBitPosition + 1 else 0
    {
      uses, bases, positions, notDone := RecordPosition(rd, P, exps, sliders, uses, bases, positions, expBitPosition, top);
      if notDone {
        rd.Double(DoubleTimes(F, a, P, expBitPosition));
        NextDoubling(F, a, P, expBitPosition);
        expBitPosition := expBitPosition + 1;
      }
    }
    assert UsesComplete(exps, uses, positions);
    results := FinishCascades(F, a, onCurve, P, exps, uses, bases, positions);
  }

  ghost predicate UsesComplete(exps: seq<nat>, uses: seq<seq<WindowUse>>, positions: seq<nat>)
  {
    |uses| == |exps| && forall k :: 0 <= k < |exps| ==>
      && Refers(uses[k], |positions|)
      && UseValue(uses[k], positions) == exps[k]
      && (exps[k] == 0 ==> uses[k] == [])
  }

  lemma NoDoubling<T>(F: Field<T>, a: T, P: Point<T>)
    ensures DoubleTimes(F, a, P, 0) == P && BasesRecorded(F, a, P, [], [])
  {
  }

  lemma NextDoubling<T>(F: Field<T>, a: T, P: Point<T>, k: nat)
    ensures DoubleTimes(F, a, P, k + 1) == PointDouble(F, a, DoubleTimes(F, a, P, k))
  {
  }

  /** The part of SimultaneousMultiply after the scan. */
  method FinishCascades<T(==, !new)>(F: Field<T>, a: T, onCurve: Point<T> -> bool, P: Point<T>, exps: seq<nat>,
                                     uses: seq<seq<WindowUse>>, bases: seq<ProjectivePoint<T>>, ghost positions: seq<nat>)
    returns (results: seq<Option<Point<T>>>)
    requires IsField(F) && IsGroup(CurveGroup(F, a, onCurve)) && onCurve(P)
    requires BasesRecorded(F, a, P, bases, positions) && UsesComplete(exps, uses, positions)
    ensures |results| == |exps|
    ensures forall i :: 0 <= i < |exps| ==>
      results[i] == if exps[i] == 0 then None else Some(Multiple(CurveGroup(F, a, onCurve), P, exps[i]))
  {
    hide IsField, IsGroup, Multiple, UseValue, DoubleTimes, CascadeSum, FinalCascade;
    var points := MakeAffine(F, a, P, bases, positions);
    results := [];
    for i := 0 to |exps|
      invariant |results| == i
      invariant forall k :: 0 <= k < i ==>
        results[k] == if exps[k] == 0 then None else Some(Multiple(CurveGroup(F, a, onCurve), P, exps[k]))
    {
      FinalCascadeSum(F, a, onCurve, P, points, positions, uses[i]);
      EmptyIsZero(uses[i], positions);
      var finalCascade := FinalCascade(F, points, uses[i]);
      if |finalCascade| == 0 {
        results := results + [None];
      } else {
        var r := RunCascade(CurveGroup(F, a, onCurve), finalCascade, Infinity);
        results := results + [Some(r)];
      }
    }
  }

  lemma EmptyIsZero(uses: seq<WindowUse>, positions: seq<nat>)
    requires Refers(uses, |positions|)
    ensures |uses| == 0 ==> UseValue(uses, positions) == 0
  {
  }

  /** ECP::ScalarMultiply: short exponents go to the generic algorithm, which also
      takes care of zero. */
  method EcpScalarMultiply<T(==, !new)>(F: Field<T>, a: T, onCurve: Point<T> -> bool, P: Point<T>, k: nat) returns (result: Point<T>)
    requires IsField(F) && IsGroup(CurveGroup(F, a, onCurve)) && onCurve(P)
    ensures result == Multiple(CurveGroup(F, a, onCurve), P, k)
  {
    hide IsField, IsGroup, Multiple;
    if BitCount(k) <= 5 {
      result := ScalarMultiply(CurveGroup(F, a, onCurve), P, k);
    } else {
      var results := EcpSimultaneousMultiply(F, a, onCurve, P, [k]);
      assert results[0] == Some(Multiple(CurveGroup(F, a, onCurve), P, k));
      result := results[0].value;
    }
  }
}

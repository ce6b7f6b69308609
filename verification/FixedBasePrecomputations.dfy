/** DL_FixedBasePrecomputationImpl of eprecomp.cpp: multiples of a fixed base at
    every window position, and exponents cut into (possibly negated) digits. */
module FixedBasePrecomputations {
  import opened Bits
  import opened AbstractGroups
  import opened Heaps
  import opened ScalarMultiplication
  import opened GeneralCascades

  /** A group together with a change of representation. */
  datatype GroupPrecomputation<!T> = GroupPrecomputation(
    group: Group<T>,
    needConversions: bool,
    convertIn: T -> T,
    convertOut: T -> T)

  /** The first n entries: entry i is (2^w)^i times entry 0. */
  ghost predicate Scaled<T>(G: Group<T>, bases: seq<T>, w: nat, n: nat)
  {
    n <= |bases| && forall i :: 0 <= i < n ==> G.has(bases[i]) && bases[i] == Multiple(G, bases[0], Pow2(w * i))
  }

  lemma FirstScaled<T(!new)>(G: Group<T>, bases: seq<T>, w: nat)
    requires IsGroup(G) && |bases| > 0 && G.has(bases[0])
    ensures Scaled(G, bases, w, 1)
  {
    hide IsGroup, Multiple;
    MultipleOne(G, bases[0]);
    assert w * 0 == 0;
  }

  lemma NextScaled<T(!new)>(G: Group<T>, bases: seq<T>, w: nat, i: nat, next: T)
    requires IsGroup(G) && 1 <= i < |bases| && Scaled(G, bases, w, i)
    requires next == Multiple(G, bases[i - 1], Pow2(w))
    ensures Scaled(G, bases[i := next], w, i + 1)
  {
    hide IsGroup, Multiple, Pow2;
    var k := w * (i - 1);
    assert w * i == k + w;
    Pow2Add(k, w);
    MultipleMultiple(G, bases[0], Pow2(k), Pow2(w));
    MultipleHas(G, bases[0], Pow2(w * i));
  }

  lemma ScaledHas<T>(G: Group<T>, bases: seq<T>, w: nat, n: nat, i: nat)
    requires Scaled(G, bases, w, n) && i < n
    ensures G.has(bases[i]) && bases[i] == Multiple(G, bases[0], Pow2(w * i))
    ensures G.has(bases[0])
  {
  }

  lemma NoneScaled<T>(G: Group<T>, bases: seq<T>, w: nat)
    ensures Scaled(G, bases, w, 0)
  {
  }

  class FixedBasePrecomputation<T(!new, ==)> {
    var base: T
    var windowSize: nat
    var exponentBase: nat
    var bases: seq<T>
    const blank: T

    ghost predicate Valid(G: Group<T>)
      reads this
    {
      && (|bases| > 1 ==> windowSize >= 1 && exponentBase == Pow2(windowSize))
      && Scaled(G, bases, windowSize, |bases|)
    }

    constructor (blankIn: T)
      ensures bases == [] && forall G: Group<T> :: Valid(G)
    {
      base := blankIn;
      blank := blankIn;
      windowSize := 0;
      exponentBase := 0;
      bases := [];
    }

    method SetBase(gp: GroupPrecomputation<T>, i_base: T)
      requires IsGroup(gp.group) && Valid(gp.group)
      requires gp.group.has(if gp.needConversions then gp.convertIn(i_base) else i_base)
      modifies `base, `bases
      ensures Valid(gp.group) && |bases| > 0
      ensures bases[0] == if gp.needConversions then gp.convertIn(i_base) else i_base
      ensures |old(bases)| > 0 && old(bases)[0] == bases[0] ==> bases == old(bases)
      ensures GetBase(gp) == i_base
    {
      hide IsGroup, Multiple;
      base := if gp.needConversions then gp.convertIn(i_base) else i_base;
      if |bases| == 0 || base != bases[0] {
        bases := [base];
        FirstScaled(gp.group, bases, windowSize);
      }
      if gp.needConversions {
        base := i_base;
      }
    }

    function GetBase(gp: GroupPrecomputation<T>): T
      reads this
      requires |bases| > 0
    {
      if gp.needConversions then base else bases[0]
    }

    method Precompute(gp: GroupPrecomputation<T>, maxExpBits: nat, storage: nat)
      requires IsGroup(gp.group) && Valid(gp.group) && |bases| > 0 && storage <= maxExpBits
      modifies `windowSize, `exponentBase, `bases
      ensures Valid(gp.group) && |bases| == storage
      ensures storage > 0 ==> bases[0] == old(bases)[0]
      ensures storage > 1 ==> maxExpBits <= windowSize * storage < maxExpBits + storage
    {
      hide IsGroup, Multiple, Pow2, Scaled;
      ScaledHas(gp.group, bases, windowSize, |bases|, 0);
      ghost var first := bases[0];
      if storage > 1 {
        windowSize := (maxExpBits + storage - 1) / storage;
        RoundedUp(maxExpBits, storage);
        exponentBase := Pow2(windowSize);
      }
      bases := if storage <= |bases| then bases[..storage] else bases + seq(storage - |bases|, _ => blank);
      if storage > 0 {
        FirstScaled(gp.group, bases, windowSize);
      } else {
        NoneScaled(gp.group, bases, windowSize);
      }
      ghost var w := windowSize;
      var i := 1;
      while i < storage
        invariant |bases| == storage && windowSize == w && (storage > 1 ==> exponentBase == Pow2(w))
        invariant storage > 0 ==> 1 <= i <= storage && bases[0] == first && Scaled(gp.group, bases, windowSize, i)
        invariant storage == 0 ==> Scaled(gp.group, bases, windowSize, 0)
      {
        ScaledHas(gp.group, bases, windowSize, i, i - 1);
        var next := ScalarMultiply(gp.group, bases[i - 1], exponentBase);
        NextScaled(gp.group, bases, windowSize, i, next);
        bases := bases[i := next];
        i := i + 1;
      }
    }

    /** Appends one (base, digit) pair per stored base; together they stand for
        exponent * bases[0]. */
    method PrepareCascade(gp: GroupPrecomputation<T>, ebIn: seq<BaseAndExponent<T>>, exponent: nat)
      returns (eb: seq<BaseAndExponent<T>>)
      requires IsGroup(gp.group) && Valid(gp.group) && |bases| > 0
      ensures |eb| == |ebIn| + |bases| && eb[..|ebIn|] == ebIn
      ensures BasesIn(gp.group, eb[|ebIn|..])
      ensures CascadeSum(gp.group, eb[|ebIn|..]) == Multiple(gp.group, bases[0], exponent)
      ensures forall i :: |ebIn| <= i < |eb| - 1 ==> eb[i].exponent < exponentBase
    {
      hide IsGroup, Multiple, Shl, Shr, Low, Pow2, Bit, CascadeSum, Scaled;
      var G := gp.group;
      var e := exponent;
      var fastNegate := G.inversionIsFast && windowSize > 1;
      eb := ebIn;
      ghost var added: seq<BaseAndExponent<T>> := [];
      ghost var acc := 0;
      ScaledHas(G, bases, windowSize, |bases|, 0);
      MultipleOne(G, bases[0]);
      EmptySum(G);
      var i := 0;
      ShlZeroBits(e);
      while i + 1 < |bases|
        invariant 0 <= i < |bases| && eb == ebIn + added && |added| == i
        invariant BasesIn(G, added) && CascadeSum(G, added) == Multiple(G, bases[0], acc)
        invariant acc + Shl(e, windowSize * i) == exponent
        invariant forall k :: 0 <= k < i ==> added[k].exponent < exponentBase
      {
        var r, q := Low(e, windowSize), Shr(e, windowSize);
        ScaledHas(G, bases, windowSize, |bases|, i);
        ghost var scale := Pow2(windowSize * i);
        DigitStep(e, windowSize, i);
        MultipleInverse(G, bases[0], scale);
        Closed(G, bases[i], bases[i]);
        ghost var digit: int;
        e := q;
        var be;
        if fastNegate && Bit(r, windowSize - 1) == 1 {
          e := e + 1;
          HighBitSet(r, windowSize);
          be := BaseAndExponent(G.inverse(bases[i]), exponentBase - r);
          MultipleMultiple(G, bases[0], -(scale as int), exponentBase - r);
          digit := -(scale as int) * (exponentBase - r);
        } else {
          be := BaseAndExponent(bases[i], r);
          MultipleMultiple(G, bases[0], scale, r);
          digit := scale * r;
        }
        eb := eb + [be];
        AppendTerm(G, added, be);
        MultipleAdd(G, bases[0], acc, digit);
        added := added + [be];
        acc := acc + digit;
        i := i + 1;
      }
      ScaledHas(G, bases, windowSize, |bases|, i);
      ShlPow2(e, windowSize * i);
      MultipleMultiple(G, bases[0], Pow2(windowSize * i), e);
      AppendTerm(G, added, BaseAndExponent(bases[i], e));
      MultipleAdd(G, bases[0], acc, Pow2(windowSize * i) * e);
      eb := eb + [BaseAndExponent(bases[i], e)];
      assert eb[|ebIn|..] == added + [BaseAndExponent(bases[i], e)];
    }

    method Exponentiate(gp: GroupPrecomputation<T>, exponent: nat) returns (result: T)
      requires IsGroup(gp.group) && Valid(gp.group) && |bases| > 0
      ensures result == gp.convertOut(Multiple(gp.group, bases[0], exponent))
    {
      hide IsGroup, Multiple, CascadeSum, Valid;
      var eb := PrepareCascade(gp, [], exponent);
      assert eb[0..] == eb;
      var product := RunCascade(gp.group, eb, blank);
      result := gp.convertOut(product);
    }

    method CascadeExponentiate(gp: GroupPrecomputation<T>, exponent: nat, pc2: FixedBasePrecomputation<T>, exponent2: nat)
      returns (result: T)
      requires IsGroup(gp.group) && Valid(gp.group) && |bases| > 0
      requires pc2.Valid(gp.group) && |pc2.bases| > 0
      ensures result == gp.convertOut(gp.group.add(
        Multiple(gp.group, bases[0], exponent), Multiple(gp.group, pc2.bases[0], exponent2)))
    {
      hide IsGroup, Multiple, CascadeSum, Valid;
      var eb := PrepareCascade(gp, [], exponent);
      assert eb[0..] == eb;
      ghost var first := eb;
      eb := pc2.PrepareCascade(gp, eb, exponent2);
      assert eb == first + eb[|first|..];
      SumConcat(gp.group, first, eb[|first|..]);
      var product := RunCascade(gp.group, eb, blank);
      result := gp.convertOut(product);
    }
  }

  method RunCascade<T(!new)>(G: Group<T>, eb: seq<BaseAndExponent<T>>, blank: T) returns (result: T)
    requires IsGroup(G) && |eb| > 0 && BasesIn(G, eb)
    ensures result == CascadeSum(G, eb)
  {
    hide IsGroup, CascadeSum;
    var a := new BaseAndExponent<T>[|eb|](i requires 0 <= i < |eb| => eb[i]);
    assert a[..] == eb;
    result := GeneralCascadeMultiplication(G, a, blank);
  }

  lemma RoundedUp(n: nat, d: nat)
    requires d > 0
    ensures n <= ((n + d - 1) / d) * d < n + d
    ensures n >= d ==> (n + d - 1) / d >= 1
  {
    var q := (n + d - 1) / d;
    assert n + d - 1 == q * d + (n + d - 1) % d;
  }

  lemma ShlZeroBits(e: nat)
    ensures forall w: nat :: Shl(e, w * 0) == e
  {
  }

  /** Cutting a digit off e at position i, as it is or negated with a carry. */
  lemma DigitStep(e: nat, w: nat, i: nat)
    ensures Shl(e, w * i) == Pow2(w * i) * Low(e, w) + Shl(Shr(e, w), w * (i + 1))
    ensures Shl(e, w * i) == -(Pow2(w * i) as int) * (Pow2(w) - Low(e, w)) + Shl(Shr(e, w) + 1, w * (i + 1))
    ensures Low(e, w) < Pow2(w)
  {
    hide Shl, Shr, Low, Pow2;
    var q, r, s := Shr(e, w), Low(e, w), w * i;
    assert w * (i + 1) == s + w;
    SplitLow(e, w);
    ShlAdd(Shl(q, w), r, s);
    ShlShl(q, w, s);
    ShlPow2(r, s);
    ShlAdd(q, 1, s + w);
    ShlOne(s + w);
    Pow2Add(s, w);
    assert -(Pow2(s) as int) * (Pow2(w) - r) == Pow2(s) * r - Pow2(s) * Pow2(w);
  }

  /** A digit with its top bit set is positive, so its complement is a digit. */
  lemma HighBitSet(r: nat, w: nat)
    requires w > 1 && Bit(r, w - 1) == 1
    ensures r > 0
  {
    if r == 0 {
      ShrSmall(0, w - 1);
    }
  }

  lemma EmptySum<T(!new)>(G: Group<T>)
    ensures CascadeSum(G, []) == G.identity
  {
  }

  lemma AppendTerm<T(!new)>(G: Group<T>, s: seq<BaseAndExponent<T>>, be: BaseAndExponent<T>)
    ensures CascadeSum(G, s + [be]) == G.add(CascadeSum(G, s), Multiple(G, be.base, be.exponent))
  {
    assert (s + [be])[..|s + [be]| - 1] == s;
  }

  lemma SumConcat<T(!new)>(G: Group<T>, s: seq<BaseAndExponent<T>>, t: seq<BaseAndExponent<T>>)
    requires IsGroup(G) && BasesIn(G, s) && BasesIn(G, t)
    ensures CascadeSum(G, s + t) == G.add(CascadeSum(G, s), CascadeSum(G, t))
  {
    hide IsGroup;
    TermsIn(G, s);
    TermsIn(G, t);
    FoldConcat(G, Term(G), s, t);
  }
}

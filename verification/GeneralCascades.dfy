/** GeneralCascadeMultiplication of algebra.cpp: the sum of exponent * base over
    a list of pairs, by repeatedly replacing the largest exponent by its
    remainder modulo the next largest. */
module GeneralCascades {
  import opened Bits
  import opened AbstractGroups
  import opened Heaps
  import opened ScalarMultiplication
  import opened CascadeMultiplication

  /** The sum of f over a list, in a commutative group. */
  ghost function Fold<E, A>(G: Group<A>, f: E -> A, s: seq<E>): A
  {
    if |s| == 0 then G.identity else G.add(Fold(G, f, s[..|s| - 1]), f(s[|s| - 1]))
  }

  ghost predicate Into<E, A>(G: Group<A>, f: E -> A, s: seq<E>)
  {
    forall i :: 0 <= i < |s| ==> G.has(f(s[i]))
  }

  lemma {:induction false} FoldHas<E, A(!new)>(G: Group<A>, f: E -> A, s: seq<E>)
    requires IsGroup(G) && Into(G, f, s)
    ensures G.has(Fold(G, f, s))
  {
    hide IsGroup;
    if |s| > 0 {
      FoldHas(G, f, s[..|s| - 1]);
      Closed(G, Fold(G, f, s[..|s| - 1]), f(s[|s| - 1]));
    } else {
      HasIdentity(G);
    }
  }

  lemma HasIdentity<A(!new)>(G: Group<A>)
    requires IsGroup(G)
    ensures G.has(G.identity)
  {
  }

  lemma {:induction false} FoldConcat<E, A(!new)>(G: Group<A>, f: E -> A, s: seq<E>, t: seq<E>)
    requires IsGroup(G) && Into(G, f, s) && Into(G, f, t)
    ensures Fold(G, f, s + t) == G.add(Fold(G, f, s), Fold(G, f, t))
  {
    hide IsGroup;
    FoldHas(G, f, s);
    if |t| == 0 {
      assert s + t == s;
      Ident(G, Fold(G, f, s));
    } else {
      var t0 := t[..|t| - 1];
      assert (s + t)[..|s + t| - 1] == s + t0;
      FoldConcat(G, f, s, t0);
      FoldHas(G, f, t0);
      Assoc(G, Fold(G, f, s), Fold(G, f, t0), f(t[|t| - 1]));
    }
  }

  lemma FoldOne<E, A(!new)>(G: Group<A>, f: E -> A, e: E)
    requires IsGroup(G) && G.has(f(e))
    ensures Fold(G, f, [e]) == f(e)
  {
    assert [e][..0] == [];
    Ident(G, f(e));
  }

  lemma RemoveOne<E>(s: seq<E>, l: seq<E>, r: seq<E>, e: E)
    requires s == l + [e] + r
    ensures multiset(l + r) == multiset(s) - multiset{e}
  {
    assert multiset(s) == multiset(l) + multiset{e} + multiset(r);
  }

  lemma TakeOutLast<E>(s: seq<E>, t: seq<E>) returns (i: nat)
    requires |s| > 0 && multiset(s) == multiset(t)
    ensures i < |t| && t[i] == s[|s| - 1]
    ensures multiset(s[..|s| - 1]) == multiset(t[..i] + t[i + 1..])
  {
    var e, s0 := s[|s| - 1], s[..|s| - 1];
    assert s == s0 + [e];
    assert e in multiset(t);
    i :| 0 <= i < |t| && t[i] == e;
    assert t == t[..i] + [e] + t[i + 1..];
    assert s0 + [] == s0;
    RemoveOne(s, s0, [], e);
    RemoveOne(t, t[..i], t[i + 1..], e);
  }

  /** The order of the list does not matter. */
  lemma {:induction false} FoldRearranged<E, A(!new)>(G: Group<A>, f: E -> A, s: seq<E>, t: seq<E>)
    requires IsGroup(G) && Into(G, f, s) && multiset(s) == multiset(t)
    ensures Into(G, f, t) && Fold(G, f, s) == Fold(G, f, t)
    decreases |s|
  {
    hide IsGroup;
    SameLength(s, t);
    IntoRearranged(G, f, s, t);
    if |s| > 0 {
      var i := TakeOutLast(s, t);
      var e, s0, l, r := s[|s| - 1], s[..|s| - 1], t[..i], t[i + 1..];
      assert t == l + [e] + r;
      FoldRearranged(G, f, s0, l + r);
      FoldConcat(G, f, l, r);
      FoldConcat(G, f, l, [e]);
      FoldConcat(G, f, l + [e], r);
      FoldOne(G, f, e);
      var a, b, c := Fold(G, f, l), Fold(G, f, r), f(e);
      FoldHas(G, f, l);
      FoldHas(G, f, r);
      Assoc(G, a, b, c);
      Comm(G, b, c);
      Assoc(G, a, c, b);
    }
  }

  lemma SameLength<E>(s: seq<E>, t: seq<E>)
    requires multiset(s) == multiset(t)
    ensures |s| == |t|
  {
    assert |multiset(s)| == |s| && |multiset(t)| == |t|;
  }

  lemma IntoRearranged<E, A>(G: Group<A>, f: E -> A, s: seq<E>, t: seq<E>)
    requires Into(G, f, s) && multiset(s) == multiset(t)
    ensures Into(G, f, t)
  {
    forall i | 0 <= i < |t|
      ensures G.has(f(t[i]))
    {
      assert t[i] in multiset(s);
    }
  }

  /** Two outer elements may change as long as their sum does not. */
  lemma FoldOuter<E, A(!new)>(G: Group<A>, f: E -> A, s: seq<E>, x: E, y: E)
    requires IsGroup(G) && |s| >= 2 && Into(G, f, s) && G.has(f(x)) && G.has(f(y))
    requires G.add(f(x), f(y)) == G.add(f(s[0]), f(s[|s| - 1]))
    ensures Fold(G, f, s[0 := x][|s| - 1 := y]) == Fold(G, f, s)
  {
    hide IsGroup;
    var mid := s[1..|s| - 1];
    assert s == [s[0]] + mid + [s[|s| - 1]];
    assert s[0 := x][|s| - 1 := y] == [x] + mid + [y];
    FoldEnds(G, f, s[0], mid, s[|s| - 1]);
    FoldEnds(G, f, x, mid, y);
  }

  lemma FoldEnds<E, A(!new)>(G: Group<A>, f: E -> A, x: E, mid: seq<E>, y: E)
    requires IsGroup(G) && Into(G, f, mid) && G.has(f(x)) && G.has(f(y))
    ensures Fold(G, f, [x] + mid + [y]) == G.add(Fold(G, f, mid), G.add(f(x), f(y)))
  {
    hide IsGroup;
    FoldHas(G, f, mid);
    FoldConcat(G, f, [x], mid);
    FoldConcat(G, f, [x] + mid, [y]);
    FoldOne(G, f, x);
    FoldOne(G, f, y);
    Comm(G, f(x), Fold(G, f, mid));
    Assoc(G, Fold(G, f, mid), f(x), f(y));
  }

  // ---------------------------------------------------------------------

  ghost function Term<T>(G: Group<T>): BaseAndExponent<T> -> T
  {
    (be: BaseAndExponent<T>) => Multiple(G, be.base, be.exponent)
  }

  /** The value a cascade stands for: the sum of exponent * base. */
  ghost function CascadeSum<T>(G: Group<T>, s: seq<BaseAndExponent<T>>): T
  {
    Fold(G, Term(G), s)
  }

  ghost predicate BasesIn<T>(G: Group<T>, s: seq<BaseAndExponent<T>>)
  {
    forall i :: 0 <= i < |s| ==> G.has(s[i].base)
  }

  lemma TermsIn<T(!new)>(G: Group<T>, s: seq<BaseAndExponent<T>>)
    requires IsGroup(G) && BasesIn(G, s)
    ensures Into(G, Term(G), s)
  {
    hide IsGroup;
    forall i | 0 <= i < |s|
      ensures G.has(Term(G)(s[i]))
    {
      MultipleHas(G, s[i].base, s[i].exponent);
    }
  }

  // The integers under addition, for the sum of the exponents.
  ghost const Integers: Group<int> := Group((x: int) => true, 0, (x: int, y: int) => x + y, (x: int) => -x, false)

  lemma IntegersAreAGroup()
    ensures IsGroup(Integers)
  {
  }

  ghost function Exponent<T>(): BaseAndExponent<T> -> int
  {
    (be: BaseAndExponent<T>) => be.exponent
  }

  ghost function ExponentSum<T>(s: seq<BaseAndExponent<T>>): int
  {
    Fold(Integers, Exponent<T>(), s)
  }

  lemma {:induction false} ExponentSumBound<T>(s: seq<BaseAndExponent<T>>)
    ensures ExponentSum(s) >= 0
  {
    if |s| > 0 { ExponentSumBound(s[..|s| - 1]); }
  }

  lemma Rearrangement<T(!new)>(G: Group<T>, s: seq<BaseAndExponent<T>>, t: seq<BaseAndExponent<T>>)
    requires IsGroup(G) && BasesIn(G, s) && multiset(s) == multiset(t)
    ensures BasesIn(G, t) && CascadeSum(G, t) == CascadeSum(G, s) && ExponentSum(t) == ExponentSum(s)
  {
    hide IsGroup, Fold;
    TermsIn(G, s);
    FoldRearranged(G, Term(G), s, t);
    IntegersAreAGroup();
    IntegersHas(s);
    FoldRearranged(Integers, Exponent<T>(), s, t);
    SameLength(s, t);
    forall i | 0 <= i < |t|
      ensures G.has(t[i].base)
    {
      assert t[i] in multiset(s);
    }
  }

  lemma IntegersHas<T(!new)>(s: seq<BaseAndExponent<T>>)
    ensures Into(Integers, Exponent<T>(), s)
  {
  }

  /** One step on the outer elements: with last.exponent == q * first.exponent + r,
      adding q * last.base to the first base pays for lowering the last exponent to r. */
  lemma DivisionStep<T(!new)>(G: Group<T>, s: seq<BaseAndExponent<T>>, base: T, q: nat, r: nat)
    requires IsGroup(G) && |s| >= 2 && BasesIn(G, s)
    requires var first, last := s[0], s[|s| - 1];
             last.exponent == q * first.exponent + r
             && r < first.exponent <= last.exponent
             && base == G.add(first.base, Multiple(G, last.base, q))
    ensures var t := s[0 := BaseAndExponent(base, s[0].exponent)][|s| - 1 := BaseAndExponent(s[|s| - 1].base, r)];
            BasesIn(G, t) && CascadeSum(G, t) == CascadeSum(G, s) && ExponentSum(t) < ExponentSum(s)
  {
    hide IsGroup, Fold, Multiple;
    var first, last := s[0], s[|s| - 1];
    var x, y := BaseAndExponent(base, first.exponent), BaseAndExponent(last.base, r);
    MultipleHas(G, last.base, q);
    Closed(G, first.base, Multiple(G, last.base, q));
    TermsIn(G, s);
    TermsIn(G, [x, y]);
    assert Term(G)([x, y][0]) == Term(G)(x) && Term(G)([x, y][1]) == Term(G)(y);
    OuterTerms(G, first.base, first.exponent, last.base, q, r);
    FoldOuter(G, Term(G), s, x, y);
    IntegersAreAGroup();
    IntegersHas(s);
    var mid := s[1..|s| - 1];
    IntegersHas(mid);
    assert s == [first] + mid + [last];
    assert s[0 := x][|s| - 1 := y] == [x] + mid + [y];
    FoldEnds(Integers, Exponent<T>(), first, mid, last);
    FoldEnds(Integers, Exponent<T>(), x, mid, y);
  }

  lemma OuterTerms<T(!new)>(G: Group<T>, b: T, e: nat, l: T, q: nat, r: nat)
    requires IsGroup(G) && G.has(b) && G.has(l)
    ensures G.add(Multiple(G, G.add(b, Multiple(G, l, q)), e), Multiple(G, l, r))
         == G.add(Multiple(G, b, e), Multiple(G, l, q * e + r))
  {
    hide IsGroup;
    MultipleHas(G, l, q);
    MultipleHas(G, b, e);
    MultipleHas(G, l, q * e);
    MultipleHas(G, l, r);
    MultipleOfSum(G, b, Multiple(G, l, q), e);
    MultipleMultiple(G, l, q, e);
    Assoc(G, Multiple(G, b, e), Multiple(G, l, q * e), Multiple(G, l, r));
    MultipleAdd(G, l, q * e, r);
  }

  /** All but the last exponent are zero. */
  lemma {:induction false} OnlyLastLeft<T(!new)>(G: Group<T>, s: seq<BaseAndExponent<T>>)
    requires IsGroup(G) && |s| > 0 && BasesIn(G, s)
    requires forall i :: 0 <= i < |s| - 1 ==> s[i].exponent == 0
    ensures CascadeSum(G, s) == Multiple(G, s[|s| - 1].base, s[|s| - 1].exponent)
  {
    var init, last := s[..|s| - 1], s[|s| - 1];
    ZeroExponents(G, init);
    MultipleHas(G, last.base, last.exponent);
    Ident(G, Multiple(G, last.base, last.exponent));
  }

  lemma {:induction false} ZeroExponents<T(!new)>(G: Group<T>, s: seq<BaseAndExponent<T>>)
    requires IsGroup(G) && BasesIn(G, s) && forall i :: 0 <= i < |s| ==> s[i].exponent == 0
    ensures CascadeSum(G, s) == G.identity
  {
    if |s| > 0 {
      ZeroExponents(G, s[..|s| - 1]);
      MultipleOne(G, s[|s| - 1].base);
      Ident(G, G.identity);
    }
  }

  lemma SmallCascades<T(!new)>(G: Group<T>, s: seq<BaseAndExponent<T>>)
    requires IsGroup(G) && BasesIn(G, s)
    ensures |s| == 1 ==> CascadeSum(G, s) == Multiple(G, s[0].base, s[0].exponent)
    ensures |s| == 2 ==> CascadeSum(G, s) == Combination(G, s[0].base, s[0].exponent, s[1].base, s[1].exponent)
  {
    hide IsGroup;
    if |s| == 1 {
      OnlyLastLeft(G, s);
    } else if |s| == 2 {
      OnlyLastLeft(G, s[..1]);
    }
  }

  lemma Permuted<T>(s: seq<T>, t: seq<T>, n: nat)
    requires Rearranged(s, t, n)
    ensures multiset(s) == multiset(t)
  {
  }

  /** The loop of GeneralCascadeMultiplication: the last pair has the largest
      exponent, the others are a heap, and the total has not changed. */
  ghost predicate Cascading<T>(G: Group<T>, s: seq<BaseAndExponent<T>>, total: T)
  {
    && |s| >= 2 && BasesIn(G, s) && IsHeap(s, |s| - 1)
    && s[0].exponent <= s[|s| - 1].exponent
    && CascadeSum(G, s) == total
  }

  /** std::pop_heap on the whole range. */
  method PopToEnd<T(!new)>(G: Group<T>, a: array<BaseAndExponent<T>>)
    requires IsGroup(G) && a.Length >= 2 && BasesIn(G, a[..]) && IsHeap(a[..], a.Length)
    modifies a
    ensures Cascading(G, a[..], old(CascadeSum(G, a[..])))
    ensures ExponentSum(a[..]) == old(ExponentSum(a[..]))
  {
    hide IsGroup, Multiple, IsHeap, Rearranged, CascadeSum, ExponentSum, BasesIn;
    ghost var s := a[..];
    PopHeap(a, a.Length);
    Permuted(s, a[..], a.Length);
    Rearrangement(G, s, a[..]);
    MemberBelowRoot(s, a[..]);
  }

  lemma MemberBelowRoot<T>(s: seq<BaseAndExponent<T>>, t: seq<BaseAndExponent<T>>)
    requires |t| > 0 && IsHeap(s, |s|) && multiset(s) == multiset(t)
    ensures |s| == |t| && t[0].exponent <= s[0].exponent
  {
    SameLength(s, t);
    assert t[0] in multiset(s);
    var k :| 0 <= k < |s| && s[k] == t[0];
    RootIsLargest(s, |s|, k);
  }

  lemma FrontIsZero<T>(G: Group<T>, s: seq<BaseAndExponent<T>>, total: T)
    requires Cascading(G, s, total) && s[0].exponent == 0
    ensures forall i :: 0 <= i < |s| - 1 ==> s[i].exponent == 0
  {
    forall i | 0 <= i < |s| - 1
      ensures s[i].exponent == 0
    {
      RootIsLargest(s, |s| - 1, i);
    }
  }

  /** The loop body. */
  method ReduceLargest<T(!new)>(G: Group<T>, a: array<BaseAndExponent<T>>, ghost total: T)
    requires IsGroup(G) && Cascading(G, a[..], total) && a[0].exponent != 0
    modifies a
    ensures Cascading(G, a[..], total)
    ensures 0 <= ExponentSum(a[..]) < old(ExponentSum(a[..]))
  {
    hide IsGroup, Multiple, CascadeSum, ExponentSum;
    var n := a.Length;
    ghost var s := a[..];
    var t := a[n - 1].exponent;
    var q, r := t / a[0].exponent, t % a[0].exponent;
    QuotientPositive(t, a[0].exponent);
    MultipleOne(G, a[n - 1].base);
    var base;
    if q == 1 {
      base := G.add(a[0].base, a[n - 1].base);
    } else {
      var m := ScalarMultiply(G, a[n - 1].base, q);
      base := G.add(a[0].base, m);
    }
    DivisionStep(G, s, base, q, r);
    a[n - 1] := BaseAndExponent(a[n - 1].base, r);
    a[0] := BaseAndExponent(base, a[0].exponent);
    ghost var u := s[0 := BaseAndExponent(base, s[0].exponent)][n - 1 := BaseAndExponent(s[n - 1].base, r)];
    assert a[..] == u;
    HeapKept(s, u);
    PushAndPop(G, a);
    ExponentSumBound(a[..]);
  }

  method PushAndPop<T(!new)>(G: Group<T>, a: array<BaseAndExponent<T>>)
    requires IsGroup(G) && a.Length >= 2 && BasesIn(G, a[..]) && IsHeap(a[..], a.Length - 1)
    modifies a
    ensures Cascading(G, a[..], old(CascadeSum(G, a[..])))
    ensures ExponentSum(a[..]) == old(ExponentSum(a[..]))
  {
    hide IsGroup, Multiple, IsHeap, Rearranged, CascadeSum, ExponentSum, BasesIn;
    ghost var s := a[..];
    PushHeap(a, a.Length);
    Permuted(s, a[..], a.Length);
    Rearrangement(G, s, a[..]);
    PopToEnd(G, a);
  }

  lemma QuotientPositive(t: nat, d: nat)
    requires 0 < d
    ensures t == (t / d) * d + t % d && t / d >= 0 && 0 <= t % d < d
  {
  }

  lemma HeapKept<T>(s: seq<BaseAndExponent<T>>, t: seq<BaseAndExponent<T>>)
    requires |s| == |t| >= 2 && IsHeap(s, |s| - 1)
    requires forall i :: 0 <= i < |s| - 1 ==> s[i].exponent == t[i].exponent
    ensures IsHeap(t, |t| - 1)
  {
  }

  /** The cascade is reordered and overwritten in place, as the source does. */
  method GeneralCascadeMultiplication<T(!new)>(G: Group<T>, a: array<BaseAndExponent<T>>, blank: T) returns (result: T)
    requires IsGroup(G) && a.Length >= 1 && BasesIn(G, a[..])
    modifies a
    ensures result == old(CascadeSum(G, a[..]))
  {
    hide IsGroup, Multiple, IsHeap, Rearranged, CascadeSum, ExponentSum;
    var n := a.Length;
    SmallCascades(G, a[..]);
    if n == 1 {
      result := ScalarMultiply(G, a[0].base, a[0].exponent);
    } else if n == 2 {
      result := CascadeScalarMultiply(G, a[0].base, a[0].exponent, a[1].base, a[1].exponent, blank);
    } else {
      MakeHeap(a);
      Permuted(old(a[..]), a[..], n);
      Rearrangement(G, old(a[..]), a[..]);
      PopToEnd(G, a);
      while a[0].exponent != 0
        invariant Cascading(G, a[..], CascadeSum(G, old(a[..])))
        decreases ExponentSum(a[..])
      {
        ReduceLargest(G, a, CascadeSum(G, old(a[..])));
      }
      FrontIsZero(G, a[..], CascadeSum(G, old(a[..])));
      OnlyLastLeft(G, a[..]);
      result := ScalarMultiply(G, a[n - 1].base, a[n - 1].exponent);
    }
  }
}

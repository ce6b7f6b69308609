/** Fermat's little theorem, from the theorem that the order of a finite
    commutative group annihilates its elements. */
module FermatTheorem {
  import opened Bits
  import opened AbstractGroups
  import opened GeneralCascades
  import opened NumberTheory

  ghost predicate NoDuplicates<T>(s: seq<T>)
  {
    forall i, j :: 0 <= i < j < |s| ==> s[i] != s[j]
  }

  /** Every element of the group occurs exactly once. */
  ghost predicate Lists<T(!new)>(G: Group<T>, s: seq<T>)
  {
    NoDuplicates(s) && (forall i :: 0 <= i < |s| ==> G.has(s[i])) && forall x :: G.has(x) ==> x in s
  }

  /** Taking the last element of t out of s leaves the other elements of t in it. */
  lemma TakeOutOf<T>(s: seq<T>, t: seq<T>) returns (s0: seq<T>)
    requires NoDuplicates(s) && NoDuplicates(t) && |t| > 0
    requires forall i :: 0 <= i < |t| ==> t[i] in s
    ensures |s0| == |s| - 1 && NoDuplicates(s0)
    ensures forall i :: 0 <= i < |t| - 1 ==> t[i] in s0
    ensures t[|t| - 1] in s && multiset(s0) == multiset(s) - multiset{t[|t| - 1]}
  {
    var e := t[|t| - 1];
    var i :| 0 <= i < |s| && s[i] == e;
    s0 := s[..i] + s[i + 1..];
    forall k | 0 <= k < |t| - 1
      ensures t[k] in s0
    {
      var m :| 0 <= m < |s| && s[m] == t[k];
      assert s0[if m < i then m else m - 1] == t[k];
    }
    assert s == s[..i] + [e] + s[i + 1..];
    RemoveOne(s, s[..i], s[i + 1..], e);
  }

  lemma {:induction false} SameElements<T>(s: seq<T>, t: seq<T>)
    requires NoDuplicates(s) && NoDuplicates(t) && |s| == |t|
    requires forall i :: 0 <= i < |t| ==> t[i] in s
    ensures multiset(s) == multiset(t)
    decreases |s|
  {
    if |t| > 0 {
      var e, t0 := t[|t| - 1], t[..|t| - 1];
      var s0 := TakeOutOf(s, t);
      SameElements(s0, t0);
      assert t == t0 + [e];
      assert e in multiset(s);
      AddBack(multiset(s), e);
    }
  }

  lemma AddBack<T>(m: multiset<T>, e: T)
    requires e in m
    ensures (m - multiset{e}) + multiset{e} == m
  {
  }

  function Shifted<T>(G: Group<T>, s: seq<T>, g: T): (t: seq<T>)
    ensures |t| == |s|
  {
    seq(|s|, i requires 0 <= i < |s| => G.add(s[i], g))
  }

  lemma Cancel<T(!new)>(G: Group<T>, x: T, y: T, g: T)
    requires IsGroup(G) && G.has(x) && G.has(y) && G.has(g) && G.add(x, g) == G.add(y, g)
    ensures x == y
  {
    hide IsGroup;
    Ident(G, g);
    Ident(G, x);
    Ident(G, y);
    Assoc(G, x, g, G.inverse(g));
    Assoc(G, y, g, G.inverse(g));
  }

  lemma ShiftedLists<T(!new)>(G: Group<T>, s: seq<T>, g: T)
    requires IsGroup(G) && Lists(G, s) && G.has(g)
    ensures multiset(Shifted(G, s, g)) == multiset(s)
  {
    hide IsGroup;
    var t := Shifted(G, s, g);
    forall i, j | 0 <= i < j < |t|
      ensures t[i] != t[j]
    {
      if t[i] == t[j] { Cancel(G, s[i], s[j], g); }
    }
    forall i | 0 <= i < |t|
      ensures t[i] in s
    {
      Closed(G, s[i], g);
    }
    SameElements(s, t);
  }

  ghost function Self<T>(): T -> T { (x: T) => x }

  lemma {:induction false} ShiftedSum<T(!new)>(G: Group<T>, s: seq<T>, g: T)
    requires IsGroup(G) && Into(G, Self<T>(), s) && G.has(g)
    ensures Fold(G, Self<T>(), Shifted(G, s, g)) == G.add(Fold(G, Self<T>(), s), Multiple(G, g, |s|))
  {
    hide IsGroup;
    if |s| == 0 {
      HasIdentity(G);
      Ident(G, G.identity);
    } else {
      var init, last := s[..|s| - 1], s[|s| - 1];
      ShiftedSum(G, init, g);
      assert Shifted(G, s, g)[..|s| - 1] == Shifted(G, init, g);
      FoldHas(G, Self<T>(), init);
      MultipleHas(G, g, |init|);
      Exchange(G, Fold(G, Self<T>(), init), Multiple(G, g, |init|), last, g);
    }
  }

  lemma OrderAnnihilates<T(!new)>(G: Group<T>, s: seq<T>, g: T)
    requires IsGroup(G) && Lists(G, s) && G.has(g)
    ensures Multiple(G, g, |s|) == G.identity
  {
    hide IsGroup, Multiple, Fold;
    var f := Self<T>();
    assert Into(G, f, s);
    ShiftedLists(G, s, g);
    FoldRearranged(G, f, s, Shifted(G, s, g));
    ShiftedSum(G, s, g);
    var total, n := Fold(G, f, s), Multiple(G, g, |s|);
    FoldHas(G, f, s);
    MultipleHas(G, g, |s|);
    HasIdentity(G);
    Ident(G, total);
    Comm(G, total, n);
    Ident(G, n);
    Cancel(G, n, G.identity, total);
  }

  // ------------------------------------------------------------------

  ghost predicate IsInverse(a: int, x: int, p: int)
  {
    0 < x < p && (a * x) % p == 1
  }

  ghost function InverseMod(a: int, p: int): int
    requires p > 0
  {
    if exists x :: IsInverse(a, x, p) then
      var x :| IsInverse(a, x, p); x
    else 0
  }

  /** The non-zero residues modulo p under multiplication. */
  ghost function Residues(p: int): Group<int>
    requires p > 0
  {
    Group((a: int) => 0 < a < p, 1, (a: int, b: int) => (a * b) % p, (a: int) => InverseMod(a, p), false)
  }

  lemma NotDivisible(p: int, a: int)
    requires 0 < a < p
    ensures !Divides(p, a)
  {
    if Divides(p, a) { DivisorBound(p, a); }
  }

  lemma ResidueProduct(p: int, a: int, b: int)
    requires Prime(p) && 0 < a < p && 0 < b < p
    ensures 0 < (a * b) % p < p
    ensures IsInverse(a, InverseMod(a, p), p)
  {
    NotDivisible(p, a);
    NotDivisible(p, b);
    if (a * b) % p == 0 {
      DividesMod(p, a * b);
      EuclidLemma(p, a, b);
    }
    var x := InverseModPrime(a, p);
    CongSameMod(a * x, 1, p);
    ModSmall(1, p);
    assert IsInverse(a, x, p);
  }

  lemma ResiduesAreAGroup(p: int)
    requires Prime(p)
    ensures IsGroup(Residues(p))
  {
    var G := Residues(p);
    forall a, b
      ensures ClosedAt(G, a, b)
    {
      if G.has(a) && G.has(b) { ResidueProduct(p, a, b); }
    }
    forall a, b, c
      ensures AssociativeAt(G, a, b, c)
    {
      ModMul(a * b, c, p);
      ModMul(a, b * c, p);
      assert (a * b) * c == a * (b * c);
    }
    forall a
      ensures IdentityAndInverseAt(G, a)
    {
      if G.has(a) {
        ResidueProduct(p, a, a);
        ModSmall(a, p);
      }
    }
  }

  lemma {:induction false} ResiduePower(p: int, a: int, e: nat)
    requires Prime(p) && 0 < a < p
    ensures Multiple(Residues(p), a, e) == Pow(a, e) % p
  {
    if e == 0 {
      ModSmall(1, p);
    } else {
      ResiduePower(p, a, e - 1);
      ModMul(Pow(a, e - 1), a, p);
    }
  }

  lemma FermatLittle(p: int, a: int)
    requires Prime(p) && !Divides(p, a)
    ensures Cong(Pow(a, p - 1), 1, p)
  {
    var r := a % p;
    DividesMod(p, a);
    var G := Residues(p);
    ResiduesAreAGroup(p);
    var s := seq(p - 1, i => i + 1);
    forall x | G.has(x)
      ensures x in s
    {
      assert s[x - 1] == x;
    }
    assert Lists(G, s);
    OrderAnnihilates(G, s, r);
    ResiduePower(p, r, p - 1);
    ModSmall(1, p);
    CongSameMod(Pow(r, p - 1), 1, p);
    CongMod(a, p);
    CongPow(a, r, p - 1, p);
    CongTrans(Pow(a, p - 1), Pow(r, p - 1), 1, p);
  }
}

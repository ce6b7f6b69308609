/** AbstractGroup: an element type with Add, Inverse and Identity.  The virtual
    functions of the class are the function fields of the record; the laws are
    asked only of the elements that satisfy Has, so that the points of one curve
    can be the group inside the type of all coordinate pairs. */
module AbstractGroups {

  datatype Group<!T> = Group(
    has: T -> bool,
    identity: T,
    add: (T, T) -> T,
    inverse: T -> T,
    inversionIsFast: bool)
  {
    function Double(a: T): T { add(a, a) }
  }

  // One instance of each law.  Wrapping them keeps the quantified laws below
  // from being unfolded except where an instance is named.

  ghost predicate ClosedAt<T>(G: Group<T>, a: T, b: T)
  {
    G.has(a) && G.has(b) ==> G.has(G.add(a, b)) && G.has(G.inverse(a))
  }

  ghost predicate AssociativeAt<T>(G: Group<T>, a: T, b: T, c: T)
  {
    G.has(a) && G.has(b) && G.has(c) ==> G.add(G.add(a, b), c) == G.add(a, G.add(b, c))
  }

  ghost predicate CommutativeAt<T>(G: Group<T>, a: T, b: T)
  {
    G.has(a) && G.has(b) ==> G.add(a, b) == G.add(b, a)
  }

  ghost predicate IdentityAndInverseAt<T>(G: Group<T>, a: T)
  {
    G.has(a) ==> G.add(a, G.identity) == a && G.add(a, G.inverse(a)) == G.identity
  }

  ghost predicate IsGroup<T(!new)>(G: Group<T>)
  {
    && G.has(G.identity)
    && (forall a, b :: ClosedAt(G, a, b))
    && (forall a, b, c :: AssociativeAt(G, a, b, c))
    && (forall a, b :: CommutativeAt(G, a, b))
    && (forall a :: IdentityAndInverseAt(G, a))
  }

  lemma Closed<T(!new)>(G: Group<T>, a: T, b: T)
    requires IsGroup(G) && G.has(a) && G.has(b)
    ensures G.has(G.add(a, b)) && G.has(G.inverse(a))
  {
    assert ClosedAt(G, a, b);
  }

  lemma Assoc<T(!new)>(G: Group<T>, a: T, b: T, c: T)
    requires IsGroup(G) && G.has(a) && G.has(b) && G.has(c)
    ensures G.add(G.add(a, b), c) == G.add(a, G.add(b, c))
  {
    assert AssociativeAt(G, a, b, c);
  }

  lemma Comm<T(!new)>(G: Group<T>, a: T, b: T)
    requires IsGroup(G) && G.has(a) && G.has(b)
    ensures G.add(a, b) == G.add(b, a)
  {
    assert CommutativeAt(G, a, b);
  }

  lemma Ident<T(!new)>(G: Group<T>, a: T)
    requires IsGroup(G) && G.has(a)
    ensures G.has(G.inverse(a)) && G.has(G.identity)
    ensures G.add(a, G.identity) == a && G.add(a, G.inverse(a)) == G.identity
    ensures G.add(G.identity, a) == a
  {
    assert IdentityAndInverseAt(G, a);
    Closed(G, a, a);
    Comm(G, a, G.identity);
  }

  lemma Exchange<T(!new)>(G: Group<T>, a: T, b: T, c: T, d: T)
    requires IsGroup(G) && G.has(a) && G.has(b) && G.has(c) && G.has(d)
    ensures G.add(G.add(a, b), G.add(c, d)) == G.add(G.add(a, c), G.add(b, d))
  {
    Closed(G, c, d); Closed(G, b, d); Closed(G, b, c);
    Assoc(G, a, b, G.add(c, d));
    Assoc(G, b, c, d);
    Comm(G, b, c);
    Assoc(G, c, b, d);
    Assoc(G, a, c, G.add(b, d));
  }

  /** n * x by repeated Add (of x, or of its inverse for negative n): the
      definition every fast algorithm is compared with. */
  ghost function Multiple<T>(G: Group<T>, x: T, n: int): T
    decreases if n < 0 then -n else n
  {
    if n == 0 then G.identity
    else if n > 0 then G.add(Multiple(G, x, n - 1), x)
    else G.add(Multiple(G, x, n + 1), G.inverse(x))
  }

  lemma {:induction false} MultipleHas<T(!new)>(G: Group<T>, x: T, n: int)
    requires IsGroup(G) && G.has(x)
    ensures G.has(Multiple(G, x, n))
    decreases if n < 0 then -n else n
  {
    Ident(G, x);
    if n > 0 {
      MultipleHas(G, x, n - 1);
      Closed(G, Multiple(G, x, n - 1), x);
    } else if n < 0 {
      MultipleHas(G, x, n + 1);
      Closed(G, Multiple(G, x, n + 1), G.inverse(x));
    }
  }

  lemma MultipleSucc<T(!new)>(G: Group<T>, x: T, n: int)
    requires IsGroup(G) && G.has(x)
    ensures Multiple(G, x, n + 1) == G.add(Multiple(G, x, n), x)
    ensures Multiple(G, x, n - 1) == G.add(Multiple(G, x, n), G.inverse(x))
  {
    Ident(G, x);
    var xi := G.inverse(x);
    Comm(G, x, xi);
    if n < 0 {
      var m := Multiple(G, x, n + 1);
      MultipleHas(G, x, n + 1);
      assert Multiple(G, x, n) == G.add(m, xi);
      Assoc(G, m, xi, x);
      Ident(G, m);
    } else if n > 0 {
      var m := Multiple(G, x, n - 1);
      MultipleHas(G, x, n - 1);
      assert Multiple(G, x, n) == G.add(m, x);
      Assoc(G, m, x, xi);
      Ident(G, m);
    }
  }

  lemma {:induction false} MultipleAdd<T(!new)>(G: Group<T>, x: T, m: int, n: int)
    requires IsGroup(G) && G.has(x)
    ensures G.add(Multiple(G, x, m), Multiple(G, x, n)) == Multiple(G, x, m + n)
    decreases if n < 0 then -n else n
  {
    Ident(G, x);
    MultipleHas(G, x, m);
    Ident(G, Multiple(G, x, m));
    if n != 0 {
      var k, y := if n > 0 then n - 1 else n + 1, if n > 0 then x else G.inverse(x);
      MultipleHas(G, x, k);
      MultipleAdd(G, x, m, k);
      Assoc(G, Multiple(G, x, m), Multiple(G, x, k), y);
      MultipleSucc(G, x, m + k);
    }
  }

  lemma MultipleOne<T(!new)>(G: Group<T>, x: T)
    requires IsGroup(G) && G.has(x)
    ensures Multiple(G, x, 1) == x && Multiple(G, x, 0) == G.identity
  {
    Ident(G, x);
    assert Multiple(G, x, 0) == G.identity;
  }

  lemma MultipleDouble<T(!new)>(G: Group<T>, x: T, n: int)
    requires IsGroup(G) && G.has(x)
    ensures G.Double(Multiple(G, x, n)) == Multiple(G, x, 2 * n)
  {
    MultipleAdd(G, x, n, n);
  }

  lemma MultipleInverse<T(!new)>(G: Group<T>, x: T, n: int)
    requires IsGroup(G) && G.has(x)
    ensures G.inverse(Multiple(G, x, n)) == Multiple(G, x, -n)
  {
    var a, b := Multiple(G, x, n), Multiple(G, x, -n);
    MultipleHas(G, x, n);
    MultipleHas(G, x, -n);
    Ident(G, a);
    Ident(G, b);
    Ident(G, G.inverse(a));
    MultipleAdd(G, x, -n, n);
    Assoc(G, b, a, G.inverse(a));
  }

  lemma {:induction false} MultipleMultiple<T(!new)>(G: Group<T>, x: T, m: int, n: nat)
    requires IsGroup(G) && G.has(x)
    ensures Multiple(G, Multiple(G, x, m), n) == Multiple(G, x, m * n)
  {
    if n > 0 {
      MultipleMultiple(G, x, m, n - 1);
      MultipleAdd(G, x, m * (n - 1), m);
      assert m * n == m * (n - 1) + m;
    } else {
      assert m * n == 0;
    }
  }

  lemma {:induction false} MultipleOfSum<T(!new)>(G: Group<T>, x: T, y: T, n: nat)
    requires IsGroup(G) && G.has(x) && G.has(y)
    ensures Multiple(G, G.add(x, y), n) == G.add(Multiple(G, x, n), Multiple(G, y, n))
  {
    Ident(G, x);
    Ident(G, G.identity);
    if n > 0 {
      MultipleOfSum(G, x, y, n - 1);
      MultipleHas(G, x, n - 1);
      MultipleHas(G, y, n - 1);
      Exchange(G, Multiple(G, x, n - 1), Multiple(G, y, n - 1), x, y);
    }
  }

  /** a * x + b * y. */
  ghost function Combination<T>(G: Group<T>, x: T, a: int, y: T, b: int): T
  {
    G.add(Multiple(G, x, a), Multiple(G, y, b))
  }

  lemma CombinationTerms<T(!new)>(G: Group<T>, x: T, a: int, y: T, b: int)
    ensures Combination(G, x, a, y, b) == G.add(Multiple(G, x, a), Multiple(G, y, b))
  {
  }

  lemma CombinationAdd<T(!new)>(G: Group<T>, x: T, a: int, c: int, y: T, b: int, d: int)
    requires IsGroup(G) && G.has(x) && G.has(y)
    ensures G.add(Combination(G, x, a, y, b), Combination(G, x, c, y, d)) == Combination(G, x, a + c, y, b + d)
  {
    MultipleHas(G, x, a); MultipleHas(G, x, c); MultipleHas(G, y, b); MultipleHas(G, y, d);
    Exchange(G, Multiple(G, x, a), Multiple(G, y, b), Multiple(G, x, c), Multiple(G, y, d));
    MultipleAdd(G, x, a, c);
    MultipleAdd(G, y, b, d);
  }

  lemma CombinationUnits<T(!new)>(G: Group<T>, x: T, y: T)
    requires IsGroup(G) && G.has(x) && G.has(y)
    ensures Combination(G, x, 1, y, 0) == x && Combination(G, x, 0, y, 1) == y
    ensures Combination(G, x, 1, y, 1) == G.add(x, y)
    ensures Combination(G, x, 0, y, 0) == G.identity
  {
    MultipleOne(G, x); MultipleOne(G, y);
    Ident(G, x); Ident(G, y); Ident(G, G.identity);
  }
}

/** The field operations ECP takes from ModularArithmetic, over any field of odd
    characteristic in which the inverse of zero is zero. */
module Fields {
  import opened AbstractGroups

  datatype Field<!T> = Field(
    zero: T,
    one: T,
    add: (T, T) -> T,
    negate: T -> T,
    mul: (T, T) -> T,
    invert: T -> T)
  {
    function Sub(a: T, b: T): T { add(a, negate(b)) }
    function Square(a: T): T { mul(a, a) }
    function Double(a: T): T { add(a, a) }
    function Divide(a: T, b: T): T { mul(a, invert(b)) }
    function Half(a: T): T { mul(a, invert(add(one, one))) }

    function Additive(): Group<T> {
      Group((a: T) => true, zero, add, negate, false)
    }
  }

  ghost predicate MulAssociativeAt<T>(F: Field<T>, a: T, b: T, c: T)
  {
    F.mul(F.mul(a, b), c) == F.mul(a, F.mul(b, c))
  }

  ghost predicate MulCommutativeAt<T>(F: Field<T>, a: T, b: T)
  {
    F.mul(a, b) == F.mul(b, a)
  }

  ghost predicate DistributiveAt<T>(F: Field<T>, a: T, b: T, c: T)
  {
    F.mul(F.add(a, b), c) == F.add(F.mul(a, c), F.mul(b, c))
  }

  ghost predicate OneAndInverseAt<T>(F: Field<T>, a: T)
  {
    F.mul(a, F.one) == a && (a != F.zero ==> F.mul(a, F.invert(a)) == F.one)
  }

  ghost predicate IsField<T(!new)>(F: Field<T>)
  {
    && IsGroup(F.Additive())
    && F.one != F.zero && F.add(F.one, F.one) != F.zero
    && F.invert(F.zero) == F.zero
    && (forall a, b, c :: MulAssociativeAt(F, a, b, c))
    && (forall a, b :: MulCommutativeAt(F, a, b))
    && (forall a, b, c :: DistributiveAt(F, a, b, c))
    && (forall a :: OneAndInverseAt(F, a))
  }

  lemma AddLaws<T(!new)>(F: Field<T>, a: T, b: T, c: T)
    requires IsField(F)
    ensures F.add(F.add(a, b), c) == F.add(a, F.add(b, c)) && F.add(a, b) == F.add(b, a)
    ensures F.add(a, F.zero) == a && F.add(F.zero, a) == a
    ensures F.add(a, F.negate(a)) == F.zero
  {
    var G := F.Additive();
    Assoc(G, a, b, c);
    Comm(G, a, b);
    Ident(G, a);
  }

  lemma MulAssoc<T(!new)>(F: Field<T>, a: T, b: T, c: T)
    requires IsField(F)
    ensures F.mul(F.mul(a, b), c) == F.mul(a, F.mul(b, c))
  {
    assert MulAssociativeAt(F, a, b, c);
  }

  lemma MulComm<T(!new)>(F: Field<T>, a: T, b: T)
    requires IsField(F)
    ensures F.mul(a, b) == F.mul(b, a)
  {
    assert MulCommutativeAt(F, a, b);
  }

  lemma Distrib<T(!new)>(F: Field<T>, a: T, b: T, c: T)
    requires IsField(F)
    ensures F.mul(F.add(a, b), c) == F.add(F.mul(a, c), F.mul(b, c))
  {
    assert DistributiveAt(F, a, b, c);
  }

  lemma Units<T(!new)>(F: Field<T>, a: T)
    requires IsField(F)
    ensures F.mul(a, F.one) == a && F.mul(F.one, a) == a
    ensures a != F.zero ==> F.mul(a, F.invert(a)) == F.one
    ensures F.one != F.zero && F.add(F.one, F.one) != F.zero && F.invert(F.zero) == F.zero
  {
    assert OneAndInverseAt(F, a);
    MulComm(F, a, F.one);
  }

  lemma MulExchange<T(!new)>(F: Field<T>, a: T, b: T, c: T, d: T)
    requires IsField(F)
    ensures F.mul(F.mul(a, b), F.mul(c, d)) == F.mul(F.mul(a, c), F.mul(b, d))
  {
    hide IsField;
    MulAssoc(F, a, b, F.mul(c, d));
    MulAssoc(F, b, c, d);
    MulComm(F, b, c);
    MulAssoc(F, c, b, d);
    MulAssoc(F, a, c, F.mul(b, d));
  }

  /** a (b c) == b (a c) */
  lemma MulSwap<T(!new)>(F: Field<T>, a: T, b: T, c: T)
    requires IsField(F)
    ensures F.mul(a, F.mul(b, c)) == F.mul(b, F.mul(a, c))
  {
    hide IsField;
    MulAssoc(F, a, b, c);
    MulComm(F, a, b);
    MulAssoc(F, b, a, c);
  }

  lemma MulZero<T(!new)>(F: Field<T>, a: T)
    requires IsField(F)
    ensures F.mul(F.zero, a) == F.zero && F.mul(a, F.zero) == F.zero
  {
    hide IsField;
    var z := F.mul(F.zero, a);
    AddLaws(F, F.zero, F.zero, F.zero);
    Distrib(F, F.zero, F.zero, a);
    AddLaws(F, z, z, F.negate(z));
    MulComm(F, F.zero, a);
  }

  lemma NonZeroProduct<T(!new)>(F: Field<T>, a: T, b: T)
    requires IsField(F)
    ensures F.mul(a, b) == F.zero <==> a == F.zero || b == F.zero
  {
    hide IsField;
    MulZero(F, a);
    MulZero(F, b);
    if F.mul(a, b) == F.zero && a != F.zero {
      Units(F, a);
      Units(F, b);
      MulZero(F, F.invert(a));
      MulComm(F, a, F.invert(a));
      MulAssoc(F, F.invert(a), a, b);
    }
  }

  /** An element that multiplies a non-zero a to one is its inverse. */
  lemma InverseUnique<T(!new)>(F: Field<T>, a: T, b: T)
    requires IsField(F) && F.mul(a, b) == F.one
    ensures b == F.invert(a) && a != F.zero
  {
    hide IsField;
    MulZero(F, b);
    Units(F, F.one);
    Units(F, a);
    Units(F, b);
    Units(F, F.invert(a));
    MulComm(F, b, a);
    MulAssoc(F, b, a, F.invert(a));
  }

  lemma InverseNonZero<T(!new)>(F: Field<T>, a: T)
    requires IsField(F)
    ensures F.invert(a) == F.zero <==> a == F.zero
  {
    hide IsField;
    Units(F, a);
    MulZero(F, a);
  }

  lemma DistribSub<T(!new)>(F: Field<T>, a: T, b: T, c: T)
    requires IsField(F)
    ensures F.mul(F.Sub(a, b), c) == F.Sub(F.mul(a, c), F.mul(b, c))
  {
    hide IsField;
    Distrib(F, a, F.negate(b), c);
    NegateProduct(F, b, c);
  }

  lemma NegateProduct<T(!new)>(F: Field<T>, b: T, c: T)
    requires IsField(F)
    ensures F.mul(F.negate(b), c) == F.negate(F.mul(b, c))
  {
    hide IsField;
    var p, m := F.mul(b, c), F.mul(F.negate(b), c);
    Distrib(F, b, F.negate(b), c);
    AddLaws(F, b, b, b);
    MulZero(F, c);
    AddLaws(F, p, m, F.negate(p));
    AddLaws(F, m, p, F.negate(p));
    AddLaws(F, F.negate(p), p, p);
  }

  lemma DoubleNonZero<T(!new)>(F: Field<T>, a: T)
    requires IsField(F)
    ensures F.Double(a) == F.zero <==> a == F.zero
  {
    hide IsField;
    Units(F, a);
    Distrib(F, F.one, F.one, a);
    NonZeroProduct(F, F.add(F.one, F.one), a);
  }

  lemma HalfOfDouble<T(!new)>(F: Field<T>, a: T)
    requires IsField(F)
    ensures F.Half(F.Double(a)) == a
  {
    hide IsField;
    var two := F.add(F.one, F.one);
    Units(F, a);
    Units(F, two);
    Distrib(F, F.one, F.one, a);
    MulComm(F, two, a);
    MulAssoc(F, a, two, F.invert(two));
  }

  lemma DivideBack<T(!new)>(F: Field<T>, a: T, b: T)
    requires IsField(F) && b != F.zero
    ensures F.mul(F.Divide(a, b), b) == a
  {
    hide IsField;
    Units(F, a);
    Units(F, b);
    MulComm(F, b, F.invert(b));
    MulAssoc(F, a, F.invert(b), b);
  }
}

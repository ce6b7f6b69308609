/** ECP of ecp.cpp: affine addition and doubling, inversion-free projective
    doubling, batch inversion, and the conversion back to affine points. */
module EllipticCurves {
  import opened AbstractGroups
  import opened Fields

  datatype Point<T> = Infinity | Affine(x: T, y: T)

  function PointInverse<T>(F: Field<T>, P: Point<T>): Point<T>
  {
    match P
    case Infinity => Infinity
    case Affine(x, y) => Affine(x, F.negate(y))
  }

  function PointDouble<T(==)>(F: Field<T>, a: T, P: Point<T>): Point<T>
  {
    match P
    case Infinity => Infinity
    case Affine(px, py) =>
      if py == F.zero then Infinity
      else
        var t := F.Square(px);
        var t := F.add(F.add(F.Double(t), t), a);
        var t := F.Divide(t, F.Double(py));
        var x := F.Sub(F.Sub(F.Square(t), px), px);
        Affine(x, F.Sub(F.mul(t, F.Sub(px, x)), py))
  }

  function PointAdd<T(==)>(F: Field<T>, a: T, P: Point<T>, Q: Point<T>): Point<T>
  {
    if P.Infinity? then Q
    else if Q.Infinity? then P
    else if P.x == Q.x then (if P.y == Q.y then PointDouble(F, a, P) else Infinity)
    else
      var t := F.Sub(Q.y, P.y);
      var t := F.Divide(t, F.Sub(Q.x, P.x));
      var x := F.Sub(F.Sub(F.Square(t), P.x), Q.x);
      Affine(x, F.Sub(F.mul(t, F.Sub(P.x, x)), P.y))
  }

  /** k affine doublings. */
  ghost function DoubleTimes<T>(F: Field<T>, a: T, P: Point<T>, k: nat): Point<T>
  {
    if k == 0 then P else PointDouble(F, a, DoubleTimes(F, a, P, k - 1))
  }

  datatype ProjectivePoint<T> = ProjectivePoint(x: T, y: T, z: T)

  /** R stands for the affine point P: z is zero exactly for the identity, and
      otherwise x and y carry the factors z^2 and z^3. */
  ghost predicate Represents<T>(F: Field<T>, R: ProjectivePoint<T>, P: Point<T>)
  {
    match P
    case Infinity => R.z == F.zero
    case Affine(x, y) =>
      && R.z != F.zero
      && R.x == F.mul(x, Square(F, R))
      && R.y == F.mul(y, Cube(F, R))
  }

  ghost function Square<T>(F: Field<T>, R: ProjectivePoint<T>): T { F.mul(R.z, R.z) }

  ghost function Cube<T>(F: Field<T>, R: ProjectivePoint<T>): T { F.mul(Square(F, R), R.z) }

  ghost function Fourth<T>(F: Field<T>, R: ProjectivePoint<T>): T { F.mul(Square(F, R), Square(F, R)) }

  /** The projective doubling formulas without their temporaries. */
  ghost function DoubledM<T>(F: Field<T>, R: ProjectivePoint<T>, aZ4: T): T
  {
    F.add(F.add(F.Double(F.Square(R.x)), F.Square(R.x)), aZ4)
  }

  // Steps of the doubling proof.  w is twoY, q is the new z squared.

  /** The new z and its square in terms of the old point. */
  lemma NewZ<T(!new)>(F: Field<T>, z: T, w: T, x: T)
    requires IsField(F)
    ensures var z' := F.mul(z, w); F.mul(F.mul(w, w), F.mul(x, F.mul(z, z))) == F.mul(x, F.mul(z', z'))
  {
    hide IsField;
    MulSwap(F, F.mul(w, w), x, F.mul(z, z));
    MulExchange(F, w, w, z, z);
    MulComm(F, w, z);
  }

  /** M == t * z' when t is the affine slope. */
  lemma SlopeTimesZ<T(!new)>(F: Field<T>, a: T, x: T, y: T, z: T, t: T)
    requires IsField(F)
    requires F.mul(t, F.Double(y)) == F.add(F.add(F.Double(F.Square(x)), F.Square(x)), a)
    ensures var R := ProjectivePoint(F.mul(x, F.mul(z, z)), F.mul(y, F.mul(F.mul(z, z), z)), z);
            DoubledM(F, R, F.mul(a, Fourth(F, R))) == F.mul(t, F.mul(z, F.Double(R.y)))
  {
    hide IsField;
    var z2 := F.mul(z, z);
    var z3, z4 := F.mul(z2, z), F.mul(z2, z2);
    var s, d := F.Square(x), F.Double(y);
    MulExchange(F, x, z2, x, z2);
    Distrib(F, s, s, z4);
    Distrib(F, F.Double(s), s, z4);
    Distrib(F, F.add(F.Double(s), s), a, z4);
    // z (2 y z3) == (2 y) z4
    Distrib(F, y, y, z3);
    MulSwap(F, z, d, z3);
    MulComm(F, z, z3);
    MulAssoc(F, z2, z, z);
    MulAssoc(F, t, d, z4);
  }

  /** y' z'^3 twice is the square of fourY2. */
  lemma SixteenY4<T(!new)>(F: Field<T>, y: T, z: T)
    requires IsField(F)
    ensures var w := F.Double(F.mul(y, F.mul(F.mul(z, z), z)));
            var z' := F.mul(z, w);
            F.Double(F.mul(y, F.mul(F.mul(z', z'), z'))) == F.Square(F.mul(w, w))
  {
    hide IsField;
    var z2 := F.mul(z, z);
    var z3 := F.mul(z2, z);
    var w := F.Double(F.mul(y, z3));
    var z' := F.mul(z, w);
    var d, w2 := F.Double(y), F.mul(w, w);
    var q := F.mul(z', z');
    var c := F.mul(q, z');
    Distrib(F, y, y, c);
    Distrib(F, y, y, z3);
    MulExchange(F, z, w, z, w);
    MulExchange(F, z2, w2, z, w);
    MulAssoc(F, d, z3, F.mul(w2, w));
    MulSwap(F, w, w2, w);
  }

  /** aZ4 * sixteenY4 stays a * z^4. */
  lemma CachedProduct<T(!new)>(F: Field<T>, a: T, z: T, w: T)
    requires IsField(F)
    ensures var z2, z2' := F.mul(z, z), F.mul(F.mul(z, w), F.mul(z, w));
            F.mul(F.mul(a, F.mul(z2, z2)), F.Square(F.mul(w, w))) == F.mul(a, F.mul(z2', z2'))
  {
    hide IsField;
    var z2, w2 := F.mul(z, z), F.mul(w, w);
    MulAssoc(F, a, F.mul(z2, z2), F.mul(w2, w2));
    MulExchange(F, z2, z2, w2, w2);
    MulExchange(F, z, z, w, w);
  }

  /** The new point represents the affine double of a finite point with y != 0. */
  lemma FiniteDouble<T(!new)>(F: Field<T>, a: T, x: T, y: T, R: ProjectivePoint<T>, R': ProjectivePoint<T>)
    requires IsField(F) && y != F.zero && Represents(F, R, Affine(x, y))
    requires var w := F.Double(R.y);
             var M := DoubledM(F, R, F.mul(a, Fourth(F, R)));
             var S := F.mul(F.Square(w), R.x);
             && R'.z == F.mul(R.z, w)
             && R'.x == F.Sub(F.Sub(F.Square(M), S), S)
             && R'.y == F.Sub(F.mul(M, F.Sub(S, R'.x)), F.Half(F.Square(F.Square(w))))
    ensures Represents(F, R', PointDouble(F, a, Affine(x, y)))
  {
    hide IsField;
    var w, z, z' := F.Double(R.y), R.z, R'.z;
    var d := F.Double(y);
    DoubleNonZero(F, y);
    DoubleNonZero(F, R.y);
    NonZeroProduct(F, z, z);
    NonZeroProduct(F, F.mul(z, z), z);
    NonZeroProduct(F, y, Cube(F, R));
    NonZeroProduct(F, z, w);
    var N := F.add(F.add(F.Double(F.Square(x)), F.Square(x)), a);
    var t := F.Divide(N, d);
    DivideBack(F, N, d);
    SlopeTimesZ(F, a, x, y, z, t);
    NewZ(F, z, w, x);
    var q := F.mul(z', z');
    var M, S := F.mul(t, z'), F.mul(x, q);
    var x' := F.Sub(F.Sub(F.Square(t), x), x);
    MulExchange(F, t, z', t, z');
    DistribSub(F, F.Square(t), x, q);
    DistribSub(F, F.Sub(F.Square(t), x), x, q);
    assert R'.x == F.mul(x', q);
    DistribSub(F, x, x', q);
    var u := F.Sub(x, x');
    MulExchange(F, t, z', u, q);
    MulComm(F, z', q);
    SixteenY4(F, y, z);
    HalfOfDouble(F, F.mul(y, F.mul(q, z')));
    DistribSub(F, F.mul(t, u), y, F.mul(q, z'));
  }

  /** When y is zero, or the point is the identity, the new z is zero. */
  lemma VanishingDouble<T(!new)>(F: Field<T>, a: T, P: Point<T>, R: ProjectivePoint<T>, z': T)
    requires IsField(F) && Represents(F, R, P) && (P.Affine? ==> P.y == F.zero)
    requires z' == F.mul(R.z, F.Double(R.y))
    ensures z' == F.zero && PointDouble(F, a, P) == Infinity
  {
    hide IsField;
    if P.Affine? {
      MulZero(F, Cube(F, R));
      DoubleNonZero(F, R.y);
    }
    NonZeroProduct(F, R.z, F.Double(R.y));
  }

  class ProjectiveDoubling<T(==, !new)> {
    const F: Field<T>
    const a: T
    var P: ProjectivePoint<T>
    var sixteenY4: T
    var aZ4: T
    var twoY: T
    var fourY2: T
    var S: T
    var M: T

    /** P represents the affine point Q, and the cached product is a * z^4. */
    ghost predicate Valid(Q: Point<T>)
      reads this
    {
      Represents(F, P, Q) && F.mul(aZ4, sixteenY4) == F.mul(a, Fourth(F, P))
    }

    constructor (FIn: Field<T>, aIn: T, Q: Point<T>)
      requires IsField(FIn)
      ensures Valid(Q) && F == FIn && a == aIn
    {
      F := FIn;
      a := aIn;
      match Q {
        case Infinity =>
          sixteenY4 := FIn.one;
          P := ProjectivePoint(FIn.one, FIn.one, FIn.zero);
          aZ4 := FIn.zero;
        case Affine(x, y) =>
          sixteenY4 := FIn.one;
          P := ProjectivePoint(x, y, FIn.one);
          aZ4 := aIn;
      }
      twoY, fourY2, S, M := FIn.zero, FIn.zero, FIn.zero, FIn.zero;
      new;
      hide IsField;
      Units(F, F.one);
      Units(F, a);
      MulZero(F, F.zero);
      MulZero(F, F.one);
      MulZero(F, a);
      if Q.Affine? {
        Units(F, Q.x);
        Units(F, Q.y);
      }
    }

    method Double(ghost Q: Point<T>)
      requires IsField(F) && Valid(Q)
      modifies this
      ensures Valid(PointDouble(F, a, Q))
    {
      hide IsField;
      ghost var R := P;
      twoY := F.Double(P.y);
      P := P.(z := F.mul(P.z, twoY));
      fourY2 := F.Square(twoY);
      S := F.mul(fourY2, P.x);
      aZ4 := F.mul(aZ4, sixteenY4);
      M := F.Square(P.x);
      M := F.add(F.add(F.Double(M), M), aZ4);
      P := P.(x := F.Square(M));
      P := P.(x := F.Sub(P.x, S));
      P := P.(x := F.Sub(P.x, S));
      S := F.Sub(S, P.x);
      P := P.(y := F.mul(M, S));
      sixteenY4 := F.Square(fourY2);
      P := P.(y := F.Sub(P.y, F.Half(sixteenY4)));

      CachedProduct(F, a, R.z, twoY);
      if Q.Affine? && Q.y != F.zero {
        FiniteDouble(F, a, Q.x, Q.y, R, P);
      } else {
        VanishingDouble(F, a, Q, R, P.z);
      }
    }
  }

  // ------------------------------------------------------------------
  // Batch inversion

  /** The inverse of one factor from the inverse of the product. */
  lemma InverseOfProduct<T(!new)>(F: Field<T>, a: T, b: T)
    requires IsField(F)
    ensures F.invert(F.mul(a, b)) != F.zero ==> F.mul(b, F.invert(F.mul(a, b))) == F.invert(a)
    ensures F.invert(F.mul(a, b)) != F.zero ==> F.mul(a, F.invert(F.mul(a, b))) == F.invert(b)
  {
    hide IsField;
    var v := F.invert(F.mul(a, b));
    InverseNonZero(F, F.mul(a, b));
    if v != F.zero {
      Units(F, F.mul(a, b));
      MulAssoc(F, a, b, v);
      InverseUnique(F, a, F.mul(b, v));
      MulComm(F, a, b);
      MulAssoc(F, b, a, v);
      InverseUnique(F, b, F.mul(a, v));
    }
  }

  /** Replaces every element by its inverse, zeros included. */
  method ParallelInvert<T(==, !new)>(F: Field<T>, a: array<T>)
    requires IsField(F)
    modifies a
    ensures forall i :: 0 <= i < a.Length ==> a[i] == F.invert(old(a[i]))
    decreases a.Length
  {
    hide IsField;
    var n := a.Length;
    if n == 1 {
      a[0] := F.invert(a[0]);
    } else if n > 1 {
      var vec := MultiplyPairs(F, a);
      ParallelInvert(F, vec);
      SplitInverses(F, a, vec);
      if n % 2 == 1 {
        a[n - 1] := vec[n / 2];
      }
    }
  }

  /** The first loop of ParallelInvert: the products of the pairs, and the element that
      may be left over. */
  method MultiplyPairs<T(==, !new)>(F: Field<T>, a: array<T>) returns (vec: array<T>)
    ensures fresh(vec) && vec.Length == (a.Length + 1) / 2
    ensures forall k :: 0 <= k < a.Length / 2 ==> vec[k] == F.mul(a[2 * k], a[2 * k + 1])
    ensures a.Length % 2 == 1 ==> vec[a.Length / 2] == a[a.Length - 1]
  {
    var n := a.Length;
    vec := new T[(n + 1) / 2](_ => F.zero);
    for i := 0 to n / 2
      invariant forall k :: 0 <= k < i ==> vec[k] == F.mul(a[2 * k], a[2 * k + 1])
    {
      vec[i] := F.mul(a[2 * i], a[2 * i + 1]);
    }
    if n % 2 == 1 {
      vec[n / 2] := a[n - 1];
    }
  }

  /** The second loop of ParallelInvert: from the inverses of the pair products to
      the inverses of the pairs. */
  method SplitInverses<T(==, !new)>(F: Field<T>, a: array<T>, vec: array<T>)
    requires IsField(F) && a != vec && vec.Length == (a.Length + 1) / 2
    requires forall k :: 0 <= k < a.Length / 2 ==> vec[k] == F.invert(F.mul(a[2 * k], a[2 * k + 1]))
    modifies a
    ensures forall k :: 0 <= k < 2 * (a.Length / 2) ==> a[k] == F.invert(old(a[k]))
    ensures forall k :: 2 * (a.Length / 2) <= k < a.Length ==> a[k] == old(a[k])
  {
    hide IsField;
    for i := 0 to a.Length / 2
      invariant forall k :: 0 <= k < 2 * i ==> a[k] == F.invert(old(a[k]))
      invariant forall k :: 2 * i <= k < a.Length ==> a[k] == old(a[k])
    {
      InverseOfProduct(F, a[2 * i], a[2 * i + 1]);
      if vec[i] == F.zero {
        a[2 * i] := F.invert(a[2 * i]);
        a[2 * i + 1] := F.invert(a[2 * i + 1]);
      } else {
        a[2 * i], a[2 * i + 1] := a[2 * i + 1], a[2 * i];
        a[2 * i] := F.mul(a[2 * i], vec[i]);
        a[2 * i + 1] := F.mul(a[2 * i + 1], vec[i]);
      }
    }
  }

  /** The conversion of one base whose z has been inverted. */
  function Normalize<T(==)>(F: Field<T>, R: ProjectivePoint<T>): ProjectivePoint<T>
  {
    if R.z == F.zero then R
    else
      var y := F.mul(R.y, R.z);
      var z := F.Square(R.z);
      ProjectivePoint(F.mul(R.x, z), F.mul(y, z), z)
  }

  function ToAffine<T(==)>(F: Field<T>, R: ProjectivePoint<T>): Point<T>
  {
    if R.z == F.zero then Infinity else Affine(R.x, R.y)
  }

  lemma NormalizeCorrect<T(!new)>(F: Field<T>, R: ProjectivePoint<T>, P: Point<T>)
    requires IsField(F) && Represents(F, R, P)
    ensures ToAffine(F, Normalize(F, R.(z := F.invert(R.z)))) == P
  {
    hide IsField;
    var z, i := R.z, F.invert(R.z);
    InverseNonZero(F, z);
    if P.Affine? {
      Units(F, z);
      Units(F, F.one);
      Units(F, P.x);
      Units(F, P.y);
      var z2, i2 := F.mul(z, z), F.mul(i, i);
      NonZeroProduct(F, i, i);
      MulExchange(F, z, z, i, i);
      MulAssoc(F, P.x, z2, i2);
      // (y z3) i i2 == y
      MulAssoc(F, P.y, F.mul(z2, z), i);
      MulAssoc(F, z2, z, i);
      Units(F, z2);
      MulAssoc(F, P.y, z2, i2);
    }
  }
}

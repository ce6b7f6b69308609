/** The affine formulas of ecp.cpp against the curve: the sum of two points lies on
    their line and on the curve, and all group laws but associativity hold. */
module CurveLaws {
  import opened AbstractGroups
  import opened Fields
  import opened EllipticCurves
  import opened EcpMultiplication

  /** x^3 + a x + b, as VerifyPoint evaluates it. */
  function Cubic<T>(F: Field<T>, a: T, b: T, x: T): T
  {
    F.add(F.mul(F.add(F.Square(x), a), x), b)
  }

  /** VerifyPoint */
  predicate OnCurve<T(==)>(F: Field<T>, a: T, b: T, P: Point<T>)
  {
    P.Affine? ==> F.Square(P.y) == Cubic(F, a, b, P.x)
  }

  /** y^2 == x^3 + (a x + b) */
  lemma CurveEquation<T(!new)>(F: Field<T>, a: T, b: T, P: Point<T>)
    requires IsField(F) && P.Affine?
    ensures OnCurve(F, a, b, P)
       <==> F.mul(P.y, P.y) == F.add(F.mul(F.mul(P.x, P.x), P.x), F.add(F.mul(a, P.x), b))
  {
    hide IsField;
    Distrib(F, F.mul(P.x, P.x), a, P.x);
    AddLaws(F, F.mul(F.mul(P.x, P.x), P.x), F.mul(a, P.x), b);
  }

  // ------------------------------------------------------------------
  // Sums in a field

  lemma AddExchange<T(!new)>(F: Field<T>, a: T, b: T, c: T, d: T)
    requires IsField(F)
    ensures F.add(F.add(a, b), F.add(c, d)) == F.add(F.add(a, c), F.add(b, d))
  {
    hide IsField;
    AddLaws(F, a, b, F.add(c, d));
    AddLaws(F, b, c, d);
    AddLaws(F, c, b, d);
    AddLaws(F, a, c, F.add(b, d));
  }

  lemma Cancel<T(!new)>(F: Field<T>, a: T, b: T, c: T)
    requires IsField(F) && F.add(a, c) == F.add(b, c)
    ensures a == b
  {
    hide IsField;
    AddLaws(F, a, c, F.negate(c));
    AddLaws(F, b, c, F.negate(c));
    AddLaws(F, c, c, c);
  }

  lemma SubAdd<T(!new)>(F: Field<T>, a: T, b: T)
    requires IsField(F)
    ensures F.add(F.Sub(a, b), b) == a && F.add(b, F.Sub(a, b)) == a
  {
    hide IsField;
    AddLaws(F, a, F.negate(b), b);
    AddLaws(F, b, F.negate(b), b);
    AddLaws(F, b, F.Sub(a, b), b);
    AddLaws(F, F.negate(b), b, b);
    AddLaws(F, a, b, b);
  }

  lemma NegateUnique<T(!new)>(F: Field<T>, a: T, n: T)
    requires IsField(F) && F.add(a, n) == F.zero
    ensures n == F.negate(a)
  {
    hide IsField;
    AddLaws(F, a, F.negate(a), a);
    AddLaws(F, n, a, a);
    AddLaws(F, F.negate(a), a, a);
    Cancel(F, n, F.negate(a), a);
  }

  /** -(a - b) == b - a, -(a + b) == -a - b and -(-a) == a */
  lemma NegateSum<T(!new)>(F: Field<T>, a: T, b: T)
    requires IsField(F)
    ensures F.negate(F.add(a, b)) == F.add(F.negate(a), F.negate(b))
    ensures F.negate(F.negate(a)) == a
    ensures F.negate(F.Sub(a, b)) == F.Sub(b, a)
  {
    hide IsField;
    AddExchange(F, a, b, F.negate(a), F.negate(b));
    AddLaws(F, a, a, a);
    AddLaws(F, b, b, b);
    AddLaws(F, F.zero, F.zero, F.zero);
    NegateUnique(F, F.add(a, b), F.add(F.negate(a), F.negate(b)));
    AddLaws(F, F.negate(a), a, a);
    NegateUnique(F, F.negate(a), a);
    SubAdd(F, a, b);
    SubAdd(F, b, a);
    AddExchange(F, a, F.negate(b), F.negate(a), b);
    AddLaws(F, F.negate(b), b, b);
    AddLaws(F, b, F.negate(a), a);
    NegateUnique(F, F.Sub(a, b), F.Sub(b, a));
  }

  lemma NegateSquare<T(!new)>(F: Field<T>, a: T)
    requires IsField(F)
    ensures F.Square(F.negate(a)) == F.Square(a)
  {
    hide IsField;
    NegateProduct(F, a, F.negate(a));
    MulComm(F, a, F.negate(a));
    NegateProduct(F, a, a);
    NegateSum(F, F.mul(a, a), a);
  }

  lemma DistribLeft<T(!new)>(F: Field<T>, a: T, b: T, c: T)
    requires IsField(F)
    ensures F.mul(a, F.add(b, c)) == F.add(F.mul(a, b), F.mul(a, c))
  {
    hide IsField;
    MulComm(F, a, F.add(b, c));
    MulComm(F, a, b);
    MulComm(F, a, c);
    Distrib(F, b, c, a);
  }

  lemma CancelFactor<T(!new)>(F: Field<T>, e: T, a: T, b: T)
    requires IsField(F) && e != F.zero && F.mul(e, a) == F.mul(e, b)
    ensures a == b
  {
    hide IsField;
    var i := F.invert(e);
    Units(F, e);
    Units(F, a);
    Units(F, b);
    MulComm(F, e, i);
    MulAssoc(F, i, e, a);
    MulAssoc(F, i, e, b);
  }

  // ------------------------------------------------------------------
  // A line and the cubic

  /** (z^2 - x^2 of the cubic)(z - x) without differences: x^2 + z x + z^2 + a */
  function Secant<T>(F: Field<T>, a: T, x: T, z: T): T
  {
    F.add(F.add(F.mul(x, x), F.mul(z, x)), F.add(F.mul(z, z), a))
  }

  /** With z == x + d: the cubic at z is the cubic at x and d times the secant. */
  lemma CubicStep<T(!new)>(F: Field<T>, a: T, b: T, x: T, d: T)
    requires IsField(F)
    ensures var z := F.add(x, d); Cubic(F, a, b, z) == F.add(Cubic(F, a, b, x), F.mul(d, Secant(F, a, x, z)))
  {
    hide IsField;
    var z := F.add(x, d);
    var p, q := F.add(F.mul(x, x), a), F.add(F.mul(z, z), a);
    var c := F.add(F.mul(x, x), F.mul(z, x));
    SquareStep(F, x, d);
    var m := F.mul(d, F.add(x, z));
    // q == p + d (x + z)
    AddLaws(F, F.mul(x, x), m, a);
    AddLaws(F, m, a, a);
    AddLaws(F, F.mul(x, x), a, m);
    assert q == F.add(p, m);
    // q z == q x + q d, and q x == p x + d (x + z) x
    DistribLeft(F, q, x, d);
    Distrib(F, p, m, x);
    MulAssoc(F, d, F.add(x, z), x);
    Distrib(F, x, z, x);
    MulComm(F, q, d);
    DistribLeft(F, d, c, q);
    AddLaws(F, F.mul(p, x), F.mul(d, c), F.mul(d, q));
    var s := F.mul(d, Secant(F, a, x, z));
    assert F.mul(q, z) == F.add(F.mul(p, x), s);
    AddLaws(F, F.mul(p, x), s, b);
    AddLaws(F, s, b, b);
    AddLaws(F, F.mul(p, x), b, s);
  }

  /** (x + d)^2 == x^2 + d (x + (x + d)) */
  lemma SquareStep<T(!new)>(F: Field<T>, x: T, d: T)
    requires IsField(F)
    ensures var z := F.add(x, d); F.mul(z, z) == F.add(F.mul(x, x), F.mul(d, F.add(x, z)))
  {
    hide IsField;
    var z := F.add(x, d);
    Distrib(F, x, d, z);
    DistribLeft(F, x, x, d);
    MulComm(F, x, d);
    DistribLeft(F, d, x, z);
    AddLaws(F, F.mul(x, x), F.mul(d, x), F.mul(d, z));
  }

  /** What the line of slope t through height y gains on its square in a step d, divided
      by d: 2 t y + t^2 d */
  function Gain<T>(F: Field<T>, t: T, y: T, d: T): T
  {
    F.add(F.Double(F.mul(t, y)), F.mul(t, F.mul(t, d)))
  }

  lemma LineStep<T(!new)>(F: Field<T>, t: T, y: T, d: T)
    requires IsField(F)
    ensures F.Square(F.add(y, F.mul(t, d))) == F.add(F.Square(y), F.mul(d, Gain(F, t, y, d)))
  {
    hide IsField;
    var m := F.mul(t, d);
    SquareStep(F, y, m);
    // t d (y + (y + t d)) == d (2 t y + t (t d))
    MulComm(F, t, d);
    MulAssoc(F, d, t, F.add(y, F.add(y, m)));
    DistribLeft(F, t, y, F.add(y, m));
    DistribLeft(F, t, y, m);
    AddLaws(F, F.mul(t, y), F.mul(t, y), F.mul(t, m));
  }

  /** The one line that meets the cubic at x1, at x2 and at x3, where x1 + x2 + x3 is the
      square of its slope. */
  lemma ThirdSecant<T(!new)>(F: Field<T>, a: T, x1: T, x2: T, x3: T, y1: T, t: T)
    requires IsField(F) && F.Square(t) == F.add(F.add(x1, x2), x3)
    requires Gain(F, t, y1, F.Sub(x2, x1)) == Secant(F, a, x1, x2)
    ensures Gain(F, t, y1, F.Sub(x3, x1)) == Secant(F, a, x1, x3)
  {
    hide IsField;
    var s, w := F.Square(t), F.Double(F.mul(t, y1));
    var e, d := F.Sub(x2, x1), F.Sub(x3, x1);
    MulAssoc(F, t, t, e);
    MulAssoc(F, t, t, d);
    var k := F.mul(s, x1);
    // s e + s x1 == s x2 and s d + s x1 == s x3
    SubAdd(F, x2, x1);
    SubAdd(F, x3, x1);
    DistribLeft(F, s, e, x1);
    DistribLeft(F, s, d, x1);
    AddLaws(F, w, F.mul(s, e), k);
    AddLaws(F, w, F.mul(s, d), k);
    assert F.add(Gain(F, t, y1, e), k) == F.add(w, F.mul(s, x2));
    assert F.add(Gain(F, t, y1, d), k) == F.add(w, F.mul(s, x3));
    SecantsDiffer(F, a, x1, x2, x3);
    var u2, u3 := Secant(F, a, x1, x2), Secant(F, a, x1, x3);
    var m2, m3 := F.mul(s, x2), F.mul(s, x3);
    // u2 + k == w + m2 and u2 + m3 == u3 + m2 give u3 + k == w + m3
    AddExchange(F, u3, k, m2, m3);
    AddExchange(F, u2, k, m3, m2);
    AddExchange(F, w, m3, m2, m2);
    Rearranged(F, u2, u3, k, w, m2, m3);
    Cancel(F, Gain(F, t, y1, d), u3, k);
  }

  lemma Rearranged<T(!new)>(F: Field<T>, u2: T, u3: T, k: T, w: T, m2: T, m3: T)
    requires IsField(F) && F.add(u2, k) == F.add(w, m2) && F.add(u2, m3) == F.add(u3, m2)
    ensures F.add(u3, k) == F.add(w, m3)
  {
    hide IsField;
    // (u3 + k) + m2 == (u2 + m3) + k == (w + m2) + m3 == (w + m3) + m2
    AddLaws(F, u3, k, m2);
    AddLaws(F, k, m2, m2);
    AddLaws(F, u3, m2, k);
    AddLaws(F, u2, m3, k);
    AddLaws(F, m3, k, k);
    AddLaws(F, u2, k, m3);
    AddLaws(F, w, m2, m3);
    AddLaws(F, m2, m3, m3);
    AddLaws(F, w, m3, m2);
    Cancel(F, F.add(u3, k), F.add(w, m3), m2);
  }

  /** Two secants from x1 differ by (x1 + x2 + x3)(x3 - x2). */
  lemma SecantsDiffer<T(!new)>(F: Field<T>, a: T, x1: T, x2: T, x3: T)
    requires IsField(F)
    ensures var s := F.add(F.add(x1, x2), x3);
      F.add(Secant(F, a, x1, x2), F.mul(s, x3)) == F.add(Secant(F, a, x1, x3), F.mul(s, x2))
  {
    hide IsField;
    var s := F.add(F.add(x1, x2), x3);
    var q, r := F.mul(x1, x1), F.mul(x2, x3);
    SecantTimes(F, a, x1, x2);
    SecantTimes(F, a, x1, x3);
    var c2, c3 := F.mul(F.add(x1, x2), x2), F.mul(F.add(x1, x3), x3);
    // s x3 == c3 + x2 x3 and s x2 == c2 + x3 x2
    SumTimes(F, x1, x2, x3);
    MulComm(F, x2, x3);
    var v := F.add(q, a);
    AddExchange(F, v, c2, c3, r);
    AddExchange(F, v, c3, c2, r);
    AddExchange(F, v, c3, c2, r);
    AddLaws(F, c2, c3, r);
    AddLaws(F, c3, c2, r);
    AddLaws(F, v, c2, F.add(c3, r));
    AddLaws(F, v, c3, F.add(c2, r));
  }

  /** x1^2 + x2 x1 + x2^2 + a == (x1^2 + a) + (x1 + x2) x2 */
  lemma SecantTimes<T(!new)>(F: Field<T>, a: T, x1: T, x2: T)
    requires IsField(F)
    ensures Secant(F, a, x1, x2) == F.add(F.add(F.mul(x1, x1), a), F.mul(F.add(x1, x2), x2))
  {
    hide IsField;
    var q, m, c := F.mul(x1, x1), F.mul(x2, x1), F.mul(x2, x2);
    Distrib(F, x1, x2, x2);
    MulComm(F, x1, x2);
    AddLaws(F, c, a, a);
    AddExchange(F, q, m, a, c);
  }

  lemma SumTimes<T(!new)>(F: Field<T>, x1: T, x2: T, x3: T)
    requires IsField(F)
    ensures var s := F.add(F.add(x1, x2), x3);
      && F.mul(s, x3) == F.add(F.mul(F.add(x1, x3), x3), F.mul(x2, x3))
      && F.mul(s, x2) == F.add(F.mul(F.add(x1, x2), x2), F.mul(x3, x2))
  {
    hide IsField;
    AddLaws(F, x1, x2, x3);
    AddLaws(F, x2, x3, x3);
    AddLaws(F, x1, x3, x2);
    Distrib(F, F.add(x1, x3), x2, x3);
    Distrib(F, F.add(x1, x2), x3, x2);
  }

  // ------------------------------------------------------------------
  // The formulas

  /** The point that the last two lines of Add and Double compute from a slope. */
  function ThirdPoint<T>(F: Field<T>, t: T, x1: T, y1: T, x2: T): Point<T>
  {
    var x := F.Sub(F.Sub(F.Square(t), x1), x2);
    Affine(x, F.Sub(F.mul(t, F.Sub(x1, x)), y1))
  }

  /** The sum of the three abscissae is the square of the slope, and the mirrored point
      lies on the line. */
  lemma OnLine<T(!new)>(F: Field<T>, t: T, x1: T, y1: T, x2: T)
    requires IsField(F)
    ensures var R := ThirdPoint(F, t, x1, y1, x2);
      && F.Square(t) == F.add(F.add(x1, x2), R.x)
      && F.negate(R.y) == F.add(y1, F.mul(t, F.Sub(R.x, x1)))
      && F.Sub(F.negate(R.y), y1) == F.mul(t, F.Sub(R.x, x1))
  {
    hide IsField;
    var s := F.Square(t);
    var R := ThirdPoint(F, t, x1, y1, x2);
    SubAdd(F, s, x1);
    SubAdd(F, F.Sub(s, x1), x2);
    AddLaws(F, x1, x2, R.x);
    var d := F.Sub(R.x, x1);
    NegateSum(F, R.x, x1);
    assert F.Sub(x1, R.x) == F.negate(d);
    MulComm(F, t, F.negate(d));
    NegateProduct(F, d, t);
    MulComm(F, d, t);
    var m := F.mul(t, d);
    assert R.y == F.add(F.negate(m), F.negate(y1));
    NegateSum(F, m, y1);
    NegateSum(F, F.add(m, y1), y1);
    AddLaws(F, m, y1, F.negate(y1));
    AddLaws(F, y1, y1, y1);
    AddLaws(F, m, m, m);
  }

  /** If the line meets the cubic at x1 and x2, the third point is on the curve. */
  lemma ThirdOnCurve<T(!new)>(F: Field<T>, a: T, b: T, t: T, x1: T, y1: T, x2: T)
    requires IsField(F) && F.Square(y1) == Cubic(F, a, b, x1)
    requires Gain(F, t, y1, F.Sub(x2, x1)) == Secant(F, a, x1, x2)
    ensures OnCurve(F, a, b, ThirdPoint(F, t, x1, y1, x2))
  {
    hide IsField, Secant, Gain, Cubic;
    var R := ThirdPoint(F, t, x1, y1, x2);
    OnLine(F, t, x1, y1, x2);
    ThirdSecant(F, a, x1, x2, R.x, y1, t);
    SubAdd(F, R.x, x1);
    CubicStep(F, a, b, x1, F.Sub(R.x, x1));
    LineStep(F, t, y1, F.Sub(R.x, x1));
    NegateSquare(F, R.y);
  }

  /** Addition of points with different abscissae: the mirrored sum lies on the chord, the
      three abscissae add up to the square of the slope, and the sum is on the curve. */
  lemma ChordPoint<T(!new)>(F: Field<T>, a: T, b: T, P: Point<T>, Q: Point<T>)
    requires IsField(F) && P.Affine? && Q.Affine? && P.x != Q.x
    ensures var R := PointAdd(F, a, P, Q); var e := F.Sub(Q.x, P.x);
      && R.Affine?
      && F.mul(F.Sub(F.negate(R.y), P.y), e) == F.mul(F.Sub(Q.y, P.y), F.Sub(R.x, P.x))
      && F.mul(F.add(F.add(P.x, Q.x), R.x), F.Square(e)) == F.Square(F.Sub(Q.y, P.y))
      && (OnCurve(F, a, b, P) && OnCurve(F, a, b, Q) ==> OnCurve(F, a, b, R))
  {
    hide IsField, OnCurve;
    var e, f := F.Sub(Q.x, P.x), F.Sub(Q.y, P.y);
    var t := F.Divide(f, e);
    NotEqual(F, Q.x, P.x);
    DivideBack(F, f, e);
    var R := ThirdPoint(F, t, P.x, P.y, Q.x);
    assert PointAdd(F, a, P, Q) == R;
    OnLine(F, t, P.x, P.y, Q.x);
    var d := F.Sub(R.x, P.x);
    MulAssoc(F, t, d, e);
    MulComm(F, d, e);
    MulAssoc(F, t, e, d);
    MulExchange(F, t, t, e, e);
    if OnCurve(F, a, b, P) && OnCurve(F, a, b, Q) {
      ChordMeets(F, a, b, P, Q, t);
      ThirdOnCurve(F, a, b, t, P.x, P.y, Q.x) by { assert F.Square(P.y) == Cubic(F, a, b, P.x) by { Points(F, a, b, P); } }
    }
  }

  lemma Points<T>(F: Field<T>, a: T, b: T, P: Point<T>)
    requires OnCurve(F, a, b, P) && P.Affine?
    ensures F.Square(P.y) == Cubic(F, a, b, P.x)
  {
  }

  lemma NotEqual<T(!new)>(F: Field<T>, a: T, b: T)
    requires IsField(F)
    ensures F.Sub(a, b) == F.zero <==> a == b
  {
    hide IsField;
    SubAdd(F, a, b);
    AddLaws(F, b, F.zero, b);
    AddLaws(F, b, b, b);
  }

  lemma ChordMeets<T(!new)>(F: Field<T>, a: T, b: T, P: Point<T>, Q: Point<T>, t: T)
    requires IsField(F) && P.Affine? && Q.Affine? && P.x != Q.x
    requires OnCurve(F, a, b, P) && OnCurve(F, a, b, Q) && F.mul(t, F.Sub(Q.x, P.x)) == F.Sub(Q.y, P.y)
    ensures Gain(F, t, P.y, F.Sub(Q.x, P.x)) == Secant(F, a, P.x, Q.x)
  {
    hide IsField, Gain, Secant, Cubic;
    var e := F.Sub(Q.x, P.x);
    SubAdd(F, Q.x, P.x);
    SubAdd(F, Q.y, P.y);
    CubicStep(F, a, b, P.x, e);
    LineStep(F, t, P.y, e);
    var g, u, c := F.mul(e, Gain(F, t, P.y, e)), F.mul(e, Secant(F, a, P.x, Q.x)), F.Square(P.y);
    AddLaws(F, c, g, g);
    AddLaws(F, c, u, u);
    Cancel(F, g, u, c);
    NotEqual(F, Q.x, P.x);
    CancelFactor(F, e, Gain(F, t, P.y, e), Secant(F, a, P.x, Q.x));
  }

  /** Doubling a point with y != 0: the same with the tangent, of slope
      (3 x^2 + a) / 2 y. */
  lemma TangentPoint<T(!new)>(F: Field<T>, a: T, b: T, P: Point<T>)
    requires IsField(F) && P.Affine? && P.y != F.zero
    ensures var R := PointDouble(F, a, P); var e := F.Double(P.y);
      var f := F.add(F.add(F.Double(F.Square(P.x)), F.Square(P.x)), a);
      && R.Affine?
      && F.mul(F.Sub(F.negate(R.y), P.y), e) == F.mul(f, F.Sub(R.x, P.x))
      && F.mul(F.add(F.Double(P.x), R.x), F.Square(e)) == F.Square(f)
      && (OnCurve(F, a, b, P) ==> OnCurve(F, a, b, R))
  {
    hide IsField, OnCurve;
    var e, q := F.Double(P.y), F.Square(P.x);
    var f := F.add(F.add(F.Double(q), q), a);
    var t := F.Divide(f, e);
    DoubleNonZero(F, P.y);
    DivideBack(F, f, e);
    var R := ThirdPoint(F, t, P.x, P.y, P.x);
    assert PointDouble(F, a, P) == R;
    OnLine(F, t, P.x, P.y, P.x);
    var d := F.Sub(R.x, P.x);
    MulAssoc(F, t, d, e);
    MulComm(F, d, e);
    MulAssoc(F, t, e, d);
    MulExchange(F, t, t, e, e);
    if OnCurve(F, a, b, P) {
      TangentMeets(F, a, P.x, P.y, t);
      Points(F, a, b, P);
      ThirdOnCurve(F, a, b, t, P.x, P.y, P.x);
    }
  }

  lemma TangentMeets<T(!new)>(F: Field<T>, a: T, x: T, y: T, t: T)
    requires IsField(F) && F.mul(t, F.Double(y)) == F.add(F.add(F.Double(F.Square(x)), F.Square(x)), a)
    ensures Gain(F, t, y, F.Sub(x, x)) == Secant(F, a, x, x)
  {
    hide IsField;
    var q := F.Square(x);
    NotEqual(F, x, x);
    MulZero(F, t);
    DistribLeft(F, t, y, y);
    AddLaws(F, F.Double(F.mul(t, y)), F.zero, F.zero);
    AddLaws(F, F.Double(q), q, a);
  }

  // ------------------------------------------------------------------
  // The laws

  lemma AddOnCurve<T(!new)>(F: Field<T>, a: T, b: T, P: Point<T>, Q: Point<T>)
    requires IsField(F) && OnCurve(F, a, b, P) && OnCurve(F, a, b, Q)
    ensures OnCurve(F, a, b, PointAdd(F, a, P, Q)) && OnCurve(F, a, b, PointInverse(F, P))
  {
    hide IsField, Cubic;
    if P.Affine? {
      NegateSquare(F, P.y);
      if Q.Affine? && P.x != Q.x {
        ChordPoint(F, a, b, P, Q);
      } else if Q.Affine? && P.y == Q.y && P.y != F.zero {
        TangentPoint(F, a, b, P);
      }
    }
  }

  lemma AddInverse<T(!new)>(F: Field<T>, a: T, P: Point<T>)
    requires IsField(F)
    ensures PointAdd(F, a, P, Infinity) == P && PointAdd(F, a, Infinity, P) == P
    ensures PointAdd(F, a, P, PointInverse(F, P)) == Infinity
  {
    hide IsField;
    if P.Affine? && P.y == F.negate(P.y) {
      // 2 y == 0
      AddLaws(F, P.y, P.y, P.y);
      DoubleNonZero(F, P.y);
    }
  }

  lemma AddCommutes<T(!new)>(F: Field<T>, a: T, P: Point<T>, Q: Point<T>)
    requires IsField(F)
    ensures PointAdd(F, a, P, Q) == PointAdd(F, a, Q, P)
  {
    hide IsField;
    if P.Affine? && Q.Affine? && P.x != Q.x {
      var e, f := F.Sub(Q.x, P.x), F.Sub(Q.y, P.y);
      var t := F.Divide(f, e);
      NotEqual(F, Q.x, P.x);
      SameSlope(F, f, e);
      NegateSum(F, Q.x, P.x);
      NegateSum(F, Q.y, P.y);
      var s := F.Square(t);
      var x := F.Sub(F.Sub(s, P.x), Q.x);
      AddLaws(F, s, F.negate(P.x), F.negate(Q.x));
      AddLaws(F, s, F.negate(Q.x), F.negate(P.x));
      AddLaws(F, F.negate(P.x), F.negate(Q.x), s);
      OnLine(F, t, P.x, P.y, Q.x);
      OnLine(F, t, Q.x, Q.y, P.x);
      SameHeight(F, t, P, Q, x);
    }
  }

  /** f / e == -f / -e */
  lemma SameSlope<T(!new)>(F: Field<T>, f: T, e: T)
    requires IsField(F) && e != F.zero
    ensures F.negate(e) != F.zero && F.Divide(f, e) == F.Divide(F.negate(f), F.negate(e))
  {
    hide IsField;
    var n, t, u := F.negate(e), F.Divide(f, e), F.Divide(F.negate(f), F.negate(e));
    if n == F.zero {
      AddLaws(F, e, e, e);
    }
    DivideBack(F, f, e);
    DivideBack(F, F.negate(f), n);
    MulComm(F, t, e);
    MulComm(F, t, n);
    MulComm(F, u, n);
    NegateProduct(F, e, t);
    CancelFactor(F, n, t, u);
  }

  /** The line through P and Q has one height at x. */
  lemma SameHeight<T(!new)>(F: Field<T>, t: T, P: Point<T>, Q: Point<T>, x: T)
    requires IsField(F) && P.Affine? && Q.Affine? && P.x != Q.x
    requires t == F.Divide(F.Sub(Q.y, P.y), F.Sub(Q.x, P.x))
    ensures F.Sub(F.mul(t, F.Sub(P.x, x)), P.y) == F.Sub(F.mul(t, F.Sub(Q.x, x)), Q.y)
  {
    hide IsField;
    var e, f := F.Sub(Q.x, P.x), F.Sub(Q.y, P.y);
    NotEqual(F, Q.x, P.x);
    DivideBack(F, f, e);
    // Q.x - x == e + (P.x - x) and Q.y == f + P.y
    SubAdd(F, Q.x, P.x);
    SubAdd(F, Q.y, P.y);
    AddLaws(F, e, P.x, F.negate(x));
    DistribLeft(F, t, e, F.Sub(P.x, x));
    var m := F.mul(t, F.Sub(P.x, x));
    NegateSum(F, f, P.y);
    AddExchange(F, f, m, F.negate(f), F.negate(P.y));
    AddLaws(F, f, f, f);
    AddLaws(F, F.Sub(m, P.y), F.zero, F.zero);
  }

  /** The points of y^2 == x^3 + a x + b. */
  function Curve<T(==)>(F: Field<T>, a: T, b: T): Group<Point<T>>
  {
    CurveGroup(F, a, P => OnCurve(F, a, b, P))
  }

  ghost predicate Associative<T(!new)>(F: Field<T>, a: T, b: T)
  {
    forall P, Q, R :: AssociativeAt(Curve(F, a, b), P, Q, R)
  }

  /** The points of a curve form a commutative group if their addition is associative. */
  lemma CurveIsGroup<T(!new)>(F: Field<T>, a: T, b: T)
    requires IsField(F) && Associative(F, a, b)
    ensures IsGroup(Curve(F, a, b))
  {
    hide IsField;
    var G := Curve(F, a, b);
    forall P, Q
      ensures ClosedAt(G, P, Q) && CommutativeAt(G, P, Q) && IdentityAndInverseAt(G, P)
    {
      CurveLaw(F, a, b, P, Q);
    }
    forall P
      ensures IdentityAndInverseAt(G, P)
    {
      CurveLaw(F, a, b, P, P);
    }
  }

  lemma CurveLaw<T(!new)>(F: Field<T>, a: T, b: T, P: Point<T>, Q: Point<T>)
    requires IsField(F)
    ensures ClosedAt(Curve(F, a, b), P, Q) && CommutativeAt(Curve(F, a, b), P, Q) && IdentityAndInverseAt(Curve(F, a, b), P)
  {
    hide IsField, OnCurve, PointAdd, PointInverse;
    if OnCurve(F, a, b, P) && OnCurve(F, a, b, Q) {
      AddOnCurve(F, a, b, P, Q);
    }
    AddCommutes(F, a, P, Q);
    AddInverse(F, a, P);
  }

  /** Multiplication on a curve whose addition is associative. */
  method CurveScalarMultiply<T(==, !new)>(F: Field<T>, a: T, b: T, P: Point<T>, k: nat) returns (result: Point<T>)
    requires IsField(F) && Associative(F, a, b) && OnCurve(F, a, b, P)
    ensures result == Multiple(Curve(F, a, b), P, k) && OnCurve(F, a, b, result)
  {
    hide IsField, IsGroup, Multiple, OnCurve;
    CurveIsGroup(F, a, b);
    result := EcpScalarMultiply(F, a, Q => OnCurve(F, a, b, Q), P, k);
    MultipleHas(Curve(F, a, b), P, k);
  }
}

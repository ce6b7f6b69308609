/** Congruences, primes and Fermat's little theorem, for the integer arithmetic of
    ESIGN and Blum-Blum-Shub. */
module NumberTheory {
  import opened Bits
  import opened AbstractGroups
  import opened GeneralCascades

  function Pow(b: int, e: nat): int
  {
    if e == 0 then 1 else b * Pow(b, e - 1)
  }

  lemma {:induction false} PowNat(b: nat, e: nat)
    ensures Pow(b, e) >= 0 && (b > 0 ==> Pow(b, e) > 0)
  {
    if e > 0 { PowNat(b, e - 1); }
  }

  lemma {:induction false} PowAdd(b: int, e: nat, f: nat)
    ensures Pow(b, e + f) == Pow(b, e) * Pow(b, f)
  {
    if e > 0 {
      PowAdd(b, e - 1, f);
      assert Pow(b, e + f) == b * Pow(b, e - 1 + f);
      assert b * (Pow(b, e - 1) * Pow(b, f)) == (b * Pow(b, e - 1)) * Pow(b, f);
    }
  }

  lemma {:induction false} PowMul(b: int, e: nat, f: nat)
    ensures Pow(Pow(b, e), f) == Pow(b, e * f)
  {
    if f == 0 {
      assert e * f == 0;
    } else {
      PowMul(b, e, f - 1);
      assert e * f == e + e * (f - 1);
      PowAdd(b, e, e * (f - 1));
    }
  }

  lemma {:induction false} PowOfTwo(k: nat)
    ensures Pow(2, k) == Pow2(k)
  {
    if k > 0 { PowOfTwo(k - 1); }
  }

  // ------------------------------------------------------------------
  // Congruence

  /** a and b differ by a multiple of m: k is the witness. */
  ghost predicate DifferBy(a: int, b: int, k: int, m: int) { a - b == k * m }

  ghost predicate Cong(a: int, b: int, m: int)
  {
    exists k :: DifferBy(a, b, k, m)
  }

  ghost predicate Divides(d: int, n: int)
  {
    Cong(n, 0, d)
  }

  lemma CongBy(a: int, b: int, k: int, m: int)
    requires a - b == k * m
    ensures Cong(a, b, m) && Cong(b, a, m)
  {
    assert DifferBy(a, b, k, m);
    assert DifferBy(b, a, -k, m) by { assert -k * m == -(k * m); }
  }

  lemma CongRefl(a: int, m: int)
    ensures Cong(a, a, m)
  {
    CongBy(a, a, 0, m);
  }

  lemma CongSym(a: int, b: int, m: int)
    requires Cong(a, b, m)
    ensures Cong(b, a, m)
  {
    var k :| DifferBy(a, b, k, m);
    CongBy(a, b, k, m);
  }

  lemma CongTrans(a: int, b: int, c: int, m: int)
    requires Cong(a, b, m) && Cong(b, c, m)
    ensures Cong(a, c, m)
  {
    var j :| DifferBy(a, b, j, m);
    var k :| DifferBy(b, c, k, m);
    assert (j + k) * m == j * m + k * m;
    CongBy(a, c, j + k, m);
  }

  lemma CongAdd(a: int, b: int, c: int, d: int, m: int)
    requires Cong(a, b, m) && Cong(c, d, m)
    ensures Cong(a + c, b + d, m) && Cong(a - c, b - d, m)
  {
    var j :| DifferBy(a, b, j, m);
    var k :| DifferBy(c, d, k, m);
    assert (j + k) * m == j * m + k * m && (j - k) * m == j * m - k * m;
    CongBy(a + c, b + d, j + k, m);
    CongBy(a - c, b - d, j - k, m);
  }

  lemma CongMul(a: int, b: int, c: int, d: int, m: int)
    requires Cong(a, b, m) && Cong(c, d, m)
    ensures Cong(a * c, b * d, m)
  {
    var j :| DifferBy(a, b, j, m);
    var k :| DifferBy(c, d, k, m);
    assert a * c - b * d == a * (c - d) + (a - b) * d;
    assert a * (k * m) + (j * m) * d == (a * k + j * d) * m;
    CongBy(a * c, b * d, a * k + j * d, m);
  }

  lemma {:induction false} CongPow(a: int, b: int, e: nat, m: int)
    requires Cong(a, b, m)
    ensures Cong(Pow(a, e), Pow(b, e), m)
  {
    if e == 0 {
      CongRefl(1, m);
    } else {
      CongPow(a, b, e - 1, m);
      CongMul(a, b, Pow(a, e - 1), Pow(b, e - 1), m);
    }
  }

  lemma CongMod(a: int, m: int)
    requires m > 0
    ensures Cong(a, a % m, m) && Cong(a % m, a, m)
  {
    CongBy(a, a % m, a / m, m);
  }

  /** Congruent numbers have the same remainder. */
  lemma CongSameMod(a: int, b: int, m: int)
    requires m > 0
    ensures Cong(a, b, m) <==> a % m == b % m
  {
    if Cong(a, b, m) {
      var k :| DifferBy(a, b, k, m);
      assert a == (b / m + k) * m + b % m by { assert (b / m + k) * m == (b / m) * m + k * m; }
      DivModUnique(a, m, b / m + k, b % m);
    }
    if a % m == b % m {
      CongMod(a, m);
      CongMod(b, m);
      CongTrans(a, a % m, b, m);
    }
  }

  lemma ModSmall(a: int, m: int)
    requires 0 <= a < m
    ensures a % m == a
  {
    DivModUnique(a, m, 0, a);
  }

  lemma ModMul(a: int, b: int, m: int)
    requires m > 0
    ensures (a % m * b) % m == (a * b) % m && (a * (b % m)) % m == (a * b) % m
  {
    CongMod(a, m);
    CongMod(b, m);
    CongRefl(a, m);
    CongRefl(b, m);
    CongMul(a % m, a, b, b, m);
    CongMul(a, a, b % m, b, m);
    CongSameMod(a % m * b, a * b, m);
    CongSameMod(a * (b % m), a * b, m);
  }

  lemma DividesMod(d: int, n: int)
    requires d > 0
    ensures Divides(d, n) <==> n % d == 0
  {
    CongSameMod(n, 0, d);
    ModSmall(0, d);
  }

  // ------------------------------------------------------------------
  // Primes

  ghost predicate Prime(p: int)
  {
    p >= 2 && forall d {:trigger Divides(d, p)} :: 2 <= d < p ==> !Divides(d, p)
  }

  /** The Euclidean algorithm with its two coefficients. */
  lemma {:induction false} Bezout(a: nat, b: nat) returns (g: nat, x: int, y: int)
    requires a > 0 || b > 0
    ensures g > 0 && g == a * x + b * y && Divides(g, a) && Divides(g, b)
    decreases b
  {
    if b == 0 {
      g, x, y := a, 1, 0;
      CongBy(a, 0, 1, g);
      CongBy(b, 0, 0, g);
    } else {
      var q, r := a / b, a % b;
      var x', y';
      g, x', y' := Bezout(b, r);
      x, y := y', x' - q * y';
      assert a == q * b + r;
      assert b * x' + r * y' == a * y' + b * (x' - q * y') by {
        assert r * y' == (a - q * b) * y' == a * y' - q * b * y';
        assert b * (x' - q * y') == b * x' - q * b * y';
      }
      var j :| DifferBy(b, 0, j, g);
      var k :| DifferBy(r, 0, k, g);
      assert a == (q * j + k) * g by { assert q * (j * g) + k * g == (q * j + k) * g; }
      CongBy(a, 0, q * j + k, g);
    }
  }

  lemma DivisorBound(d: nat, n: nat)
    requires n > 0 && Divides(d, n)
    ensures 0 < d <= n
  {
    var k :| DifferBy(n, 0, k, d);
    if d > n {
      if k >= 1 { MulMonotone(d, 1, k); } else { MulMonotone(d, k, 0); }
    }
  }

  /** A number that a prime does not divide has an inverse modulo the prime. */
  lemma InverseModPrime(a: int, p: int) returns (x: int)
    requires Prime(p) && !Divides(p, a)
    ensures Cong(a * x, 1, p) && 0 < x < p
  {
    var r := a % p;
    DividesMod(p, a);
    var g, u, v := Bezout(r, p);
    DivisorBound(g, p);
    if g == p {
      DivisorBound(p, r);
    }
    assert g == 1;
    x := u % p;
    CongBy(r * u, 1, -v, p);
    CongMod(a, p);
    CongMod(u, p);
    CongMul(a, r, x, u, p);
    CongTrans(a * x, r * u, 1, p);
    if x == 0 {
      CongSameMod(0, 1, p);
      ModSmall(0, p);
      ModSmall(1, p);
    }
  }

  /** Euclid's lemma. */
  lemma EuclidLemma(p: int, a: int, b: int)
    requires Prime(p) && Divides(p, a * b)
    ensures Divides(p, a) || Divides(p, b)
  {
    if !Divides(p, a) {
      var x := InverseModPrime(a, p);
      // b == (a x) b == (a b) x == 0
      CongRefl(b, p);
      CongRefl(x, p);
      CongMul(a * x, 1, b, b, p);
      CongMul(a * b, 0, x, x, p);
      assert (a * x) * b == (a * b) * x;
      CongSym((a * x) * b, 1 * b, p);
      CongTrans(b, (a * b) * x, 0, p);
    }
  }

  lemma {:induction false} PrimeDividesPow(p: int, a: int, e: nat)
    requires Prime(p) && e > 0
    ensures Divides(p, Pow(a, e)) <==> Divides(p, a)
  {
    if e == 1 {
      assert Pow(a, 1) == a * Pow(a, 0) == a;
    } else {
      PrimeDividesPow(p, a, e - 1);
      if Divides(p, a) {
        CongRefl(Pow(a, e - 1), p);
        CongMul(a, 0, Pow(a, e - 1), Pow(a, e - 1), p);
      } else if Divides(p, Pow(a, e)) {
        EuclidLemma(p, a, Pow(a, e - 1));
      }
    }
  }

  lemma CancelPrime(p: int, a: int, b: int, c: int)
    requires Prime(p) && !Divides(p, a) && Cong(a * b, a * c, p)
    ensures Cong(b, c, p)
  {
    var k :| DifferBy(a * b, a * c, k, p);
    CongBy(a * (b - c), 0, k, p);
    EuclidLemma(p, a, b - c);
    var j :| DifferBy(b - c, 0, j, p);
    CongBy(b, c, j, p);
  }

  /** Congruence modulo two distinct primes is congruence modulo their product. */
  lemma CongProduct(a: int, b: int, p: int, q: int)
    requires Prime(p) && Prime(q) && p != q
    ensures Cong(a, b, p * q) <==> Cong(a, b, p) && Cong(a, b, q)
  {
    hide Cong, Prime;
    if Cong(a, b, p * q) {
      CongFactors(a, b, p, q);
    }
    if Cong(a, b, p) && Cong(a, b, q) {
      CongBoth(a, b, p, q);
    }
  }

  lemma CongFactors(a: int, b: int, p: int, q: int)
    requires Cong(a, b, p * q)
    ensures Cong(a, b, p) && Cong(a, b, q)
  {
    var k :| DifferBy(a, b, k, p * q);
    hide Cong;
    var x, y := k * q, k * p;
    assert k * (p * q) == x * p == y * q;
    CongBy(a, b, x, p);
    CongBy(a, b, y, q);
  }

  lemma CongBoth(a: int, b: int, p: int, q: int)
    requires Prime(p) && Prime(q) && p != q
    requires Cong(a, b, p) && Cong(a, b, q)
    ensures Cong(a, b, p * q)
  {
    var j :| DifferBy(a, b, j, p);
    var k :| DifferBy(a, b, k, q);
    hide Cong;
    CongBy(j * p, 0, k, q);
    PrimesApart(p, q, j);
    QuotientFactor(j, q, p, a, b);
  }

  lemma PrimesApart(p: int, q: int, j: int)
    requires Prime(p) && Prime(q) && p != q && Divides(q, j * p)
    ensures Divides(q, j)
  {
    hide Cong;
    EuclidLemma(q, j, p);
    if Divides(q, p) {
      DivisorBound(q, p);
    }
  }

  lemma QuotientFactor(j: int, q: int, p: int, a: int, b: int)
    requires Divides(q, j) && DifferBy(a, b, j, p)
    ensures Cong(a, b, p * q)
  {
    var i :| DifferBy(j, 0, i, q);
    hide Cong;
    assert (i * q) * p == i * (p * q);
    CongBy(a, b, i, p * q);
  }
}

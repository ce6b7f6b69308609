/** The ESIGN trapdoor function of esign.cpp and its randomized inverse (primitives
    IFVP-ESIGN and IFSP-ESIGN of IEEE P1363a). */
module Esign {
  import opened Bits
  import opened NumberTheory
  import opened Wrappers

  /** A private key: n == p * p * q. */
  datatype Key = Key(n: nat, e: nat, p: nat, q: nat)

  ghost predicate ValidKey(key: Key)
  {
    Prime(key.p) && key.q > 1 && key.n == key.p * (key.p * key.q) && key.e >= 1
  }

  function K(n: nat): int { BitCount(n) / 3 - 1 }

  lemma KeySize(key: Key)
    requires ValidKey(key)
    ensures key.n >= 8 && K(key.n) >= 0 && Pow2(3 * K(key.n) + 2) <= key.n < Pow2(3 * K(key.n) + 5)
  {
    MulMonotone(key.p, 2, key.q);
    MulMonotone(key.p, 4, key.p * key.q);
    BitCountUpper(key.n, 3);
    assert Pow2(3) == 8;
    SizeOfImage(key.n);
  }

  /** K is a third of the size of the modulus, less one. */
  lemma SizeOfImage(n: nat)
    requires K(n) >= 0
    ensures Pow2(3 * K(n) + 2) <= n < Pow2(3 * K(n) + 5)
  {
    hide Pow2, BitCount;
    var c := BitCount(n);
    BitCountPositive(n);
    BitCountBound(n);
    Pow2Monotone(3 * K(n) + 2, c - 1);
    Pow2Monotone(c, 3 * K(n) + 5);
  }

  function Min(a: int, b: int): int { if a < b then a else b }

  function PowerMod(x: nat, e: nat, n: nat): (r: nat)
    requires n > 0
  {
    Pow(x, e) % n
  }

  /** The largest value the function can return: one below the image bound 2^k. */
  function MaxImage(n: nat): int
    requires K(n) >= 0
  {
    Pow2(K(n)) - 1
  }

  function ApplyFunction(n: nat, e: nat, x: nat): int
    requires n > 0 && K(n) >= 0
  {
    Min(Shr(PowerMod(x, e, n), 2 * K(n) + 2), MaxImage(n))
  }

  /** The image is below 2^K: the power shifted right, or the largest image if that is
      not below it. */
  lemma ImageRange(n: nat, e: nat, x: nat)
    requires n > 0 && K(n) >= 0
    ensures var y := ApplyFunction(n, e, x); var power := Pow(x, e) % n; var unit := Pow2(2 * K(n) + 2);
      && 0 <= y < Pow2(K(n))
      && (power >= (Pow2(K(n)) - 1) * unit ==> y == Pow2(K(n)) - 1)
      && (power < (Pow2(K(n)) - 1) * unit ==> y * unit <= power < (y + 1) * unit)
  {
    hide Pow, Pow2, Shr, K;
    var power, s := PowerMod(x, e, n), 2 * K(n) + 2;
    ShiftedRange(power, s);
    Steps(Shr(power, s), Pow2(K(n)) - 1, Pow2(s));
  }

  lemma ShiftedRange(power: nat, s: nat)
    ensures Shr(power, s) * Pow2(s) <= power < (Shr(power, s) + 1) * Pow2(s)
  {
    hide Pow2, Shr, Shl, Low;
    var h, unit := Shr(power, s), Pow2(s);
    SplitLow(power, s);
    ShlPow2(h, s);
    assert (h + 1) * unit == h * unit + unit;
  }

  lemma Steps(h: nat, top: nat, unit: nat)
    ensures h >= top ==> h * unit >= top * unit
    ensures h < top ==> (h + 1) * unit <= top * unit
  {
    if h >= top {
      MulMonotone(unit, top, h);
    } else {
      MulMonotone(unit, h + 1, top);
    }
  }

  /** The loop accepts a draw if the rounding has added less than 2^(2 K + 1). */
  lemma AcceptedRounding(key: Key, d: Draw)
    requires K(key.n) >= 0
    ensures Accepted(key, d) <==> 0 <= d.w1 < Pow2(2 * K(key.n) + 1)
  {
    hide Pow2, Shr, Shl, K;
    if d.w1 >= 0 {
      var s := 2 * K(key.n) + 1;
      SplitLow(d.w1, s);
      ShlPow2(Shr(d.w1, s), s);
      if Shr(d.w1, s) >= 1 {
        MulMonotone(Pow2(s), 1, Shr(d.w1, s));
      }
    }
  }

  /** InverseMod of Integer: the inverse, or zero when there is none. */
  function ModInverse(a: nat, m: nat): (x: nat)
    requires m > 0
    ensures (exists y :: IsModInverse(a, y, m)) ==> IsModInverse(a, x, m)
    ensures a % m == 0 ==> x == 0
  {
    var x := FindInverse(a, m, m);
    assert a % m == 0 ==> x == 0 by {
      if a % m == 0 && x != 0 { DivisibleHasNone(a, x, m); }
    }
    x
  }

  predicate IsModInverse(a: nat, x: nat, m: nat)
    requires m > 0
  {
    0 < x < m && (a * x) % m == 1
  }

  function FindInverse(a: nat, m: nat, bound: nat): (x: nat)
    requires m > 0
    ensures x == 0 || IsModInverse(a, x, m)
    ensures x == 0 ==> forall y :: 0 < y < bound ==> !IsModInverse(a, y, m)
  {
    if bound == 0 then 0
    else if IsModInverse(a, bound - 1, m) then bound - 1
    else FindInverse(a, m, bound - 1)
  }

  lemma DivisibleHasNone(a: nat, x: nat, m: nat)
    requires m > 0 && a % m == 0
    ensures !IsModInverse(a, x, m)
  {
    ModMul(a, x, m);
  }

  /** One draw of the loop: a = (z - r^e) mod n, rounded up to a multiple w0 of pq,
      w1 being what the rounding added. */
  datatype Draw = Draw(re: int, a: int, w0: int, w1: int)

  function TryDraw(key: Key, x: nat, r: nat): (d: Draw)
    requires key.n > 0 && K(key.n) >= 0 && key.p * key.q > 0
  {
    var pq := key.p * key.q;
    var z := Shl(x, 2 * K(key.n) + 2);
    var re := PowerMod(r, key.e, key.n);
    var a := (z - re) % key.n;
    var w1, w0 := a % pq, a / pq;
    if w1 != 0 then Draw(re, a, w0 + 1, pq - w1) else Draw(re, a, w0, w1)
  }

  predicate Accepted(key: Key, d: Draw)
    requires K(key.n) >= 0
  {
    d.w1 >= 0 && Shr(d.w1, 2 * K(key.n) + 1) == 0
  }

  function Preimage(key: Key, r: nat, d: Draw): int
    requires key.p > 0 && d.w0 >= 0 && d.re >= 0
  {
    var p, pq := key.p, key.p * key.q;
    var t := (((d.w0 * r) % p) * ModInverse((key.e * d.re) % p, p)) % p;
    r + t * pq
  }

  lemma DrawFacts(key: Key, x: nat, r: nat)
    requires ValidKey(key)
    ensures key.n > 0 && K(key.n) >= 0 && key.p * key.q > 0
    ensures var d := TryDraw(key, x, r);
            && 0 <= d.re < key.n && 0 <= d.a < key.n && 0 <= d.w0 && 0 <= d.w1 < key.p * key.q
            && d.w0 * (key.p * key.q) == d.a + d.w1
            && Cong(d.a, Shl(x, 2 * K(key.n) + 2) - d.re, key.n)
            && Cong(d.re, Pow(r, key.e), key.n)
  {
    hide TryDraw, Shl, Pow, K, Cong, Prime;
    KeySize(key);
    PositiveFactors(key);
    DrawRounds(key, x, r);
    DrawResidues(key, x, r);
  }

  /** w0 pq is a rounded up. */
  lemma DrawRounds(key: Key, x: nat, r: nat)
    requires key.n > 0 && K(key.n) >= 0 && key.p * key.q > 0
    ensures var d := TryDraw(key, x, r);
            && 0 <= d.a < key.n && 0 <= d.w0 && 0 <= d.w1 < key.p * key.q
            && d.w0 * (key.p * key.q) == d.a + d.w1
  {
    hide Shl, K, PowerMod;
    RoundUp((Shl(x, 2 * K(key.n) + 2) - PowerMod(r, key.e, key.n)) % key.n, key.p * key.q);
  }

  lemma DrawResidues(key: Key, x: nat, r: nat)
    requires key.n > 0 && K(key.n) >= 0 && key.p * key.q > 0
    ensures var d := TryDraw(key, x, r);
            && 0 <= d.re < key.n
            && Cong(d.a, Shl(x, 2 * K(key.n) + 2) - d.re, key.n)
            && Cong(d.re, Pow(r, key.e), key.n)
  {
    hide Shl, Pow, K, Cong;
    PowNat(r, key.e);
    CongMod(Pow(r, key.e), key.n);
    CongMod(Shl(x, 2 * K(key.n) + 2) - PowerMod(r, key.e, key.n), key.n);
  }

  lemma PositiveFactors(key: Key)
    requires ValidKey(key)
    ensures key.p >= 2 && key.q >= 2 && key.p * key.q > 0 && key.n == key.p * (key.p * key.q)
  {
    MulMonotone(key.p, 1, key.q);
  }

  lemma RoundUp(a: nat, m: nat)
    requires m > 0
    ensures (a / m) * m + a % m == a && (a / m + 1) * m == a + (m - a % m)
  {
    assert (a / m + 1) * m == (a / m) * m + m;
  }

  // ------------------------------------------------------------------

  /** Only the first-order term of (r + d)^e survives modulo anything d * d is a
      multiple of. */
  lemma {:induction false} FirstOrder(r: int, d: int, e: nat) returns (c: int)
    requires e >= 1
    ensures Pow(r + d, e) == Pow(r, e) + e * Pow(r, e - 1) * d + c * (d * d)
  {
    if e == 1 {
      c := 0;
      assert Pow(r + d, 1) == (r + d) * Pow(r + d, 0) == r + d;
      assert Pow(r, 1) == r * Pow(r, 0) == r;
      assert Pow(r, 0) == 1;
    } else {
      var c' := FirstOrder(r, d, e - 1);
      var u, v := Pow(r, e - 1), Pow(r, e - 2);
      assert u == r * v;
      c := (e - 1) * v + c' * (r + d);
      FirstOrderStep(r, d, e, u, v, c');
    }
  }

  lemma FirstOrderStep(r: int, d: int, e: int, u: int, v: int, c: int)
    requires u == r * v
    ensures (r + d) * (u + (e - 1) * v * d + c * (d * d))
         == r * u + e * u * d + ((e - 1) * v + c * (r + d)) * (d * d)
  {
    assert (r + d) * u == r * u + u * d;
    assert r * ((e - 1) * v * d) == (e - 1) * (r * v) * d;
    assert d * ((e - 1) * v * d) == ((e - 1) * v) * (d * d);
    assert (r + d) * (c * (d * d)) == (c * (r + d)) * (d * d);
    assert (r + d) * ((e - 1) * v * d) == r * ((e - 1) * v * d) + d * ((e - 1) * v * d);
    assert (e - 1) * u * d == e * u * d - u * d;
  }

  /** t solves e * r^(e-1) * t == w0 modulo p. */
  lemma TEquation(p: int, r: int, e: int, u: int, re: int, w0: int, i: int, t: int)
    requires Prime(p) && !Divides(p, r)
    requires Cong(re, r * u, p) && Cong(e * re * i, 1, p) && Cong(t, w0 * r * i, p)
    ensures Cong(e * u * t, w0, p)
  {
    hide Prime, Divides;
    // r (e u t) == (e re) t == (e re i) (w0 r) == r w0
    CongRefl(e * re, p);
    CongMul(e * re, e * re, t, w0 * r * i, p);
    CongRefl(w0 * r, p);
    CongMul(e * re * i, 1, w0 * r, w0 * r, p);
    assert (e * re) * (w0 * r * i) == (e * re * i) * (w0 * r);
    CongTrans((e * re) * t, (e * re) * (w0 * r * i), 1 * (w0 * r), p);
    CongRefl(e * t, p);
    CongMul(e * t, e * t, re, r * u, p);
    CongSym((e * t) * re, (e * t) * (r * u), p);
    assert (e * t) * re == (e * re) * t;
    assert (e * t) * (r * u) == r * (e * u * t);
    assert 1 * (w0 * r) == r * w0;
    CongTrans(r * (e * u * t), (e * re) * t, r * w0, p);
    CancelPrime(p, r, e * u * t, w0);
  }

  /** The e-th power of r + t * pq modulo p * pq. */
  lemma PowerOfSum(p: int, q: int, r: int, t: int, e: nat, w0: int)
    requires e >= 1 && Cong(e * Pow(r, e - 1) * t, w0, p)
    ensures Cong(Pow(r + t * (p * q), e), Pow(r, e) + w0 * (p * q), p * (p * q))
  {
    hide Pow;
    var m := p * q;
    var d := t * m;
    var c := FirstOrder(r, d, e);
    var f := e * Pow(r, e - 1);
    var j :| DifferBy(f * t, w0, j, p);
    assert f * d == (f * t) * m;
    assert (w0 + j * p) * m == w0 * m + j * (p * m);
    assert d * d == (t * t * q) * (p * m) by { assert m * m == q * (p * m); }
    assert c * (d * d) == (c * (t * t * q)) * (p * m);
    assert (j + c * (t * t * q)) * (p * m) == j * (p * m) + (c * (t * t * q)) * (p * m);
    CongBy(Pow(r + d, e), Pow(r, e) + w0 * m, j + c * (t * t * q), p * m);
  }

  /** Dropping a factor of the modulus. */
  lemma CongFactor(a: int, b: int, p: int, m: int)
    requires Cong(a, b, p * m)
    ensures Cong(a, b, p)
  {
    var k :| DifferBy(a, b, k, p * m);
    assert k * (p * m) == (k * m) * p;
    CongBy(a, b, k * m, p);
  }

  /** The t that CalculateRandomizedInverse computes. */
  lemma QuotientCorrect(key: Key, r: nat, d: Draw)
    requires ValidKey(key) && d.w0 >= 0 && d.re >= 0
    requires Cong(d.re, Pow(r, key.e), key.n) && !Divides(key.p, r) && !Divides(key.p, key.e)
    ensures var t := (((d.w0 * r) % key.p) * ModInverse((key.e * d.re) % key.p, key.p)) % key.p;
            Cong(key.e * Pow(r, key.e - 1) * t, d.w0, key.p)
  {
    var p, e := key.p, key.e;
    assert Pow(r, e) == r * Pow(r, e - 1);
    hide Prime, Cong, Divides, Pow, IsModInverse;
    CongFactor(d.re, Pow(r, e), p, p * key.q);
    PowerNotDivisible(p, r, e);
    NotDivisibleProduct(p, e, d.re, Pow(r, e));
    var b := (e * d.re) % p;
    InverseExists(p, e * d.re);
    var i := ModInverse(b, p);
    InverseOfResidue(p, e * d.re, i);
    var w := (d.w0 * r) % p;
    var t := (w * i) % p;
    CongMod(d.w0 * r, p);
    CongRefl(i, p);
    CongMul(w, d.w0 * r, i, i, p);
    CongMod(w * i, p);
    CongTrans(t, w * i, d.w0 * r * i, p);
    TEquation(p, r, e, Pow(r, e - 1), d.re, d.w0, i, t);
  }

  lemma PowerNotDivisible(p: int, r: int, e: nat)
    requires Prime(p) && e >= 1 && !Divides(p, r)
    ensures !Divides(p, Pow(r, e))
  {
    PrimeDividesPow(p, r, e);
  }

  lemma NotDivisibleProduct(p: int, e: int, re: int, power: int)
    requires Prime(p) && !Divides(p, e) && Cong(re, power, p) && !Divides(p, power)
    ensures !Divides(p, e * re)
  {
    if Divides(p, e * re) {
      EuclidLemma(p, e, re);
      CongSym(re, power, p);
      CongTrans(power, re, 0, p);
    }
  }

  lemma InverseExists(p: nat, b: nat)
    requires Prime(p) && !Divides(p, b)
    ensures IsModInverse(b % p, ModInverse(b % p, p), p)
  {
    var x := InverseModPrime(b, p);
    CongSameMod(b * x, 1, p);
    ModSmall(1, p);
    ModMul(b, x, p);
    assert IsModInverse(b % p, x, p);
  }

  lemma InverseOfResidue(p: nat, b: nat, i: nat)
    requires p >= 2 && IsModInverse(b % p, i, p)
    ensures Cong(b * i, 1, p)
  {
    ModMul(b, i, p);
    ModSmall(1, p);
    CongSameMod(b * i, 1, p);
  }

  /** x, shifted up, plus a small remainder fits below n and shifts back to x. */
  lemma RoomForRemainder(n: nat, x: nat, w1: nat)
    requires K(n) >= 0 && Pow2(3 * K(n) + 2) <= n
    requires x < Pow2(K(n)) && Shr(w1, 2 * K(n) + 1) == 0
    ensures 0 <= Shl(x, 2 * K(n) + 2) + w1 < n
    ensures Shr(Shl(x, 2 * K(n) + 2) + w1, 2 * K(n) + 2) == x
  {
    hide Shl, Shr, Pow2, K;
    var k := K(n);
    var s := 2 * k + 2;
    ShrSmall(w1, 2 * k + 1);
    Pow2Monotone(2 * k + 1, s);
    SplitUnique(x, w1, s);
    ShlMonotone(x + 1, Pow2(k), s);
    ShlAdd(x, 1, s);
    ShlOne(s);
    ShlOne(k);
    ShlShl(1, k, s);
    ShlOne(k + s);
  }

  /** The power of the preimage is z plus what rounding up added. */
  lemma PowerOfPreimage(key: Key, x: nat, r: nat)
    requires ValidKey(key) && K(key.n) >= 0 && key.n > 0 && key.p * key.q > 0
    requires !Divides(key.p, r) && !Divides(key.p, key.e)
    ensures TryDraw(key, x, r).w0 >= 0 && TryDraw(key, x, r).re >= 0
    ensures Preimage(key, r, TryDraw(key, x, r)) >= 0
    ensures Cong(Pow(Preimage(key, r, TryDraw(key, x, r)), key.e), Shl(x, 2 * K(key.n) + 2) + TryDraw(key, x, r).w1, key.n)
  {
    DrawFacts(key, x, r);
    var d := TryDraw(key, x, r);
    var p, n, m, e := key.p, key.n, key.p * key.q, key.e;
    var t := (((d.w0 * r) % p) * ModInverse((e * d.re) % p, p)) % p;
    var s := r + t * m;
    assert s == Preimage(key, r, d);
    MulMonotone(m, 0, t);
    hide Prime, Cong, Divides, Pow, K, TryDraw, Shl, Shr, Pow2, ModInverse, Preimage;
    QuotientCorrect(key, r, d);
    PowerOfSum(p, key.q, r, t, e, d.w0);
    var z := Shl(x, 2 * K(n) + 2);
    // s^e == r^e + w0 pq == re + (z - re) + w1
    CongSym(d.re, Pow(r, e), n);
    CongRefl(d.w1, n);
    CongAdd(d.a, z - d.re, d.w1, d.w1, n);
    CongAdd(Pow(r, e), d.re, d.a + d.w1, z - d.re + d.w1, n);
    CongTrans(Pow(s, e), Pow(r, e) + d.w0 * m, z + d.w1, n);
  }

  /** The signature theorem: every accepted draw r that p does not divide gives a
      preimage of x below n. */
  lemma SignatureCorrect(key: Key, x: nat, r: nat)
    requires ValidKey(key) && K(key.n) >= 0 && x < Pow2(K(key.n)) && r <= key.p * key.q
    requires !Divides(key.p, r) && !Divides(key.p, key.e)
    requires key.n > 0 && key.p * key.q > 0 && Accepted(key, TryDraw(key, x, r))
    ensures TryDraw(key, x, r).w0 >= 0 && TryDraw(key, x, r).re >= 0
    ensures 0 <= Preimage(key, r, TryDraw(key, x, r)) < key.n
    ensures ApplyFunction(key.n, key.e, Preimage(key, r, TryDraw(key, x, r))) == x
  {
    var d, n, e := TryDraw(key, x, r), key.n, key.e;
    PowerOfPreimage(key, x, r);
    var s := Preimage(key, r, d);
    var z := Shl(x, 2 * K(n) + 2);
    KeySize(key);
    SmallPreimage(key, r, d);
    hide Prime, Cong, Divides, Pow, K, TryDraw, Shl, Shr, Pow2, ModInverse, Preimage;
    RoomForRemainder(n, x, d.w1);
    CongSameMod(Pow(s, e), z + d.w1, n);
    ModSmall(z + d.w1, n);
  }

  lemma SmallPreimage(key: Key, r: nat, d: Draw)
    requires ValidKey(key) && r <= key.p * key.q && d.w0 >= 0 && d.re >= 0 && !Divides(key.p, r)
    ensures 0 <= Preimage(key, r, d) < key.n
  {
    hide Prime, Cong, ModInverse;
    var p, m := key.p, key.p * key.q;
    PositiveFactors(key);
    CongBy(m, 0, key.q, p);
    PreimageBound(p, m, r, (((d.w0 * r) % p) * ModInverse((key.e * d.re) % p, p)) % p);
  }

  lemma PreimageBound(p: int, m: int, r: int, t: int)
    requires p >= 2 && m > 0 && 0 <= r <= m && 0 <= t < p && !Divides(p, r) && Divides(p, m)
    ensures 0 <= r + t * m < p * m
  {
    assert r != m;
    MulMonotone(m, t, p - 1);
    MulMonotone(m, 0, t);
    assert m * (p - 1) == p * m - m;
  }

  // ------------------------------------------------------------------
  // Draws that p divides

  /** r's own power already falls into the interval of x; the largest image also
      takes what lies above its interval. */
  predicate PowerInInterval(key: Key, x: nat, r: nat)
    requires key.n > 0 && K(key.n) >= 0
  {
    var z := Shl(x, 2 * K(key.n) + 2);
    var re := PowerMod(r, key.e, key.n);
    z <= re && (x == MaxImage(key.n) || re < z + Pow2(2 * K(key.n) + 2))
  }

  /** When p divides r or e the division by zero yields t == 0, and the result is
      r itself. */
  lemma DegenerateDraw(key: Key, x: nat, r: nat)
    requires ValidKey(key) && K(key.n) >= 0 && key.n > 0 && key.p * key.q > 0
    requires Divides(key.p, r) || Divides(key.p, key.e)
    ensures TryDraw(key, x, r).w0 >= 0 && TryDraw(key, x, r).re >= 0
    ensures Preimage(key, r, TryDraw(key, x, r)) == r
  {
    DrawFacts(key, x, r);
    var d := TryDraw(key, x, r);
    hide Prime, Divides, TryDraw, ModInverse, K, Pow;
    DenominatorVanishes(key, r, d.re);
    var b := (key.e * d.re) % key.p;
    assert b == 0 && b % key.p == 0;
    assert ModInverse(b, key.p) == 0;
    assert ((d.w0 * r) % key.p) * 0 == 0;
    ModSmall(0, key.p);
  }

  lemma DenominatorVanishes(key: Key, r: nat, re: int)
    requires ValidKey(key) && Cong(re, Pow(r, key.e), key.n)
    requires Divides(key.p, r) || Divides(key.p, key.e)
    ensures (key.e * re) % key.p == 0
  {
    var p, e := key.p, key.e;
    if Divides(p, r) {
      PrimeDividesPow(p, r, e);
      CongFactor(re, Pow(r, e), p, p * key.q);
      CongTrans(re, Pow(r, e), 0, p);
      CongRefl(e, p);
      CongMul(e, e, re, 0, p);
    } else {
      CongRefl(re, p);
      CongMul(e, 0, re, re, p);
    }
    DividesMod(p, e * re);
  }

  lemma IntervalOfImage(n: nat, x: nat, re: nat)
    requires n > 0 && K(n) >= 0 && x < Pow2(K(n))
    ensures Min(Shr(re, 2 * K(n) + 2), MaxImage(n)) == x
       <==> Shl(x, 2 * K(n) + 2) <= re && (x == MaxImage(n) || re < Shl(x, 2 * K(n) + 2) + Pow2(2 * K(n) + 2))
  {
    hide Shl, Shr, Pow2, K;
    var s := 2 * K(n) + 2;
    var h := Shr(re, s);
    SplitLow(re, s);
    ShlMonotone(h, x, s);
    ShlMonotone(x, h, s);
    ShlAdd(h, 1, s);
    ShlAdd(x, 1, s);
    ShlOne(s);
    ShlMonotone(h + 1, x, s);
    ShlMonotone(x + 1, h, s);
  }

  /** Exactly when an accepted draw gives a preimage of x.  If p divides r or e, the
      preimage is r itself, and the power of r can be compared with the interval before
      the call. */
  lemma SignatureExact(key: Key, x: nat, r: nat)
    requires ValidKey(key) && K(key.n) >= 0 && x < Pow2(K(key.n)) && r <= key.p * key.q
    requires key.n > 0 && key.p * key.q > 0 && Accepted(key, TryDraw(key, x, r))
    ensures TryDraw(key, x, r).w0 >= 0 && TryDraw(key, x, r).re >= 0
    ensures Preimage(key, r, TryDraw(key, x, r)) >= 0
    ensures ApplyFunction(key.n, key.e, Preimage(key, r, TryDraw(key, x, r))) == x
       <==> (!Divides(key.p, r) && !Divides(key.p, key.e)) || PowerInInterval(key, x, r)
  {
    if !Divides(key.p, r) && !Divides(key.p, key.e) {
      SignatureCorrect(key, x, r);
    } else {
      hide Prime, Divides, TryDraw, K, Preimage;
      DegenerateDraw(key, x, r);
      IntervalOfImage(key.n, x, PowerMod(r, key.e, key.n));
    }
  }

  /** A draw that is accepted and does not give a preimage: r == 0. */
  lemma ZeroDrawFails()
    ensures var key := Key(1573, 8, 11, 13);
            && ValidKey(key) && K(key.n) == 2 && 2 < Pow2(2)
            && Accepted(key, TryDraw(key, 2, 0))
            && TryDraw(key, 2, 0).w0 >= 0 && TryDraw(key, 2, 0).re >= 0
            && Preimage(key, 0, TryDraw(key, 2, 0)) == 0
            && ApplyFunction(key.n, key.e, 0) != 2
  {
    var key := Key(1573, 8, 11, 13);
    ElevenIsPrime();
    SmallKeySize();
    ZeroDraw();
    ShrSmall(15, 2 * K(1573) + 1);
    assert Pow2(5) == 32;
    CongBy(0, 0, 0, 11);
    DegenerateDraw(key, 2, 0);
    ZeroPower(8);
    ModSmall(0, 1573);
    ShrSmall(0, 2 * K(1573) + 2);
  }

  lemma ElevenIsPrime()
    ensures Prime(11)
  {
    forall d {:trigger Divides(d, 11)} | 2 <= d < 11
      ensures !Divides(d, 11)
    {
      DividesMod(d, 11);
    }
  }

  lemma SmallKeySize()
    ensures K(1573) == 2
  {
    assert BitCount(1573) == 11;
  }

  lemma ZeroDraw()
    ensures K(1573) == 2 && TryDraw(Key(1573, 8, 11, 13), 2, 0) == Draw(0, 128, 1, 15)
  {
    SmallKeySize();
    hide K, Pow;
    ZeroPower(8);
    ModSmall(0, 1573);
    assert Shl(2, 6) == 128;
  }

  lemma {:induction false} ZeroPower(e: nat)
    requires e > 0
    ensures Pow(0, e) == 0
  {
  }

  // ------------------------------------------------------------------

  /** Draw i is the first that is accepted, and s is computed from it. */
  ghost predicate FirstPreimage(key: Key, x: nat, rng: seq<nat>, i: nat, s: int)
    requires K(key.n) >= 0 && key.n > 0 && key.p * key.q > 0
  {
    && i < |rng| && Accepted(key, TryDraw(key, x, rng[i]))
    && (forall j :: 0 <= j < i ==> !Accepted(key, TryDraw(key, x, rng[j])))
    && TryDraw(key, x, rng[i]).w0 >= 0 && TryDraw(key, x, rng[i]).re >= 0 && key.p > 0
    && s == Preimage(key, rng[i], TryDraw(key, x, rng[i]))
  }

  /** CalculateRandomizedInverse, with the random draws given as a list; None when
      the list runs out before a draw is accepted. */
  method CalculateRandomizedInverse(key: Key, x: nat, rng: seq<nat>) returns (result: Option<nat>)
    requires ValidKey(key) && K(key.n) >= 0 && key.n > 0 && key.p * key.q > 0
    requires x < Pow2(K(key.n)) && forall i :: 0 <= i < |rng| ==> rng[i] <= key.p * key.q
    ensures result.None? <==> forall i :: 0 <= i < |rng| ==> !Accepted(key, TryDraw(key, x, rng[i]))
    ensures result.Some? ==> exists i :: FirstPreimage(key, x, rng, i, result.value)
    ensures result.Some? && !Divides(key.p, key.e) && (forall i :: 0 <= i < |rng| ==> !Divides(key.p, rng[i]))
            ==> result.value < key.n && ApplyFunction(key.n, key.e, result.value) == x
  {
    hide Prime, Divides, TryDraw, Accepted, Preimage, ApplyFunction, K;
    for i := 0 to |rng|
      invariant forall j :: 0 <= j < i ==> !Accepted(key, TryDraw(key, x, rng[j]))
    {
      var r := rng[i];
      var draw := TryDraw(key, x, r);
      if Accepted(key, draw) {
        SignatureExact(key, x, r);
        var s := Preimage(key, r, draw);
        if !Divides(key.p, key.e) && !Divides(key.p, r) {
          SignatureCorrect(key, x, r);
        }
        assert FirstPreimage(key, x, rng, i, s);
        return Some(s);
      }
    }
    result := None;
  }
}

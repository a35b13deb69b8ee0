/**
 * Arithmetic modulo Polynomial.PRIME = 2^128 + 51, the field all secret
 * sharing is done in, with `BigInteger.mod` (Dafny's `%` with a positive
 * divisor has the same non-negative result) and `BigInteger.modInverse`
 * (extended Euclid; fails exactly when no inverse exists).
 *
 * Nothing here relies on PRIME being prime: a value is called a unit when
 * it has an inverse modulo PRIME, which is the condition `modInverse`
 * checks.
 */
module Field {
  import opened Jvm

  const PRIME: int := 0x1_0000_0000_0000_0000_0000_0000_0000_0033

  predicate Congruent(a: int, b: int) {
    a % PRIME == b % PRIME
  }

  lemma ModShift(m: int, t: int)
    ensures (PRIME * m + t) % PRIME == t % PRIME
  {
  }

  lemma CongruentMod(a: int)
    ensures Congruent(a % PRIME, a)
  {
  }

  lemma CongruentAdd(a: int, b: int, c: int)
    requires Congruent(a, b)
    ensures Congruent(a + c, b + c)
  {
    ModShift(a / PRIME, a % PRIME + c);
    ModShift(b / PRIME, b % PRIME + c);
  }

  lemma CongruentMul(a: int, b: int, c: int)
    requires Congruent(a, b)
    ensures Congruent(a * c, b * c)
  {
    var qa, qb, r := a / PRIME, b / PRIME, a % PRIME;
    assert a * c == PRIME * (qa * c) + r * c;
    assert b * c == PRIME * (qb * c) + r * c;
    ModShift(qa * c, r * c);
    ModShift(qb * c, r * c);
  }

  /** Congruence is preserved by sums and products of congruent operands. */
  lemma CongruentSum(a: int, a': int, b: int, b': int)
    requires Congruent(a, a') && Congruent(b, b')
    ensures Congruent(a + b, a' + b')
  {
    CongruentAdd(a, a', b);
    CongruentAdd(b, b', a');
  }

  lemma CongruentProduct(a: int, a': int, b: int, b': int)
    requires Congruent(a, a') && Congruent(b, b')
    ensures Congruent(a * b, a' * b')
  {
    CongruentMul(a, a', b);
    CongruentMul(b, b', a');
  }

  predicate InverseOf(d: int, u: int) {
    (d * u) % PRIME == 1
  }

  /** `d` has a multiplicative inverse modulo PRIME. */
  ghost predicate IsUnit(d: int) {
    exists u :: InverseOf(d, u)
  }

  lemma OneIsUnit()
    ensures IsUnit(1)
  {
    assert InverseOf(1, 1);
  }

  /** A value congruent to zero (in particular the difference of two equal x's) has no inverse. */
  lemma ZeroNotUnit(d: int)
    requires Congruent(d, 0)
    ensures !IsUnit(d)
  {
    if u :| InverseOf(d, u) {
      CongruentMul(d, 0, u);
    }
  }

  lemma UnitCongruent(a: int, b: int)
    requires Congruent(a, b)
    ensures IsUnit(a) <==> IsUnit(b)
  {
    if u :| InverseOf(a, u) {
      CongruentMul(a, b, u);
      assert InverseOf(b, u);
    }
    if u :| InverseOf(b, u) {
      CongruentMul(b, a, u);
      assert InverseOf(a, u);
    }
  }

  /** A product is a unit exactly when both factors are. */
  lemma UnitMul(a: int, b: int)
    ensures IsUnit(a * b) <==> IsUnit(a) && IsUnit(b)
  {
    if u :| InverseOf(a * b, u) {
      assert (a * b) * u == a * (b * u) == b * (a * u);
      assert InverseOf(a, b * u);
      assert InverseOf(b, a * u);
    }
    if IsUnit(a) && IsUnit(b) {
      var u :| InverseOf(a, u);
      var v :| InverseOf(b, v);
      assert (a * b) * (u * v) == (a * u) * (b * v);
      CongruentProduct(a * u, 1, b * v, 1);
      assert InverseOf(a * b, u * v);
    }
  }

  lemma UnitNeg(a: int)
    ensures IsUnit(-a) <==> IsUnit(a)
  {
    if u :| InverseOf(a, u) {
      assert (-a) * (-u) == a * u;
      assert InverseOf(-a, -u);
    }
    var na := -a;
    if u :| InverseOf(na, u) {
      assert a * (-u) == na * u;
      assert InverseOf(a, -u);
    }
  }

  /** Multiplying by a unit loses nothing: d * q == 0 forces q == 0 (modulo PRIME). */
  lemma CancelUnit(d: int, q: int)
    requires IsUnit(d) && Congruent(d * q, 0)
    ensures Congruent(q, 0)
  {
    var u :| InverseOf(d, u);
    assert (d * u) * q == (d * q) * u;
    CongruentMul(d * q, 0, u);
    CongruentMul(d * u, 1, q);
  }

  datatype Bezout = Bezout(g: int, s: int, t: int)

  /** The extended Euclidean algorithm: g = gcd(a, b) together with s, t such that s*a + t*b == g. */
  function ExtendedGcd(a: nat, b: nat): Bezout
    decreases b
  {
    if b == 0 then Bezout(a, 1, 0)
    else
      var e := ExtendedGcd(b, a % b);
      Bezout(e.g, e.t, e.s - (a / b) * e.t)
  }

  /** Bezout's identity: s*a + t*b == g. */
  lemma {:induction false} ExtendedGcdBezout(a: nat, b: nat)
    ensures var e := ExtendedGcd(a, b); e.s * a + e.t * b == e.g
    decreases b
  {
    if b > 0 {
      var q, r := a / b, a % b;
      DivisionIdentity(a, b);
      var e := ExtendedGcd(b, r);
      ExtendedGcdBezout(b, r);
      assert ExtendedGcd(a, b) == Bezout(e.g, e.t, e.s - q * e.t);
      BezoutStep(a, b, q, r, e.s, e.t);
    }
  }

  /** The arithmetic of one Euclid step for the Bezout coefficients. */
  lemma BezoutStep(a: int, b: int, q: int, r: int, s: int, t: int)
    requires a == q * b + r
    ensures t * a + (s - q * t) * b == s * b + t * r
  {
    calc {
      t * a + (s - q * t) * b;
      t * (q * b + r) + s * b - q * t * b;
      s * b + t * r;
    }
  }

  /** g divides both a and b (with the cofactors returned), and is positive unless both are zero. */
  lemma {:induction false} ExtendedGcdDivides(a: nat, b: nat) returns (ca: int, cb: int)
    ensures var g := ExtendedGcd(a, b).g; a == g * ca && b == g * cb && (a > 0 || b > 0 ==> g > 0)
    decreases b
  {
    if b == 0 {
      ca, cb := 1, 0;
    } else {
      var q, r := a / b, a % b;
      DivisionIdentity(a, b);
      var g := ExtendedGcd(b, r).g;
      var c1, c2 := ExtendedGcdDivides(b, r);
      assert ExtendedGcd(a, b).g == g;
      DividesStep(a, b, q, r, g, c1, c2);
      ca, cb := q * c1 + c2, c1;
    }
  }

  lemma DivisionIdentity(a: nat, b: nat)
    requires b > 0
    ensures a == (a / b) * b + a % b && 0 <= a % b < b
  {
  }

  /** The arithmetic of one Euclid step for the cofactors of the gcd. */
  lemma DividesStep(a: int, b: int, q: int, r: int, g: int, c1: int, c2: int)
    requires a == q * b + r && b == g * c1 && r == g * c2
    ensures a == g * (q * c1 + c2)
  {
    calc {
      a;
      q * (g * c1) + g * c2;
      g * (q * c1 + c2);
    }
  }

  /** When gcd(d mod PRIME, PRIME) != 1 no inverse exists. */
  lemma NoInverseUnlessCoprime(d: int)
    requires ExtendedGcd(d % PRIME, PRIME).g != 1
    ensures !IsUnit(d)
  {
    forall u
      ensures !InverseOf(d, u)
    {
      NotInverse(d, u);
    }
  }

  lemma NotInverse(d: int, u: int)
    requires ExtendedGcd(d % PRIME, PRIME).g != 1
    ensures !InverseOf(d, u)
  {
    var a := d % PRIME;
    var g := ExtendedGcd(a, PRIME).g;
    var ca, cb := ExtendedGcdDivides(a, PRIME);
    if InverseOf(d, u) {
      var q, t := (d * u) / PRIME, d / PRIME;
      assert d * u == PRIME * q + 1;
      assert d == PRIME * t + a;
      OneAsMultiple(d, u, PRIME, q, t, a, g, ca, cb);
      NoUnitDivisor(g, (cb * t + ca) * u - cb * q);
    }
  }

  /** If d*u == p*q + 1 and g divides both p and d's remainder a, then g divides 1. */
  lemma OneAsMultiple(d: int, u: int, p: int, q: int, t: int, a: int, g: int, ca: int, cb: int)
    requires d * u == p * q + 1 && d == p * t + a && a == g * ca && p == g * cb
    ensures 1 == g * ((cb * t + ca) * u - cb * q)
  {
    calc {
      1;
      d * u - p * q;
      (p * t + a) * u - p * q;
      (g * cb * t + g * ca) * u - g * cb * q;
      g * ((cb * t + ca) * u - cb * q);
    }
  }

  lemma NoUnitDivisor(g: int, k: int)
    requires g > 1
    ensures g * k != 1
  {
    if k <= 0 {
      assert g * k <= 0;
    } else {
      assert g * k >= g;
    }
  }

  /** A Bezout identity u*a + t*PRIME == 1 makes u (reduced) an inverse of anything congruent to a. */
  lemma BezoutInverse(a: int, d: int, u: int, t: int)
    requires u * a + t * PRIME == 1 && Congruent(a, d)
    ensures InverseOf(d, u % PRIME)
  {
    assert a * u == PRIME * (-t) + 1;
    ModShift(-t, 1);
    CongruentMul(a, d, u);
    CongruentMod(u);
    CongruentMul(u % PRIME, u, d);
    assert d * (u % PRIME) == (u % PRIME) * d;
    assert d * u == u * d;
  }

  /**
   * `d.modInverse(PRIME)`: the inverse in [0, PRIME), or the
   * ArithmeticException "not invertible" when gcd(d, PRIME) != 1.
   */
  function ModInverse(d: int): (r: Result<int>)
    ensures r.Ok? <==> IsUnit(d)
    ensures r.Ok? ==> 0 <= r.value < PRIME && InverseOf(d, r.value)
    ensures r.Err? ==> r.error == NotInvertible
  {
    var a := d % PRIME;
    var e := ExtendedGcd(a, PRIME);
    if e.g == 1 then
      ExtendedGcdBezout(a, PRIME);
      CongruentMod(d);
      BezoutInverse(a, d, e.s, e.t);
      Ok(e.s % PRIME)
    else
      NoInverseUnlessCoprime(d);
      Err(NotInvertible)
  }
}

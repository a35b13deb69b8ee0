/**
 * Polynomial.java: Shamir secret sharing over the field of integers modulo
 * PRIME.  Each static method of the class is a method here with the same
 * loops; each is proved against a recursive specification function, and
 * the properties of those functions are proved as lemmas (here and in
 * module Lagrange).
 *
 * `SecureRandom` is replaced by a finite list of raw draws, each a
 * 129-bit value as `new BigInteger(PRIME.bitLength(), rng)` produces; the
 * methods that consume randomness say how many draws they used.
 */
module Polynomial {
  import opened Jvm
  import opened Points
  import opened Field

  /** 2^PRIME.bitLength() = 2^129: every raw draw is below this. */
  const DRAW_BOUND: int := 0x2_0000_0000_0000_0000_0000_0000_0000_0000

  predicate ValidDraws(draws: seq<int>) {
    forall i :: 0 <= i < |draws| ==> 0 <= draws[i] < DRAW_BOUND
  }

  /** The draws the rejection loop of randomBigInteger keeps, in order. */
  function Accepted(draws: seq<int>): (r: seq<int>)
    ensures |r| <= |draws|
    ensures forall i :: 0 <= i < |r| ==> r[i] < PRIME
    ensures ValidDraws(draws) ==> forall i :: 0 <= i < |r| ==> 0 <= r[i]
  {
    if draws == [] then []
    else (if draws[0] < PRIME then [draws[0]] else []) + Accepted(draws[1..])
  }

  lemma {:induction false} AcceptedAppend(a: seq<int>, b: seq<int>)
    ensures Accepted(a + b) == Accepted(a) + Accepted(b)
    decreases |a|
  {
    if a != [] {
      assert (a + b)[1..] == a[1..] + b;
      AcceptedAppend(a[1..], b);
    } else {
      assert a + b == b;
    }
  }

  /** The draws kept from a prefix and from the rest make up all the draws kept. */
  lemma AcceptedSplit(draws: seq<int>, n: nat)
    requires n <= |draws|
    ensures Accepted(draws) == Accepted(draws[..n]) + Accepted(draws[n..])
  {
    assert draws == draws[..n] + draws[n..];
    AcceptedAppend(draws[..n], draws[n..]);
  }

  /** Consuming u more draws keeps what the first n kept, followed by what the u kept. */
  lemma AcceptedExtend(draws: seq<int>, n: nat, u: nat)
    requires n + u <= |draws|
    ensures Accepted(draws[..n + u]) == Accepted(draws[..n]) + Accepted(draws[n..][..u])
  {
    assert draws[..n + u] == draws[..n] + draws[n..][..u];
    AcceptedAppend(draws[..n], draws[n..][..u]);
  }

  lemma {:induction false} AcceptedNone(s: seq<int>)
    requires forall i :: 0 <= i < |s| ==> s[i] >= PRIME
    ensures Accepted(s) == []
    decreases |s|
  {
    if s != [] {
      AcceptedNone(s[1..]);
    }
  }

  /** One more accepted draw extends the coefficients read so far. */
  lemma AcceptOne(draws: seq<int>, used: nat, u: nat, coefficients: seq<int>, c: int)
    requires used + u <= |draws| && |coefficients| >= 1
    requires coefficients[1..] == Accepted(draws[..used]) && Accepted(draws[used..][..u]) == [c]
    ensures (coefficients + [c])[1..] == Accepted(draws[..used + u])
  {
    AcceptedExtend(draws, used, u);
    assert (coefficients + [c])[1..] == coefficients[1..] + [c];
  }

  /**
   * randomBigInteger: draw 129-bit values until one is below PRIME and
   * return it.  With a finite supply of draws the loop may run out first,
   * which is reported as OutOfDraws.
   */
  method RandomBigInteger(draws: seq<int>) returns (r: Result<int>, used: nat)
    requires ValidDraws(draws)
    ensures used <= |draws|
    ensures r.Ok? ==> (0 < used && r.value == draws[used - 1] && 0 <= r.value < PRIME
      && forall i :: 0 <= i < used - 1 ==> draws[i] >= PRIME)
    ensures r.Ok? ==> Accepted(draws[..used]) == [r.value]
    ensures r.Err? ==> (r.error == OutOfDraws && used == |draws| && Accepted(draws) == []
      && forall i :: 0 <= i < |draws| ==> draws[i] >= PRIME)
  {
    used := 0;
    while used < |draws|
      invariant used <= |draws|
      invariant forall i :: 0 <= i < used ==> draws[i] >= PRIME
    {
      var candidate := draws[used];
      used := used + 1;
      if candidate < PRIME {
        AcceptedNone(draws[..used - 1]);
        assert draws[..used] == draws[..used - 1] + [candidate];
        AcceptedAppend(draws[..used - 1], [candidate]);
        return Ok(candidate), used;
      }
    }
    AcceptedNone(draws);
    return Err(OutOfDraws), used;
  }

  /**
   * randomPolynomial: `degree + 1` coefficients, the intercept followed by
   * `degree` random field elements; a negative degree is an
   * ArithmeticException.
   */
  method RandomPolynomial(degree: int, intercept: int, draws: seq<int>) returns (r: Result<seq<int>>, used: nat)
    requires ValidDraws(draws)
    ensures used <= |draws|
    ensures degree < 0 ==> r == Err(NegativeDegree) && used == 0
    ensures degree >= 0 ==> (r.Ok? <==> |Accepted(draws)| >= degree)
    ensures degree >= 0 && r.Err? ==> r.error == OutOfDraws
    ensures r.Ok? ==> |r.value| == degree + 1 && r.value[0] == intercept
    ensures r.Ok? ==> r.value[1..] == Accepted(draws[..used]) == Accepted(draws)[..degree]
    ensures r.Ok? ==> forall i :: 1 <= i < |r.value| ==> 0 <= r.value[i] < PRIME
  {
    if degree < 0 {
      return Err(NegativeDegree), 0;
    }
    var coefficients := [intercept];
    used := 0;
    for i := 0 to degree
      invariant used <= |draws|
      invariant |coefficients| == i + 1 && coefficients[0] == intercept
      invariant coefficients[1..] == Accepted(draws[..used])
    {
      assert ValidDraws(draws[used..]);
      var c, u := RandomBigInteger(draws[used..]);
      if c.Err? {
        AcceptedSplit(draws, used);
        return Err(OutOfDraws), used + u;
      }
      AcceptOne(draws, used, u, coefficients, c.value);
      coefficients := coefficients + [c.value];
      used := used + u;
    }
    AcceptedSplit(draws, used);
    return Ok(coefficients), used;
  }

  function Pow(x: int, e: nat): int {
    if e == 0 then 1 else x * Pow(x, e - 1)
  }

  /** The value of the polynomial with coefficients c (constant term first) at x, by Horner's rule. */
  function Eval(c: seq<int>, x: int): int {
    if c == [] then 0 else c[0] + x * Eval(c[1..], x)
  }

  /** Sum of c[e] * x^e over e < n: samplePolynomial's accumulator after n iterations. */
  function PowerSum(c: seq<int>, x: int, n: nat): int
    requires n <= |c|
  {
    if n == 0 then 0 else PowerSum(c, x, n - 1) + c[n - 1] * Pow(x, n - 1)
  }

  lemma {:induction false} PowerSumStep(c: seq<int>, x: int, n: nat)
    requires 1 <= n <= |c|
    ensures PowerSum(c, x, n) == c[0] + x * PowerSum(c[1..], x, n - 1)
  {
    if n > 1 {
      PowerSumStep(c, x, n - 1);
      var rest := PowerSum(c[1..], x, n - 2);
      var p := Pow(x, n - 2);
      assert c[1..][n - 2] == c[n - 1];
      calc {
        PowerSum(c, x, n);
        c[0] + x * rest + c[n - 1] * (x * p);
        c[0] + x * (rest + c[n - 1] * p);
        c[0] + x * PowerSum(c[1..], x, n - 1);
      }
    }
  }

  /** The power sum computed by samplePolynomial and Horner's rule agree. */
  lemma {:induction false} PowerSumIsEval(c: seq<int>, x: int)
    ensures PowerSum(c, x, |c|) == Eval(c, x)
    decreases |c|
  {
    if c != [] {
      PowerSumStep(c, x, |c|);
      PowerSumIsEval(c[1..], x);
    }
  }

  /** samplePolynomial: (sum of coefficients[e] * x^e) mod PRIME. */
  method SamplePolynomial(coefficients: seq<int>, x: int) returns (y: int)
    ensures y == Eval(coefficients, x) % PRIME
    ensures 0 <= y < PRIME
  {
    var sum := 0;
    for exp := 0 to |coefficients|
      invariant sum == PowerSum(coefficients, x, exp)
    {
      sum := sum + coefficients[exp] * Pow(x, exp);
    }
    PowerSumIsEval(coefficients, x);
    y := sum % PRIME;
  }

  /** A degree-0 polynomial is constant. */
  lemma EvalConstant(a: int, x: int)
    ensures Eval([a], x) == a
  {
    assert [a][1..] == [];
  }

  /** At x = 0 only the constant term survives, so sampling there recovers the intercept. */
  lemma EvalAtZero(c: seq<int>)
    ensures Eval(c, 0) == if c == [] then 0 else c[0]
  {
  }

  /** Congruent arguments give congruent values; in particular x and x + PRIME sample alike. */
  lemma {:induction false} EvalCongruent(c: seq<int>, x: int, x': int)
    requires Congruent(x, x')
    ensures Congruent(Eval(c, x), Eval(c, x'))
    decreases |c|
  {
    if c != [] {
      EvalCongruent(c[1..], x, x');
      CongruentProduct(x, x', Eval(c[1..], x), Eval(c[1..], x'));
      CongruentAdd(x * Eval(c[1..], x), x' * Eval(c[1..], x'), c[0]);
    }
  }

  lemma SampleShift(c: seq<int>, x: int)
    ensures Eval(c, x + PRIME) % PRIME == Eval(c, x) % PRIME
  {
    ModShift(1, x);
    EvalCongruent(c, x + PRIME, x);
  }

  /**
   * The product over j < m, j != skip, of (base - xs[j]), reduced modulo
   * PRIME after every factor and starting from 1: the numerator
   * (base = at) and denominator (base = xs[skip]) of interpolate's inner loop.
   */
  function LoopProduct(base: int, xs: seq<int>, skip: int, m: nat): (r: int)
    requires m <= |xs|
    ensures 0 <= r < PRIME
  {
    if m == 0 then 1
    else if m - 1 == skip then LoopProduct(base, xs, skip, m - 1)
    else (LoopProduct(base, xs, skip, m - 1) * (base - xs[m - 1])) % PRIME
  }

  lemma LoopProductStep(base: int, xs: seq<int>, skip: int, j: nat)
    requires j < |xs|
    ensures LoopProduct(base, xs, skip, j + 1) ==
      if j == skip then LoopProduct(base, xs, skip, j)
      else (LoopProduct(base, xs, skip, j) * (base - xs[j])) % PRIME
  {
  }

  function Numerator(at: int, points: seq<Point>, i: int): int {
    LoopProduct(at, Xs(points), i, |points|)
  }

  function Denominator(points: seq<Point>, i: int): int
    requires 0 <= i < |points|
  {
    LoopProduct(points[i].x, Xs(points), i, |points|)
  }

  /** interpolate's running intercept after the first m points, or the modInverse failure. */
  function Accumulate(at: int, points: seq<Point>, m: nat): (r: Result<int>)
    requires m <= |points|
    ensures r.Ok? ==> 0 <= r.value < PRIME
    ensures r.Err? ==> r.error == NotInvertible
  {
    if m == 0 then Ok(0)
    else
      var intercept :- Accumulate(at, points, m - 1);
      var inverse :- ModInverse(Denominator(points, m - 1));
      Ok((PRIME + intercept + points[m - 1].y * (Numerator(at, points, m - 1) * inverse)) % PRIME)
  }

  /** The result of interpolate(at, points). */
  function Interpolation(at: int, points: seq<Point>): (r: Result<int>)
    ensures points == [] ==> r == Ok(0)
    ensures r.Ok? ==> 0 <= r.value < PRIME
    ensures r.Err? ==> r.error == NotInvertible
  {
    Accumulate(at, points, |points|)
  }

  lemma AccumulateStep(at: int, points: seq<Point>, i: nat, intercept: int)
    requires i < |points| && Accumulate(at, points, i) == Ok(intercept)
    ensures var inverse := ModInverse(Denominator(points, i));
      Accumulate(at, points, i + 1) ==
        if inverse.Err? then Err(inverse.error)
        else Ok((PRIME + intercept + points[i].y * (Numerator(at, points, i) * inverse.value)) % PRIME)
  {
  }

  /** Once a denominator has no inverse, the exception escapes the whole loop. */
  lemma {:induction false} AccumulateErrPersists(at: int, points: seq<Point>, m: nat, n: nat)
    requires m <= n <= |points| && Accumulate(at, points, m).Err?
    ensures Accumulate(at, points, n) == Accumulate(at, points, m)
    decreases n
  {
    if m < n {
      AccumulateErrPersists(at, points, m, n - 1);
    }
  }

  /**
   * The inner loop of interpolate for point i: the products over the other
   * points of (at - x_j) and (x_i - x_j), each reduced after every factor.
   */
  method LagrangeFactors(at: int, points: seq<Point>, i: nat) returns (numerator: int, denominator: int)
    requires i < |points|
    ensures numerator == Numerator(at, points, i)
    ensures denominator == Denominator(points, i)
  {
    var xs := Xs(points);
    var point := points[i];
    numerator, denominator := 1, 1;
    for j := 0 to |points|
      invariant numerator == LoopProduct(at, xs, i, j)
      invariant denominator == LoopProduct(point.x, xs, i, j)
    {
      LoopProductStep(at, xs, i, j);
      LoopProductStep(point.x, xs, i, j);
      if i == j {
        continue;
      }
      var other := points[j];
      numerator := (numerator * (at - other.x)) % PRIME;
      denominator := (denominator * (point.x - other.x)) % PRIME;
    }
  }

  /**
   * interpolate: Lagrange interpolation at `at` through `points`.  Two
   * list entries are told apart by position (the Java code compares object
   * identity), so equal x's at different positions reach modInverse(0).
   */
  method Interpolate(at: int, points: seq<Point>) returns (r: Result<int>)
    ensures r == Interpolation(at, points)
  {
    var intercept := 0;
    for i := 0 to |points|
      invariant Accumulate(at, points, i) == Ok(intercept)
    {
      var numerator, denominator := LagrangeFactors(at, points, i);
      AccumulateStep(at, points, i, intercept);
      var inverse := ModInverse(denominator);
      if inverse.Err? {
        AccumulateErrPersists(at, points, i + 1, |points|);
        return Err(inverse.error);
      }
      var lagrange := numerator * inverse.value;
      intercept := (PRIME + intercept + points[i].y * lagrange) % PRIME;
    }
    return Ok(intercept);
  }
}

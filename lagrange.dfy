/**
 * What Polynomial.interpolate computes.  The central results:
 *  - InterpolationSucceeds: interpolate returns a value exactly when every
 *    difference of two x's (at different positions) is invertible modulo
 *    PRIME, which is what its calls to modInverse demand;
 *  - DuplicateXFails: two points with the same x make it throw;
 *  - InterpolationRecovers: when it succeeds on samples of a polynomial
 *    with at most as many coefficients as there are points, it returns the
 *    polynomial's value at `at` (the secret, for at = 0).
 *
 * The proof builds the Lagrange polynomial as a coefficient list, shows it
 * agrees with the samples at every x, and uses the fact that a polynomial
 * with fewer coefficients than roots (whose pairwise differences are
 * invertible) vanishes everywhere.  Primality of PRIME is not needed.
 */
module Lagrange {
  import opened Jvm
  import opened Points
  import opened Field
  import opened Polynomial

  // ---------------------------------------------------------------------
  // Polynomials as coefficient lists, constant term first.

  function Add(a: seq<int>, b: seq<int>): (r: seq<int>)
    ensures |r| == if |a| < |b| then |b| else |a|
  {
    if a == [] then b
    else if b == [] then a
    else [a[0] + b[0]] + Add(a[1..], b[1..])
  }

  lemma {:induction false} EvalAdd(a: seq<int>, b: seq<int>, x: int)
    ensures Eval(Add(a, b), x) == Eval(a, x) + Eval(b, x)
    decreases |a|
  {
    if a != [] && b != [] {
      var s := Add(a, b);
      assert s[0] == a[0] + b[0] && s[1..] == Add(a[1..], b[1..]);
      EvalAdd(a[1..], b[1..], x);
      calc {
        Eval(s, x);
        a[0] + b[0] + x * (Eval(a[1..], x) + Eval(b[1..], x));
        (a[0] + x * Eval(a[1..], x)) + (b[0] + x * Eval(b[1..], x));
      }
    }
  }

  function Scale(k: int, a: seq<int>): (r: seq<int>)
    ensures |r| == |a|
  {
    if a == [] then [] else [k * a[0]] + Scale(k, a[1..])
  }

  lemma {:induction false} EvalScale(k: int, a: seq<int>, x: int)
    ensures Eval(Scale(k, a), x) == k * Eval(a, x)
    decreases |a|
  {
    if a != [] {
      var s := Scale(k, a);
      assert s[0] == k * a[0] && s[1..] == Scale(k, a[1..]);
      EvalScale(k, a[1..], x);
      var e := Eval(a[1..], x);
      calc {
        Eval(s, x);
        k * a[0] + x * (k * e);
        k * (a[0] + x * e);
      }
    }
  }

  /** (x - r) * a(x). */
  function MulLinear(a: seq<int>, r: int): seq<int> {
    Add([0] + a, Scale(-r, a))
  }

  lemma EvalMulLinear(a: seq<int>, r: int, x: int)
    ensures Eval(MulLinear(a, r), x) == (x - r) * Eval(a, x)
    ensures |MulLinear(a, r)| == |a| + 1
  {
    assert ([0] + a)[1..] == a;
    EvalAdd([0] + a, Scale(-r, a), x);
    EvalScale(-r, a, x);
  }

  /** The exact product over j < m, j != skip, of (base - xs[j]). */
  function Product(base: int, xs: seq<int>, skip: int, m: nat): int
    requires m <= |xs|
  {
    if m == 0 then 1
    else if m - 1 == skip then Product(base, xs, skip, m - 1)
    else Product(base, xs, skip, m - 1) * (base - xs[m - 1])
  }

  /** Reducing after every factor, as interpolate does, gives the exact product reduced once. */
  lemma {:induction false} LoopProductIsProduct(base: int, xs: seq<int>, skip: int, m: nat)
    requires m <= |xs|
    ensures LoopProduct(base, xs, skip, m) == Product(base, xs, skip, m) % PRIME
  {
    if m > 0 {
      LoopProductIsProduct(base, xs, skip, m - 1);
      if m - 1 != skip {
        var lp, p := LoopProduct(base, xs, skip, m - 1), Product(base, xs, skip, m - 1);
        CongruentMod(p);
        CongruentMul(lp, p, base - xs[m - 1]);
      }
    }
  }

  /** The product vanishes at every xs[k] whose own factor it contains. */
  lemma {:induction false} ProductVanishes(xs: seq<int>, skip: int, k: nat, m: nat)
    requires k < m <= |xs| && k != skip
    ensures Product(xs[k], xs, skip, m) == 0
  {
    if k < m - 1 {
      ProductVanishes(xs, skip, k, m - 1);
    }
  }

  /** A product is invertible exactly when every one of its factors is. */
  lemma {:induction false} ProductUnit(base: int, xs: seq<int>, skip: int, m: nat)
    requires m <= |xs|
    ensures IsUnit(Product(base, xs, skip, m)) <==>
      forall j :: 0 <= j < m && j != skip ==> IsUnit(base - xs[j])
  {
    if m == 0 {
      OneIsUnit();
    } else {
      ProductUnit(base, xs, skip, m - 1);
      if m - 1 != skip {
        UnitMul(Product(base, xs, skip, m - 1), base - xs[m - 1]);
      }
    }
  }

  /** The polynomial whose value at x is Product(x, xs, skip, m). */
  function Basis(xs: seq<int>, skip: int, m: nat): seq<int>
    requires m <= |xs|
  {
    if m == 0 then [1]
    else if m - 1 == skip then Basis(xs, skip, m - 1)
    else MulLinear(Basis(xs, skip, m - 1), xs[m - 1])
  }

  lemma {:induction false} EvalBasis(xs: seq<int>, skip: int, m: nat, x: int)
    requires m <= |xs|
    ensures Eval(Basis(xs, skip, m), x) == Product(x, xs, skip, m)
  {
    if m == 0 {
      EvalConstant(1, x);
    } else if m - 1 != skip {
      var b, p, d := Basis(xs, skip, m - 1), Product(x, xs, skip, m - 1), x - xs[m - 1];
      EvalBasis(xs, skip, m - 1, x);
      EvalMulLinear(b, xs[m - 1], x);
      assert Basis(xs, skip, m) == MulLinear(b, xs[m - 1]);
      assert Product(x, xs, skip, m) == p * d;
      assert Eval(MulLinear(b, xs[m - 1]), x) == d * p;
    } else {
      EvalBasis(xs, skip, m - 1, x);
    }
  }

  /** The basis polynomial has one coefficient per factor, plus the constant. */
  lemma {:induction false} BasisLength(xs: seq<int>, skip: int, m: nat)
    requires m <= |xs|
    ensures |Basis(xs, skip, m)| == if 0 <= skip < m then m else m + 1
  {
    if m > 0 {
      BasisLength(xs, skip, m - 1);
      if m - 1 != skip {
        EvalMulLinear(Basis(xs, skip, m - 1), xs[m - 1], 0);
      }
    }
  }

  // ---------------------------------------------------------------------
  // Synthetic division and the root argument.

  /** q with h(x) = (x - r) * q(x) + h(r). */
  function Quotient(h: seq<int>, r: int): seq<int>
    decreases |h|
  {
    if |h| <= 1 then [] else [Eval(h[1..], r)] + Quotient(h[1..], r)
  }

  lemma {:induction false} QuotientEval(h: seq<int>, r: int, x: int)
    requires |h| >= 1
    ensures |Quotient(h, r)| == |h| - 1
    ensures Eval(h, x) == (x - r) * Eval(Quotient(h, r), x) + Eval(h, r)
    decreases |h|
  {
    if |h| == 1 {
      assert h[1..] == [];
    } else {
      var h' := h[1..];
      var q := Quotient(h, r);
      QuotientEval(h', r, x);
      var a, b := Eval(h', r), Eval(Quotient(h', r), x);
      assert q[0] == a && q[1..] == Quotient(h', r);
      assert Eval(q, x) == a + x * b;
      assert Eval(h, x) == h[0] + x * ((x - r) * b + a);
      assert Eval(h, r) == h[0] + r * a;
      SyntheticDivisionStep(h[0], x, r, a, b);
    }
  }

  /** The algebra of one step of synthetic division. */
  lemma SyntheticDivisionStep(h0: int, x: int, r: int, a: int, b: int)
    ensures h0 + x * ((x - r) * b + a) == (x - r) * (a + x * b) + (h0 + r * a)
  {
  }

  /** Every difference of two x's at different positions is invertible modulo PRIME. */
  ghost predicate PairwiseUnits(xs: seq<int>) {
    forall i, j :: 0 <= i < |xs| && 0 <= j < |xs| && i != j ==> IsUnit(xs[i] - xs[j])
  }

  lemma CongruentZeroDiff(a: int, b: int)
    requires Congruent(a, 0) && Congruent(b, 0)
    ensures Congruent(a - b, 0)
  {
    CongruentMul(b, 0, -1);
    CongruentSum(a, 0, -b, 0);
  }

  /** Dividing out a root r keeps every other root s whose distance to r is a unit. */
  lemma QuotientKeepsRoot(h: seq<int>, r: int, s: int)
    requires |h| >= 1 && Congruent(Eval(h, s), 0) && Congruent(Eval(h, r), 0) && IsUnit(s - r)
    ensures Congruent(Eval(Quotient(h, r), s), 0)
  {
    QuotientEval(h, r, s);
    CancelRoot(Eval(h, s), Eval(h, r), s - r, Eval(Quotient(h, r), s));
  }

  lemma CancelRoot(hs: int, hr: int, d: int, qs: int)
    requires hs == d * qs + hr && Congruent(hs, 0) && Congruent(hr, 0) && IsUnit(d)
    ensures Congruent(qs, 0)
  {
    CongruentZeroDiff(hs, hr);
    CancelUnit(d, qs);
  }

  /** If the quotient by a root vanishes at `at`, so does the polynomial. */
  lemma QuotientVanishes(h: seq<int>, r: int, at: int)
    requires |h| >= 1 && Congruent(Eval(Quotient(h, r), at), 0) && Congruent(Eval(h, r), 0)
    ensures Congruent(Eval(h, at), 0)
  {
    QuotientEval(h, r, at);
    var e := Eval(Quotient(h, r), at);
    CongruentMul(e, 0, at - r);
    assert e * (at - r) == (at - r) * e;
    CongruentSum((at - r) * e, 0, Eval(h, r), 0);
  }

  lemma PairwiseUnitsTail(xs: seq<int>)
    requires |xs| > 0 && PairwiseUnits(xs)
    ensures PairwiseUnits(xs[1..])
  {
    var rest := xs[1..];
    forall i, j | 0 <= i < |rest| && 0 <= j < |rest| && i != j
      ensures IsUnit(rest[i] - rest[j])
    {
      assert rest[i] - rest[j] == xs[i + 1] - xs[j + 1];
    }
  }

  /**
   * A polynomial with at most |xs| coefficients that vanishes (modulo
   * PRIME) at every xs[k], where the xs differ by units, vanishes everywhere.
   */
  lemma {:induction false} RootsVanish(h: seq<int>, xs: seq<int>, at: int)
    requires |h| <= |xs|
    requires forall k :: 0 <= k < |xs| ==> Congruent(Eval(h, xs[k]), 0)
    requires PairwiseUnits(xs)
    ensures Congruent(Eval(h, at), 0)
    decreases |xs|
  {
    if h != [] {
      var r, rest := xs[0], xs[1..];
      var q := Quotient(h, r);
      forall k | 0 <= k < |rest|
        ensures Congruent(Eval(q, rest[k]), 0)
      {
        assert rest[k] == xs[k + 1];
        assert IsUnit(xs[k + 1] - xs[0]);
        QuotientKeepsRoot(h, r, rest[k]);
      }
      PairwiseUnitsTail(xs);
      QuotientEval(h, r, at);
      RootsVanish(q, rest, at);
      QuotientVanishes(h, r, at);
    }
  }

  // ---------------------------------------------------------------------
  // interpolate's result as the value of an explicit polynomial.

  /** The weight y_i * denominator_i^-1 of point i (0 when the inverse does not exist). */
  function Weight(points: seq<Point>, i: nat): int
    requires i < |points|
  {
    match ModInverse(Denominator(points, i))
    case Ok(u) => points[i].y * u
    case Err(_) => 0
  }

  function Weights(points: seq<Point>): (w: seq<int>)
    ensures |w| == |points| && forall i :: 0 <= i < |points| ==> w[i] == Weight(points, i)
  {
    seq(|points|, i requires 0 <= i < |points| => Weight(points, i))
  }

  /** The sum over i < m of w[i] times the basis polynomial of xs[i]. */
  function Combination(xs: seq<int>, w: seq<int>, m: nat): seq<int>
    requires m <= |w| == |xs|
  {
    if m == 0 then []
    else Add(Combination(xs, w, m - 1), Scale(w[m - 1], Basis(xs, m - 1, |xs|)))
  }

  lemma {:induction false} CombinationLength(xs: seq<int>, w: seq<int>, m: nat)
    requires m <= |w| == |xs|
    ensures |Combination(xs, w, m)| <= |xs|
  {
    if m > 0 {
      var c, b := Combination(xs, w, m - 1), Basis(xs, m - 1, |xs|);
      CombinationLength(xs, w, m - 1);
      BasisLength(xs, m - 1, |xs|);
      assert Combination(xs, w, m) == Add(c, Scale(w[m - 1], b));
    }
  }

  lemma CombinationStep(xs: seq<int>, w: seq<int>, m: nat, x: int)
    requires 0 < m <= |w| == |xs|
    ensures Eval(Combination(xs, w, m), x) ==
      Eval(Combination(xs, w, m - 1), x) + w[m - 1] * Product(x, xs, m - 1, |xs|)
  {
    var b, c := Basis(xs, m - 1, |xs|), Combination(xs, w, m - 1);
    assert Combination(xs, w, m) == Add(c, Scale(w[m - 1], b));
    EvalAdd(c, Scale(w[m - 1], b), x);
    EvalScale(w[m - 1], b, x);
    EvalBasis(xs, m - 1, |xs|, x);
  }

  /** One step of interpolate's sum, in congruences on plain integers. */
  lemma AccumulateArithmetic(prev: int, e: int, y: int, u: int, num: int, p: int)
    requires Congruent(prev, e) && Congruent(num, p)
    ensures Congruent((PRIME + prev + y * (num * u)) % PRIME, e + (y * u) * p)
  {
    CongruentMul(num, p, y * u);
    assert y * (num * u) == num * (y * u);
    assert (y * u) * p == p * (y * u);
    CongruentSum(prev, e, y * (num * u), (y * u) * p);
    ModShift(1, prev + y * (num * u));
  }

  lemma CongruentChain(next: int, prev: int, t: int, e: int)
    requires Congruent(next, prev + t) && Congruent(prev, e)
    ensures Congruent(next, e + t)
  {
    CongruentAdd(prev, e, t);
  }

  /** One pass of interpolate's outer loop adds point i's weight times its exact basis product. */
  lemma AccumulateTerm(at: int, points: seq<Point>, i: nat, prev: int)
    requires i < |points| && Accumulate(at, points, i) == Ok(prev)
    requires Accumulate(at, points, i + 1).Ok?
    ensures Congruent(Accumulate(at, points, i + 1).value,
                      prev + Weight(points, i) * Product(at, Xs(points), i, |points|))
  {
    var y, num := points[i].y, Numerator(at, points, i);
    AccumulateStep(at, points, i, prev);
    var u := ModInverse(Denominator(points, i)).value;
    var p := Product(at, Xs(points), i, |points|);
    LoopProductIsProduct(at, Xs(points), i, |points|);
    CongruentMod(p);
    AccumulateArithmetic(prev, prev, y, u, num, p);
  }

  /** Adding the next weighted basis term keeps a congruence to the combination. */
  lemma CombinationCongruentStep(xs: seq<int>, w: seq<int>, at: int, i: nat, prev: int, next: int)
    requires i < |w| == |xs|
    requires Congruent(next, prev + w[i] * Product(at, xs, i, |xs|))
    requires Congruent(prev, Eval(Combination(xs, w, i), at))
    ensures Congruent(next, Eval(Combination(xs, w, i + 1), at))
  {
    var t, e := w[i] * Product(at, xs, i, |xs|), Eval(Combination(xs, w, i), at);
    CombinationStep(xs, w, i + 1, at);
    CongruentChain(next, prev, t, e);
  }

  /** interpolate's accumulator is the value at `at` of the weighted combination built so far. */
  lemma {:induction false} AccumulateIsCombination(at: int, points: seq<Point>, m: nat)
    requires m <= |points| && Accumulate(at, points, m).Ok?
    ensures Congruent(Accumulate(at, points, m).value, Eval(Combination(Xs(points), Weights(points), m), at))
  {
    if m > 0 {
      var i := m - 1;
      if Accumulate(at, points, i).Err? {
        AccumulateErrPersists(at, points, i, m);
      }
      var prev := Accumulate(at, points, i).value;
      AccumulateIsCombination(at, points, i);
      AccumulateTerm(at, points, i, prev);
      CombinationCongruentStep(Xs(points), Weights(points), at, i, prev, Accumulate(at, points, m).value);
    }
  }

  lemma ZeroProduct(a: int, b: int)
    requires b == 0
    ensures a * b == 0
  {
  }

  /** Adding the m-th basis polynomial changes the value at xs[k] only when m - 1 is k. */
  lemma CombinationNodeStep(xs: seq<int>, w: seq<int>, m: nat, k: nat)
    requires 0 < m <= |w| == |xs| && k < |xs|
    ensures Eval(Combination(xs, w, m), xs[k]) ==
      Eval(Combination(xs, w, m - 1), xs[k]) + if k == m - 1 then w[k] * Product(xs[k], xs, k, |xs|) else 0
  {
    var p, before := Product(xs[k], xs, m - 1, |xs|), Eval(Combination(xs, w, m - 1), xs[k]);
    CombinationStep(xs, w, m, xs[k]);
    if m - 1 != k {
      ProductVanishes(xs, m - 1, k, |xs|);
      ZeroProduct(w[m - 1], p);
      assert Eval(Combination(xs, w, m), xs[k]) == before;
    }
  }

  /** At xs[k] every basis polynomial but k's own vanishes. */
  lemma {:induction false} CombinationAtNode(xs: seq<int>, w: seq<int>, m: nat, k: nat)
    requires m <= |w| == |xs| && k < |xs|
    ensures Eval(Combination(xs, w, m), xs[k]) == if k < m then w[k] * Product(xs[k], xs, k, |xs|) else 0
  {
    if m > 0 {
      CombinationAtNode(xs, w, m - 1, k);
      CombinationNodeStep(xs, w, m, k);
      if k < m - 1 {
        assert k < m;
      } else if k == m - 1 {
        assert Eval(Combination(xs, w, m - 1), xs[k]) == 0;
      } else {
        assert !(k < m);
      }
    }
  }

  lemma WeightArithmetic(y: int, u: int, p: int, den: int)
    requires Congruent(p, den) && InverseOf(den, u)
    ensures Congruent((y * u) * p, y)
  {
    CongruentMul(p, den, y * u);
    assert den * (y * u) == (den * u) * y;
    CongruentMul(den * u, 1, y);
    assert (y * u) * p == p * (y * u);
  }

  /** Point k's weight times its basis value gives back y_k. */
  lemma WeightAtNode(points: seq<Point>, k: nat)
    requires k < |points| && ModInverse(Denominator(points, k)).Ok?
    ensures Congruent(Weight(points, k) * Product(points[k].x, Xs(points), k, |points|), points[k].y)
  {
    var p := Product(points[k].x, Xs(points), k, |points|);
    LoopProductIsProduct(points[k].x, Xs(points), k, |points|);
    CongruentMod(p);
    WeightArithmetic(points[k].y, ModInverse(Denominator(points, k)).value, p, Denominator(points, k));
  }

  // ---------------------------------------------------------------------
  // When interpolate succeeds.

  lemma {:induction false} AccumulateOk(at: int, points: seq<Point>, m: nat)
    requires m <= |points|
    ensures Accumulate(at, points, m).Ok? <==> forall i :: 0 <= i < m ==> IsUnit(Denominator(points, i))
  {
    if m > 0 {
      AccumulateOk(at, points, m - 1);
      if Accumulate(at, points, m - 1).Ok? {
        AccumulateStep(at, points, m - 1, Accumulate(at, points, m - 1).value);
      } else {
        AccumulateErrPersists(at, points, m - 1, m);
      }
    }
  }

  lemma DenominatorUnit(points: seq<Point>, i: nat)
    requires i < |points|
    ensures IsUnit(Denominator(points, i)) <==>
      forall j :: 0 <= j < |points| && j != i ==> IsUnit(Xs(points)[i] - Xs(points)[j])
  {
    var xs := Xs(points);
    LoopProductIsProduct(points[i].x, xs, i, |points|);
    var p := Product(points[i].x, xs, i, |points|);
    CongruentMod(p);
    UnitCongruent(Denominator(points, i), p);
    ProductUnit(points[i].x, xs, i, |points|);
  }

  /** Every denominator of interpolate is a unit exactly when the x's differ pairwise by units. */
  lemma DenominatorsUnits(points: seq<Point>)
    ensures (forall i :: 0 <= i < |points| ==> IsUnit(Denominator(points, i))) <==> PairwiseUnits(Xs(points))
  {
    var xs := Xs(points);
    if PairwiseUnits(xs) {
      forall i | 0 <= i < |points|
        ensures IsUnit(Denominator(points, i))
      {
        DenominatorUnit(points, i);
      }
    }
    if forall i :: 0 <= i < |points| ==> IsUnit(Denominator(points, i)) {
      forall i, j | 0 <= i < |xs| && 0 <= j < |xs| && i != j
        ensures IsUnit(xs[i] - xs[j])
      {
        DenominatorUnit(points, i);
      }
    }
  }

  /** interpolate returns a value exactly when all x differences are invertible modulo PRIME. */
  lemma InterpolationSucceeds(at: int, points: seq<Point>)
    ensures Interpolation(at, points).Ok? <==> PairwiseUnits(Xs(points))
  {
    AccumulateOk(at, points, |points|);
    DenominatorsUnits(points);
  }

  /** Two points at different positions with the same x make interpolate throw. */
  lemma DuplicateXFails(at: int, points: seq<Point>, i: nat, j: nat)
    requires i < |points| && j < |points| && i != j && points[i].x == points[j].x
    ensures Interpolation(at, points) == Err(NotInvertible)
  {
    var xs := Xs(points);
    ZeroNotUnit(xs[i] - xs[j]);
    InterpolationSucceeds(at, points);
  }

  /** The samples of c minus the Lagrange combination vanish at every x. */
  lemma DifferenceAtNode(points: seq<Point>, c: seq<int>, k: nat)
    requires k < |points|
    requires Congruent(points[k].y, Eval(c, points[k].x))
    requires ModInverse(Denominator(points, k)).Ok?
    ensures Congruent(Eval(Add(c, Scale(-1, Combination(Xs(points), Weights(points), |points|))), points[k].x), 0)
  {
    var xs, w := Xs(points), Weights(points);
    var g, x := Combination(xs, w, |points|), points[k].x;
    EvalAdd(c, Scale(-1, g), x);
    EvalScale(-1, g, x);
    CombinationAtNode(xs, w, |points|, k);
    WeightAtNode(points, k);
    CongruentAdd(Eval(c, x), Eval(g, x), -1 * Eval(g, x));
  }

  lemma RecoveredValue(v: int, ec: int, eg: int)
    requires 0 <= v < PRIME && Congruent(v, eg) && Congruent(ec + -1 * eg, 0)
    ensures v == ec % PRIME
  {
    CongruentAdd(ec + -1 * eg, 0, eg);
  }

  /**
   * Interpolation is correct: given samples (y congruent to c's value at
   * x) of a polynomial with at most |points| coefficients, at invertibly
   * distinct x's, interpolate returns the polynomial's value at `at`.
   */
  lemma InterpolationRecovers(at: int, points: seq<Point>, c: seq<int>)
    requires |c| <= |points|
    requires forall k :: 0 <= k < |points| ==> Congruent(points[k].y, Eval(c, points[k].x))
    requires PairwiseUnits(Xs(points))
    ensures Interpolation(at, points) == Ok(Eval(c, at) % PRIME)
  {
    var n, xs := |points|, Xs(points);
    InterpolationSucceeds(at, points);
    AccumulateOk(at, points, n);
    var g := Combination(xs, Weights(points), n);
    AccumulateIsCombination(at, points, n);
    var h := Add(c, Scale(-1, g));
    CombinationLength(xs, Weights(points), n);
    forall k | 0 <= k < n
      ensures Congruent(Eval(h, xs[k]), 0)
    {
      DifferenceAtNode(points, c, k);
    }
    RootsVanish(h, xs, at);
    EvalAdd(c, Scale(-1, g), at);
    EvalScale(-1, g, at);
    var v, ec, eg := Interpolation(at, points).value, Eval(c, at), Eval(g, at);
    assert Eval(h, at) == ec + -1 * eg;
    RecoveredValue(v, ec, eg);
  }

  lemma NodeValue(v: int, y: int, e: int)
    requires 0 <= v < PRIME && Congruent(v, e) && Congruent(e, y)
    ensures v == y % PRIME
  {
  }

  /** interpolate passes through its own points: at x_k it returns y_k reduced. */
  lemma InterpolationAtNode(points: seq<Point>, k: nat)
    requires k < |points| && PairwiseUnits(Xs(points))
    ensures Interpolation(points[k].x, points) == Ok(points[k].y % PRIME)
  {
    var n, xs, w, x := |points|, Xs(points), Weights(points), points[k].x;
    InterpolationSucceeds(x, points);
    AccumulateOk(x, points, n);
    AccumulateIsCombination(x, points, n);
    CombinationAtNode(xs, w, n, k);
    WeightAtNode(points, k);
    NodeValue(Interpolation(x, points).value, points[k].y, Eval(Combination(xs, w, n), x));
  }
}

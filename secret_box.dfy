/**
 * SecretBox.java: a secret-sharing polynomial held either by its
 * coefficients (CoefficientSecretBox) or by sample points through which it
 * is interpolated (PointSecretBox).  Boxes are never changed after they are
 * built, so the class hierarchy is a datatype with one constructor per
 * subclass and the virtual methods are functions that dispatch on it.
 *
 * SHA-256 (`MessageDigest`) and HMAC-SHA256 (`Mac`) are library calls whose
 * internals are not modelled: they are function parameters `digest` (the
 * message to its digest) and `mac` (key and message to the tag).
 */
module SecretBoxes {
  import opened Jvm
  import opened Points
  import opened Field
  import opened Polynomial
  import opened Lagrange

  datatype SecretBox =
    | CoefficientBox(coefficients: seq<int>)   // CoefficientSecretBox
    | PointBox(points: seq<Point>)              // PointSecretBox

  /**
   * sample(x): the point at x of the box's polynomial, through
   * samplePolynomial for a coefficient box and interpolate for a point box.
   */
  function Sample(box: SecretBox, x: int): (r: Result<Point>)
    ensures r.Ok? ==> r.value.x == x && 0 <= r.value.y < PRIME
    ensures box.CoefficientBox? ==> r.Ok? && Congruent(r.value.y, Eval(box.coefficients, x))
    ensures box.PointBox? ==> (r.Ok? <==> PairwiseUnits(Xs(box.points)))
    ensures r.Err? ==> box.PointBox? && r.error == NotInvertible
  {
    match box
    case CoefficientBox(c) =>
      CongruentMod(Eval(c, x));
      Ok(Point(x, Eval(c, x) % PRIME))
    case PointBox(points) =>
      InterpolationSucceeds(x, points);
      var y :- Interpolation(x, points);
      Ok(Point(x, y))
  }

  /** A point box passes through each of its points (with y reduced modulo PRIME). */
  lemma PointBoxThroughPoints(points: seq<Point>, k: nat)
    requires k < |points| && PairwiseUnits(Xs(points))
    ensures Sample(PointBox(points), points[k].x) == Ok(Point(points[k].x, points[k].y % PRIME))
  {
    InterpolationAtNode(points, k);
  }

  /** secret(): the y of the sample at x = 0. */
  function Secret(box: SecretBox): (r: Result<int>)
    ensures box.CoefficientBox? ==>
      r == Ok(if box.coefficients == [] then 0 else box.coefficients[0] % PRIME)
    ensures box.PointBox? ==> (r.Ok? <==> PairwiseUnits(Xs(box.points)))
    ensures r.Ok? ==> 0 <= r.value < PRIME
    ensures r.Err? ==> r.error == NotInvertible
  {
    EvalAtZero(if box.CoefficientBox? then box.coefficients else []);
    var p :- Sample(box, 0);
    Ok(p.y)
  }

  /** getCoefficients(): the stored list, or UnsupportedOperationException for a point box. */
  function GetCoefficients(box: SecretBox): (r: Result<seq<int>>)
    ensures r.Ok? <==> box.CoefficientBox?
    ensures r.Ok? ==> r.value == box.coefficients
    ensures r.Err? ==> r.error == UnsupportedOperation
  {
    match box
    case CoefficientBox(c) => Ok(c)
    case PointBox(_) => Err(UnsupportedOperation)
  }

  /** fromCoefficients: a coefficient box holding the list as given, without validation. */
  function FromCoefficients(coefficients: seq<int>): (box: SecretBox)
    ensures GetCoefficients(box) == Ok(coefficients)
    ensures forall x :: Sample(box, x).Ok?
  {
    CoefficientBox(coefficients)
  }

  /**
   * fromPoints: a point box holding the list as given.  Nothing is checked
   * here; a duplicate x surfaces only when the box is sampled.
   */
  function FromPoints(points: seq<Point>): (box: SecretBox)
    ensures GetCoefficients(box) == Err(UnsupportedOperation)
    ensures forall x :: Sample(box, x).Ok? <==> PairwiseUnits(Xs(points))
  {
    PointBox(points)
  }

  /** secretHash(): the digest of secret().toByteArray(); a failing secret() propagates. */
  function SecretHash(box: SecretBox, digest: Bytes -> Bytes): (r: Result<Bytes>)
    ensures r.Ok? <==> Secret(box).Ok?
    ensures r.Err? ==> r.error == NotInvertible
  {
    var s :- Secret(box);
    Ok(digest(ToByteArray(s)))
  }

  /**
   * hmac(challenge): the MAC of challenge.toByteArray() keyed by
   * secret().toByteArray().  Any exception inside is replaced by a
   * RuntimeException.
   */
  function Hmac(box: SecretBox, mac: (Bytes, Bytes) -> Bytes, challenge: nat): (r: Result<Bytes>)
    ensures r.Ok? <==> Secret(box).Ok?
    ensures r.Err? ==> r.error == Runtime
  {
    match Secret(box)
    case Ok(s) => Ok(mac(ToByteArray(s), ToByteArray(challenge)))
    case Err(_) => Err(Runtime)
  }

  /**
   * secretHash and hmac look at the box only through secret(): two boxes
   * with the same secret, of either variant, give the same digest and the
   * same HMAC of every challenge (or fail alike).
   */
  lemma SecretDeterminesDigests(a: SecretBox, b: SecretBox, digest: Bytes -> Bytes,
                                mac: (Bytes, Bytes) -> Bytes, challenge: nat)
    requires Secret(a) == Secret(b)
    ensures SecretHash(a, digest) == SecretHash(b, digest)
    ensures Hmac(a, mac, challenge) == Hmac(b, mac, challenge)
  {
  }

  /** A coefficient box whose first coefficient is already reduced has that coefficient as its secret. */
  lemma ReducedSecret(c: seq<int>)
    requires |c| >= 1 && 0 <= c[0] < PRIME
    ensures Secret(CoefficientBox(c)) == Ok(c[0])
  {
  }

  /**
   * The two draws of randomSecretBox: a random secret, then
   * randomPolynomial(degree, secret).  The coefficients are the first
   * degree + 1 values the rejection loops accept.
   */
  method SecretPolynomial(degree: int, draws: seq<int>) returns (r: Result<seq<int>>, used: nat)
    requires ValidDraws(draws)
    ensures used <= |draws|
    ensures r.Ok? <==> degree >= 0 && |Accepted(draws)| > degree
    ensures r.Err? ==> r.error == if degree < 0 && Accepted(draws) != [] then NegativeDegree else OutOfDraws
    ensures r.Ok? ==> r.value == Accepted(draws)[..degree + 1]
  {
    var secret, u1 := RandomBigInteger(draws);
    if secret.Err? {
      return Err(secret.error), u1;
    }
    var rest := draws[u1..];
    assert ValidDraws(rest);
    assert draws == draws[..u1] + rest;
    AcceptedAppend(draws[..u1], rest);
    var coefficients, u2 := RandomPolynomial(degree, secret.value, rest);
    if coefficients.Err? {
      return Err(coefficients.error), u1 + u2;
    }
    var c := coefficients.value;
    assert c == [secret.value] + c[1..];
    return Ok(c), u1 + u2;
  }

  /**
   * randomSecretBox(k): a coefficient box whose polynomial has k
   * coefficients: a random secret followed by k - 1 random coefficients.
   * The degree k - 1 is Java `int` arithmetic: for 1 - INT_MAX <= k < 1
   * it is negative and randomPolynomial's degree check fails, while
   * k = INT_MIN wraps around to the degree INT_MAX.
   */
  method RandomSecretBox(k: int, draws: seq<int>) returns (r: Result<SecretBox>, used: nat)
    requires ValidDraws(draws) && IsInt(k)
    ensures used <= |draws|
    ensures IntSub(k, 1) == if k == INT_MIN then INT_MAX else k - 1
    ensures var degree := IntSub(k, 1); r.Ok? <==> degree >= 0 && |Accepted(draws)| > degree
    ensures k >= 1 ==> (r.Ok? <==> |Accepted(draws)| >= k)
    ensures r.Err? ==> r.error == if IntSub(k, 1) < 0 && Accepted(draws) != [] then NegativeDegree else OutOfDraws
    ensures r.Ok? ==> r.value.CoefficientBox? && r.value.coefficients == Accepted(draws)[..IntSub(k, 1) + 1]
    ensures r.Ok? ==> Secret(r.value) == Ok(r.value.coefficients[0])
  {
    var degree := IntSub(k, 1);
    var coefficients;
    coefficients, used := SecretPolynomial(degree, draws);
    if coefficients.Err? {
      return Err(coefficients.error), used;
    }
    ReducedSecret(coefficients.value);
    return Ok(CoefficientBox(coefficients.value)), used;
  }

  /**
   * The central fact: a point box built from samples of a coefficient box,
   * at least as many as there are coefficients and at x's whose
   * differences are invertible, has the same secret, and therefore the
   * same secret hash and the same HMAC for every challenge.
   */
  lemma SamplesKeepSecret(c: seq<int>, points: seq<Point>, digest: Bytes -> Bytes,
                          mac: (Bytes, Bytes) -> Bytes, challenge: nat)
    requires |c| <= |points| && PairwiseUnits(Xs(points))
    requires forall k :: 0 <= k < |points| ==> Sample(CoefficientBox(c), points[k].x) == Ok(points[k])
    ensures Secret(PointBox(points)) == Secret(CoefficientBox(c)) && Secret(PointBox(points)).Ok?
    ensures SecretHash(PointBox(points), digest) == SecretHash(CoefficientBox(c), digest)
    ensures Hmac(PointBox(points), mac, challenge) == Hmac(CoefficientBox(c), mac, challenge)
  {
    forall k | 0 <= k < |points|
      ensures Congruent(points[k].y, Eval(c, points[k].x))
    {
      assert Sample(CoefficientBox(c), points[k].x) == Ok(points[k]);
    }
    InterpolationRecovers(0, points, c);
    EvalAtZero(c);
    SecretDeterminesDigests(PointBox(points), CoefficientBox(c), digest, mac, challenge);
  }

  /** 1, 2, 3 and 4 and their negations are invertible modulo PRIME. */
  lemma SmallUnits(d: int)
    requires 1 <= d <= 4
    ensures IsUnit(d) && IsUnit(-d)
  {
    if d == 1 {
      assert InverseOf(1, 1);
    } else if d == 2 {
      assert InverseOf(2, (PRIME + 1) / 2);
    } else if d == 3 {
      assert InverseOf(3, (2 * PRIME + 1) / 3);
    } else {
      assert InverseOf(4, (PRIME + 1) / 4);
    }
    UnitNeg(d);
  }

  /** The five sample points of the round-trip test: x = 1..5 of the coefficient box. */
  function FiveSamples(c: seq<int>): (points: seq<Point>)
    ensures |points| == 5
    ensures forall k :: 0 <= k < 5 ==> points[k].x == k + 1
    ensures forall k :: 0 <= k < 5 ==> Sample(CoefficientBox(c), k + 1) == Ok(points[k])
  {
    seq(5, k requires 0 <= k < 5 => Sample(CoefficientBox(c), k + 1).value)
  }

  /**
   * The round-trip test: for any box with five coefficients (what
   * randomSecretBox(5) builds), the point box of its samples at x = 1..5
   * has the same secret, secret hash and HMAC of the challenge 123.
   */
  lemma FiveSamplesKeepSecret(c: seq<int>, digest: Bytes -> Bytes, mac: (Bytes, Bytes) -> Bytes)
    requires |c| == 5
    ensures var b := FromPoints(FiveSamples(c));
      Secret(b) == Secret(CoefficientBox(c)) && Secret(b).Ok?
      && SecretHash(b, digest) == SecretHash(CoefficientBox(c), digest)
      && Hmac(b, mac, 123) == Hmac(CoefficientBox(c), mac, 123)
  {
    var points := FiveSamples(c);
    var xs := Xs(points);
    forall i, j | 0 <= i < 5 && 0 <= j < 5 && i != j
      ensures IsUnit(xs[i] - xs[j])
    {
      if i < j {
        SmallUnits(j - i);
      } else {
        SmallUnits(i - j);
      }
    }
    SamplesKeepSecret(c, points, digest, mac, 123);
  }
}

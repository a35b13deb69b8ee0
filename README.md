# libanonauth core, modelled in Dafny

libanonauth is an anonymous-authentication scheme built on Shamir secret
sharing over the prime field P = 2^128 + 51. A door broadcasts
`k` public points of the current secret polynomial, a hash of that
polynomial's secret and a challenge. A card adds its own private point
for polynomial `k`, interpolates the secret, checks the secret against
the hash and answers with an HMAC of the challenge keyed by the secret.
A revoked card's private point shares its x with one of the public points.
Interpolation then has no modular inverse, and the card fails.

The model covers four parts of the code:

- `Polynomial` (polynomial.dfy). The methods `RandomBigInteger`,
  `RandomPolynomial`, `SamplePolynomial` and `Interpolate` keep the
  source's loops. Each is proved against a recursive specification
  function (`Accepted`, `Eval`, `Interpolation`).
- The modular inverse by extended Euclid is in field.dfy.
- Lagrange interpolation itself is proved in lagrange.dfy:
  - it succeeds exactly when every pairwise difference of the x's is
    invertible;
  - a duplicate x makes it fail;
  - on enough samples of a polynomial it recovers the polynomial's value.
- `SecretBox` (secret_box.dfy) is a two-constructor datatype: a
  coefficient box or a point box. It has `Sample`, `Secret`,
  `GetCoefficients`, the factories, and `SecretHash`/`Hmac` over a digest
  and a MAC passed as function parameters. The central lemma: a point box
  built from enough samples of a coefficient box has the same secret, hash
  and HMAC.
- `ProtocolCard` (protocol_card.dfy) has `NumericRange` and the broadcast
  parser. The class `Card` carries `Authenticate`, with the source's
  running-offset loop. `Respond` is the function that specifies it.
- `ProtocolSecret` (protocol_secret.dfy) has:
  - the fixed-width encoder `CleanByteArray`, which is the inverse of
    `NumericRange`;
  - the destination offsets that `getBroadcast` writes to;
  - the proof that `authenticate` reads every field back from where it
    was written.
- jvm.dfy models the Java library behaviour the code relies on:
  - `BigInteger.toByteArray`;
  - `new BigInteger(1, bytes)`;
  - `Arrays.copyOfRange`, which zero-pads past the end;
  - `System.arraycopy`;
  - the exceptions, as a `Result` datatype.

Bytes are their unsigned view 0..255. `BigInteger`s are unbounded `int`s.
`mod` with the positive modulus PRIME is Dafny's `%`.

Three behaviours of the code shape the model:

- `SecretBox.hmac` wraps every failure in a `RuntimeException`
  (src/edu/mit/anonauth/SecretBox.java:114-125), the interpolation failure
  included. In `authenticate`, `secretHash` is computed first
  (src/edu/mit/anonauth/ProtocolCard.java:54), so a revoked card still
  ends in the `ArithmeticException` from `modInverse` (`RevokedCardFails`).
- A point box holds a `List<Point>` (src/edu/mit/anonauth/SecretBox.java:43):
  order and duplicates are kept, and the model's point box is a sequence.
- Interpolation's success condition is stated as "every pairwise difference
  of the x's is invertible modulo PRIME", which is exactly when every
  `modInverse` call at src/edu/mit/anonauth/Polynomial.java:62 succeeds.
  This is the same as "the x's are distinct modulo PRIME" when PRIME is
  prime, and primality is not proved here.

## Model

| member | source | states |
|---|---|---|
| Polynomial.RandomBigInteger | src/edu/mit/anonauth/Polynomial.java:17-24 | returns the first draw below PRIME, so 0 <= r < PRIME; every earlier draw was >= PRIME; running out of draws is the only failure |
| Polynomial.RandomPolynomial | src/edu/mit/anonauth/Polynomial.java:26-38 | degree < 0 fails with the degree exception before drawing; otherwise exactly degree+1 coefficients, the first the intercept, the rest the next accepted draws, each in [0, PRIME) |
| Polynomial.AcceptedAppend | src/edu/mit/anonauth/SecretBox.java:65-66 | the values kept by two successive rejection loops (the secret, then the coefficients) are the values kept over the concatenated draws |
| Polynomial.SamplePolynomial | src/edu/mit/anonauth/Polynomial.java:40-47 | the loop's result is the polynomial's value at x reduced modulo PRIME, in [0, PRIME); an empty list gives 0 |
| Polynomial.PowerSumIsEval | src/edu/mit/anonauth/Polynomial.java:42-45 | the loop's sum of c[e]*x^e over all e equals the Horner evaluation of the coefficient list |
| Polynomial.EvalAtZero | src/edu/mit/anonauth/PolynomialTest.java:54-59 | the polynomial at 0 is its first coefficient, so sampling at 0 gives back the intercept of randomPolynomial |
| Polynomial.EvalCongruent | src/edu/mit/anonauth/Polynomial.java:44 | x's congruent modulo PRIME give congruent polynomial values |
| Polynomial.SampleShift | src/edu/mit/anonauth/PolynomialTest.java:72-82 | shifting x by PRIME does not change the sampled value |
| Polynomial.LagrangeFactors | src/edu/mit/anonauth/Polynomial.java:52-60 | the inner loop leaves numerator and denominator equal to the products over all other points of (at - x_j) and (x_i - x_j) mod PRIME |
| Polynomial.Interpolation | src/edu/mit/anonauth/Polynomial.java:49-66 | an empty list gives 0; a result lies in [0, PRIME); the only failure is "not invertible" |
| Polynomial.AccumulateErrPersists | src/edu/mit/anonauth/Polynomial.java:62 | once modInverse has thrown, no later point changes the outcome |
| Polynomial.Interpolate | src/edu/mit/anonauth/Polynomial.java:49-66 | the nested loops compute exactly Interpolation(at, points), including its failure |
| Field.ModInverse | src/edu/mit/anonauth/Polynomial.java:62 | succeeds exactly when d is invertible modulo PRIME; the result is in [0, PRIME) and is an inverse of d; otherwise "not invertible" |
| Field.NoInverseUnlessCoprime | src/edu/mit/anonauth/Polynomial.java:62 | when the gcd of d mod PRIME and PRIME is not 1, d has no inverse at all |
| Field.BezoutInverse | src/edu/mit/anonauth/Polynomial.java:62 | a Bezout coefficient of d, reduced modulo PRIME, is an inverse of d |
| Field.ExtendedGcdBezout | src/edu/mit/anonauth/Polynomial.java:62 | extended Euclid returns coefficients s, t with s*a + t*b == g |
| Field.ExtendedGcdDivides | src/edu/mit/anonauth/Polynomial.java:62 | the g returned by extended Euclid divides both inputs and is positive unless both are 0 |
| Lagrange.AccumulateOk | src/edu/mit/anonauth/Polynomial.java:51-64 | the first m iterations succeed exactly when each of their denominators is invertible |
| Lagrange.DenominatorUnit | src/edu/mit/anonauth/Polynomial.java:55-60 | point i's denominator is invertible exactly when each difference x_i - x_j (j != i) is |
| Lagrange.InterpolationSucceeds | src/edu/mit/anonauth/Polynomial.java:49-66 | interpolate returns a value exactly when every difference of two x's at different positions is invertible modulo PRIME |
| Lagrange.DuplicateXFails | src/edu/mit/anonauth/Polynomial.java:55-62 | two points at different positions with the same x make interpolate throw "not invertible" |
| Lagrange.AccumulateIsCombination | src/edu/mit/anonauth/Polynomial.java:51-64 | the running intercept is congruent to the Lagrange polynomial built from the first m points, evaluated at `at` |
| Lagrange.CombinationAtNode | src/edu/mit/anonauth/Polynomial.java:55-63 | the Lagrange polynomial of the first m points, at node k, is w_k times the product of (x_k - x_j) if k < m, and 0 otherwise |
| Lagrange.InterpolationRecovers | src/edu/mit/anonauth/PolynomialTest.java:84-90 | on samples of a polynomial with at most as many coefficients as points, whose pairwise x differences are all invertible modulo PRIME, interpolate returns its value at `at` mod PRIME (the intercept for at = 0) |
| Lagrange.InterpolationAtNode | src/edu/mit/anonauth/Polynomial.java:49-66 | interpolating at one of the points' x gives that point's y mod PRIME |
| SecretBoxes.Sample | src/edu/mit/anonauth/SecretBox.java:29-32 | a coefficient box always samples (x, polynomial value mod PRIME); a point box samples exactly when interpolate succeeds; the x is the argument and y is in [0, PRIME) |
| SecretBoxes.PointBoxThroughPoints | src/edu/mit/anonauth/SecretBox.java:49-52 | a point box passes through each of its own points |
| SecretBoxes.Secret | src/edu/mit/anonauth/SecretBox.java:90-92 | for a coefficient box, the first coefficient mod PRIME (0 when there is none); for a point box, it succeeds exactly when interpolation does; only "not invertible" fails |
| SecretBoxes.GetCoefficients | src/edu/mit/anonauth/SecretBox.java:34-36 | the stored list for a coefficient box; UnsupportedOperation for a point box, and only for one |
| SecretBoxes.FromCoefficients | src/edu/mit/anonauth/SecretBox.java:129-131 | the box hands back exactly the given list and samples everywhere |
| SecretBoxes.FromPoints | src/edu/mit/anonauth/SecretBox.java:75-77 | nothing is checked at construction; the box has no coefficients and samples exactly when the x differences are invertible |
| SecretBoxes.SecretHash | src/edu/mit/anonauth/SecretBox.java:98-107 | succeeds exactly when secret() does; its failure is the interpolation failure |
| SecretBoxes.Hmac | src/edu/mit/anonauth/SecretBox.java:114-125 | succeeds exactly when secret() does; any failure becomes a RuntimeException |
| SecretBoxes.SecretPolynomial | src/edu/mit/anonauth/SecretBox.java:65-66 | drawing the secret and then randomPolynomial(degree, secret) yields the first degree + 1 accepted draws; a negative degree fails with the degree exception once the secret is drawn, otherwise only running out of draws fails |
| SecretBoxes.RandomSecretBox | src/edu/mit/anonauth/SecretBox.java:64-68 | the degree is the 32-bit `int` k - 1, so INT_MIN wraps to INT_MAX; a negative degree fails through the degree check, after the secret is drawn; otherwise a coefficient box of the first degree + 1 accepted draws whose secret is its first coefficient |
| Jvm.IntSub | src/edu/mit/anonauth/SecretBox.java:66 | Java `int` subtraction: the exact difference when it fits in 32 bits, otherwise the difference plus or minus 2^32 |
| SecretBoxes.SecretDeterminesDigests | src/edu/mit/anonauth/SecretBox.java:98-125 | secretHash and hmac depend on a box only through secret(): boxes of either variant with equal secrets give equal digests and equal HMACs of every challenge |
| SecretBoxes.SamplesKeepSecret | src/edu/mit/anonauth/SecretBox.java:98-125 | a point box of at least |c| samples of a coefficient box has the same secret, secret hash and HMAC |
| SecretBoxes.FiveSamplesKeepSecret | src/edu/mit/anonauth/SecretBoxTest.java:29-45 | the point box of the samples at x = 1..5 of a five-coefficient box has the same secret, hash and HMAC(123) |
| ProtocolCard.NumericRange | src/edu/mit/anonauth/ProtocolCard.java:65-68 | the bytes [offset, offset+len) read unsigned big-endian, below 256^len; past-the-end bytes read as 0; a bad offset or negative length is the matching exception |
| ProtocolCard.PublicPointRead | src/edu/mit/anonauth/ProtocolCard.java:32-41 | public point i is x from bytes [1+18i, 3+18i) and y from [3+18i, 19+18i) |
| ProtocolCard.ParseBroadcast | src/edu/mit/anonauth/ProtocolCard.java:26-46 | succeeds exactly when the broadcast has at least 33+18k bytes; k is byte 0 (<= 255); the points, hash and challenge come from their offsets |
| ProtocolCard.ParseBroadcastFields | src/edu/mit/anonauth/ProtocolCard.java:26-46 | a broadcast with the fields laid out at those offsets parses to exactly those fields |
| ProtocolCard.Card.ReadPoints | src/edu/mit/anonauth/ProtocolCard.java:31-41 | the offset loop reads k points and fails exactly when the last y would start past the end |
| ProtocolCard.Card.ReadBroadcast | src/edu/mit/anonauth/ProtocolCard.java:26-46 | the reading code computes exactly ParseBroadcast |
| ProtocolCard.Respond | src/edu/mit/anonauth/ProtocolCard.java:24-59 | returns the HMAC of the challenge exactly when the broadcast parses, the card has a point for k, interpolation succeeds and the hash matches; each failure is pinned to its exception: a short broadcast to ArrayIndexOutOfBounds, a missing card point to IndexOutOfBounds, a failed interpolation to the arithmetic NotInvertible, a wrong hash to BroadcastMismatch |
| ProtocolCard.Card.Authenticate | src/edu/mit/anonauth/ProtocolCard.java:24-59 | computes Respond on the broadcast with the card's points; it changes nothing |
| ProtocolCard.Card.constructor | src/edu/mit/anonauth/ProtocolCard.java:15-17 | stores the private points as given |
| ProtocolSecret.GenuineCardSucceeds | src/edu/mit/anonauth/ProtocolTest.java:17-25 | a card whose point for k is one more sample of the door's polynomial, at an x whose differences with the public x's are invertible, answers the door's broadcast with the HMAC of the challenge keyed by the door's secret |
| ProtocolCard.RevokedCardFails | src/edu/mit/anonauth/ProtocolTest.java:106-115 | a private point sharing its x with a public point makes authenticate throw the arithmetic exception, the failure the test exchange counts as access denied |
| ProtocolCard.WrongHashFails | src/edu/mit/anonauth/ProtocolCard.java:54-56 | a hash that does not match the reconstructed secret is a BroadcastMismatchException and no HMAC |
| Jvm.ToByteArray | src/edu/mit/anonauth/SecretBox.java:106 | BigInteger.toByteArray of a non-negative value: a sign bit of 0, its unsigned reading is the value, and it is minimal |
| Jvm.ToByteArrayStripped | src/edu/mit/anonauth/ProtocolSecret.java:70-75 | dropping a leading 0 byte from toByteArray leaves the minimal magnitude |
| Jvm.Magnitude | src/edu/mit/anonauth/ProtocolSecret.java:70-75 | the minimal big-endian magnitude: it reads back as the value, has no leading zero and is the shortest encoding |
| Jvm.MagnitudeOfUnsigned | src/edu/mit/anonauth/ProtocolSecret.java:77 | any fixed-width encoding is zeros followed by the minimal magnitude |
| Jvm.UnsignedLeadingZeros | src/edu/mit/anonauth/ProtocolCard.java:67 | leading zero bytes do not change the unsigned reading |
| Jvm.CopyOfRange | src/edu/mit/anonauth/ProtocolCard.java:66 | Arrays.copyOfRange: to-from bytes, zero past the end; from > to and from outside the array are exceptions |
| Jvm.ArrayCopy | src/edu/mit/anonauth/ProtocolSecret.java:73 | System.arraycopy: copies exactly the range and leaves the rest of dest unchanged; out-of-range positions throw with dest untouched |
| ProtocolSecret.StripSign | src/edu/mit/anonauth/ProtocolSecret.java:70-75 | toByteArray with a leading 0 byte removed is the minimal magnitude |
| ProtocolSecret.FixedWidth | src/edu/mit/anonauth/ProtocolSecret.java:66-79 | exactly n bytes whose unsigned reading is v; a value needing more than n bytes is an exception, never truncated |
| ProtocolSecret.FixedWidthLayout | src/edu/mit/anonauth/ProtocolSecret.java:76-77 | the magnitude is right-aligned and the first n - |magnitude| bytes are zero |
| ProtocolSecret.CleanByteArray | src/edu/mit/anonauth/ProtocolSecret.java:66-79 | computes exactly FixedWidth(v, fixedLength), including its two exceptions |
| ProtocolSecret.FixedWidthOfUnsigned | src/edu/mit/anonauth/ProtocolSecret.java:66-79 | encoding the unsigned reading of n bytes at width n gives the same bytes back |
| ProtocolSecret.FixedWidthRoundTrip | src/edu/mit/anonauth/ProtocolCard.java:65-68 | numericRange over the bytes cleanByteArray wrote gives back the value |
| ProtocolSecret.FitsWidths | src/edu/mit/anonauth/ProtocolSecret.java:55-56 | a point fits its 2- and 16-byte cells exactly when both encodings succeed |
| ProtocolSecret.PointBytesFields | src/edu/mit/anonauth/ProtocolSecret.java:55-58 | the 18-byte cell of a point is its x in 2 bytes, then its y in 16, and each reads back |
| ProtocolSecret.WritePoint | src/edu/mit/anonauth/ProtocolSecret.java:54-58 | writes point i's 18 bytes at 1+18i and leaves every other byte unchanged; a point too wide throws |
| ProtocolSecret.WritePoints | src/edu/mit/anonauth/ProtocolSecret.java:52-59 | succeeds exactly when every point fits; then bytes [1, 1+18k) are the points' cells in order and the bytes from 1+18k on are unchanged; on failure the cells of the points before the first one that does not fit are written and every other byte is unchanged |
| ProtocolSecret.EncodablePrefix | src/edu/mit/anonauth/ProtocolSecret.java:52-59 | the number of points the loop writes before its first exception: every point before it fits, the one at it does not, and it is the whole list exactly when every point fits |
| ProtocolSecret.WriteTrailer | src/edu/mit/anonauth/ProtocolSecret.java:60-61 | writes the first 32 bytes of the hash at destination 1+18k and the first 16 of the challenge at 33+18k, and keeps the bytes before them; fails when either is too short, a short hash leaving the array unchanged and a short challenge leaving it with the hash written and the last 16 bytes unchanged |
| ProtocolSecret.GetBroadcast | src/edu/mit/anonauth/ProtocolSecret.java:49-63 | returns exactly the broadcast layout of the points, hash and challenge; fails exactly when a point or the trailer does not fit |
| ProtocolSecret.BroadcastFrame | src/edu/mit/anonauth/ProtocolSecret.java:41-48 | the broadcast is 49+18k bytes: k in byte 0, the hash at [1+18k, 33+18k), the challenge at [33+18k, 49+18k) |
| ProtocolSecret.BroadcastPointOffsets | src/edu/mit/anonauth/ProtocolSecret.java:57-58 | point i's x lies at [1+18i, 3+18i) and its y at [3+18i, 19+18i), where the card reads them |
| ProtocolSecret.BroadcastRoundTrip | src/edu/mit/anonauth/ProtocolCard.java:26-46 | parsing a broadcast the door wrote gives back k, the points, the hash and the challenge |

## Left out

- The door, with `revoke`, `privatePoints`, `getBroadcast` and `checkResponse`: ProtocolDoor.java is not part of this model. The revocation test is modelled only from the card's side, in `RevokedCardFails`.
- SHA-256 and HMAC-SHA256 are not modelled. `SecretHash` and `Hmac` take the digest and the MAC as function parameters, and the 32-byte digest length is not assumed.
- `SecureRandom` is a finite sequence of draws, each in [0, 2^129). Running out is `OutOfDraws`, an error Java never raises, since its rejection loop may run forever.
- The primality of PRIME is not proved. Interpolation results are stated under "pairwise x differences invertible modulo PRIME", and `Lagrange.InterpolationSucceeds` proves that condition is exactly when interpolate succeeds.
- `Polynomial.Interpolate` skips a point by position (`i != j`), where the code tests reference identity (`point == other`). The two differ only if the same object occurs twice in the list, which no caller does.
- Java serialization is not modelled: `Serializable` and the stream tests. It is I/O.
- The rest of `ProtocolSecret` is not modelled: its constructor, `setUpScheme`, `matchesHMAC` and its fields. That part of the class does not compile as written.
- ProtocolSecret.GetBroadcast: the code allocates a zero-length `command` array, which would fail at the first write. The model allocates the full 49+18k bytes.
- ProtocolSecret.GetBroadcast: the code copies the hash and the challenge from source offsets `k*32` and `k*16`. The model copies from offset 0 and models only the destination offsets.
- ProtocolSecret.WriteTrailer: the code copies the hash from source offset `k*32` and the challenge from source offset `k*16` (src/edu/mit/anonauth/ProtocolSecret.java:60-61). That throws for any k >= 1 with a 32-byte hash and 16-byte challenge. The model copies both from offset 0, and only the destination offsets 1+18k and 33+18k follow the code.
- ProtocolSecret.GetBroadcast: it takes the public points as a parameter, with `k` their number, instead of reading object fields. The cast `(byte) k` is written as `k % 256`.
- ProtocolSecret.CleanByteArray requires v >= 0, as its own comment assumes. A negative value's two's-complement encoding is not modelled.
- ProtocolSecret.CleanByteArray reads `array.size()` as `array.length`.
- `ProtocolSecretTest.parseBroadcast` is not modelled. It is a test draft that does not compile.
- `Point.toString` is not modelled, and neither is the body of `BroadcastMismatchException`; the exception is a variant of `Exception` only.
- SecretBoxes.Hmac takes a non-negative challenge (`nat`), since the card only passes the unsigned value it parsed.
- Java's signed `byte` is modelled as its unsigned value 0..255, the reading every call site uses.
- `Card.Authenticate` has no `modifies` clause, so it cannot change the card's private points. The check is made by Dafny's framing rather than stated in the contract.

/**
 * ProtocolCard.java: the card side of the anonymous authentication
 * protocol.  The door broadcasts
 *
 *   byte 0                  k, the number of public points
 *   bytes 1+18i .. 3+18i    x of public point i   (2 bytes, unsigned)
 *   bytes 3+18i .. 19+18i   y of public point i   (16 bytes, unsigned)
 *   bytes 1+18k .. 33+18k   hash of the secret    (32 bytes)
 *   bytes 33+18k .. 49+18k  challenge             (16 bytes, unsigned)
 *
 * and the card adds its own point for polynomial k, interpolates the
 * secret, checks it against the hash and answers with an HMAC of the
 * challenge keyed by the secret.
 */
module ProtocolCard {
  import opened Jvm
  import opened Points
  import opened Field
  import opened Polynomial
  import opened Lagrange
  import opened SecretBoxes

  /**
   * numericRange(array, offset, len): bytes [offset, offset + len) read as
   * an unsigned big-endian number; bytes past the end of the array read as
   * zero, and a start outside the array is an exception.
   */
  function NumericRange(a: Bytes, offset: int, len: int): (r: Result<nat>)
    ensures r.Ok? <==> 0 <= offset <= |a| && 0 <= len
    ensures r.Err? ==> r.error == if len < 0 then IllegalArgument else ArrayIndexOutOfBounds
    ensures r.Ok? ==> r.value < Pow256(len)
    ensures r.Ok? && offset + len <= |a| ==> r.value == Unsigned(a[offset..offset + len])
    ensures r.Ok? && offset + len > |a| ==> r.value == Unsigned(a[offset..] + Zeros(offset + len - |a|))
  {
    var bytes :- CopyOfRange(a, offset, offset + len);
    assert offset + len <= |a| ==> bytes == a[offset..offset + len];
    assert offset + len > |a| ==> bytes == a[offset..] + Zeros(offset + len - |a|);
    Ok(Unsigned(bytes))
  }

  /** Points read so far agree with PublicPoint wherever their bytes lie inside b. */
  predicate ReadSoFar(b: Bytes, points: seq<Point>) {
    forall j :: 0 <= j < |points| && 19 + 18 * j <= |b| ==> points[j] == PublicPoint(b, j)
  }

  /** One more point read with numericRange keeps ReadSoFar. */
  lemma ReadOneMore(b: Bytes, points: seq<Point>, p: Point)
    requires ReadSoFar(b, points)
    requires var i := |points|; NumericRange(b, 1 + 18 * i, 2).Ok? && NumericRange(b, 3 + 18 * i, 16).Ok?
    requires var i := |points|; p == Point(NumericRange(b, 1 + 18 * i, 2).value, NumericRange(b, 3 + 18 * i, 16).value)
    ensures ReadSoFar(b, points + [p])
  {
    var i := |points|;
    forall j | 0 <= j < i + 1 && 19 + 18 * j <= |b|
      ensures (points + [p])[j] == PublicPoint(b, j)
    {
      if j == i {
        PublicPointRead(b, i);
      }
    }
  }

  /** What the card reads out of a broadcast. */
  datatype Broadcast = Broadcast(k: nat, points: seq<Point>, hash: Bytes, challenge: nat)

  /** The first byte read unsigned (an empty broadcast pads it to 0). */
  function BroadcastK(b: Bytes): nat {
    if b == [] then 0 else b[0]
  }

  function PublicPoint(b: Bytes, i: nat): Point
    requires 19 + 18 * i <= |b|
  {
    Point(Unsigned(b[1 + 18 * i..3 + 18 * i]), Unsigned(b[3 + 18 * i..19 + 18 * i]))
  }

  /** Reading point i's two fields with numericRange gives PublicPoint(b, i) when they lie inside b. */
  lemma PublicPointRead(b: Bytes, i: nat)
    requires 19 + 18 * i <= |b|
    ensures NumericRange(b, 1 + 18 * i, 2).Ok? && NumericRange(b, 3 + 18 * i, 16).Ok?
    ensures Point(NumericRange(b, 1 + 18 * i, 2).value, NumericRange(b, 3 + 18 * i, 16).value) == PublicPoint(b, i)
  {
  }

  /**
   * The layout above, read at fixed offsets.  Every read starts inside the
   * broadcast exactly when the challenge's does, so the only failure is a
   * broadcast shorter than 33 + 18k bytes; a challenge cut short is padded
   * with zero bytes.
   */
  function ParseBroadcast(b: Bytes): (r: Result<Broadcast>)
    ensures r.Ok? <==> |b| >= 33 + 18 * BroadcastK(b)
    ensures r.Err? ==> r.error == ArrayIndexOutOfBounds
    ensures r.Ok? ==> r.value.k == BroadcastK(b) <= 255 && |r.value.points| == r.value.k
    ensures r.Ok? ==> var k := r.value.k;
      (forall i :: 0 <= i < k ==>
        r.value.points[i].x == Unsigned(b[1 + 18 * i..3 + 18 * i]) < 0x1_0000
        && r.value.points[i].y == Unsigned(b[3 + 18 * i..19 + 18 * i]))
      && r.value.hash == b[1 + 18 * k..33 + 18 * k]
      && r.value.challenge == Unsigned(CopyOfRange(b, 33 + 18 * k, 49 + 18 * k).value)
  {
    var k := BroadcastK(b);
    if |b| < 33 + 18 * k then Err(ArrayIndexOutOfBounds)
    else
      Ok(Broadcast(k, seq(k, i requires 0 <= i < k => PublicPoint(b, i)), b[1 + 18 * k..33 + 18 * k],
        Unsigned(CopyOfRange(b, 33 + 18 * k, 49 + 18 * k).value)))
  }

  /**
   * The converse reading: a broadcast of exactly 49 + 18k bytes whose fields
   * hold k, the points, the hash and the challenge parses to them.
   */
  lemma ParseBroadcastFields(b: Bytes, points: seq<Point>, hash: Bytes, challenge: Bytes)
    requires |points| <= 255 && |b| == 49 + 18 * |points| && b[0] == |points|
    requires forall i :: 0 <= i < |points| ==>
      Unsigned(b[1 + 18 * i..3 + 18 * i]) == points[i].x && Unsigned(b[3 + 18 * i..19 + 18 * i]) == points[i].y
    requires b[1 + 18 * |points|..33 + 18 * |points|] == hash && b[33 + 18 * |points|..] == challenge
    ensures ParseBroadcast(b) == Ok(Broadcast(|points|, points, hash, Unsigned(challenge)))
  {
    var k := |points|;
    assert BroadcastK(b) == k;
    var bc := ParseBroadcast(b).value;
    assert bc.points == points;
    assert CopyOfRange(b, 33 + 18 * k, 49 + 18 * k).value == challenge;
  }

  /** A reading that got through the challenge is ParseBroadcast's. */
  lemma ReadComplete(b: Bytes, points: seq<Point>, at: int, hash: Bytes, challenge: nat)
    requires |points| == BroadcastK(b) && ReadSoFar(b, points) && at == 1 + 18 * |points|
    requires CopyOfRange(b, at, at + 32) == Ok(hash) && NumericRange(b, at + 32, 16) == Ok(challenge)
    ensures ParseBroadcast(b) == Ok(Broadcast(|points|, points, hash, challenge))
  {
    var k := |points|;
    assert at + 32 == 33 + 18 * k;
    assert points == seq(k, j requires 0 <= j < k => PublicPoint(b, j));
  }

  /** The secret box a card builds: the public points in broadcast order, then its own point k. */
  function Reconstruction(broadcast: Broadcast, privatePoints: seq<Point>): SecretBox
    requires broadcast.k < |privatePoints|
  {
    FromPoints(broadcast.points + [privatePoints[broadcast.k]])
  }

  /**
   * The answer of authenticate(broadcast): the HMAC of the challenge keyed
   * by the reconstructed secret, or one of the ways it fails.
   */
  function Respond(b: Bytes, privatePoints: seq<Point>, digest: Bytes -> Bytes,
                   mac: (Bytes, Bytes) -> Bytes): (r: Result<Bytes>)
    ensures ParseBroadcast(b).Err? ==> r == Err(ArrayIndexOutOfBounds)
    ensures ParseBroadcast(b).Ok? && ParseBroadcast(b).value.k >= |privatePoints| ==> r == Err(IndexOutOfBounds)
    ensures r.Err? ==> r.error in {ArrayIndexOutOfBounds, IndexOutOfBounds, NotInvertible, BroadcastMismatch}
    ensures ParseBroadcast(b).Ok? && ParseBroadcast(b).value.k < |privatePoints| ==>
      Secret(Reconstruction(ParseBroadcast(b).value, privatePoints)).Err? ==> r == Err(NotInvertible)
    ensures ParseBroadcast(b).Ok? && ParseBroadcast(b).value.k < |privatePoints| ==>
      var secret := Secret(Reconstruction(ParseBroadcast(b).value, privatePoints));
      secret.Ok? && digest(ToByteArray(secret.value)) != ParseBroadcast(b).value.hash ==> r == Err(BroadcastMismatch)
    ensures r.Ok? <==> (ParseBroadcast(b).Ok? && ParseBroadcast(b).value.k < |privatePoints|
      && var box := Reconstruction(ParseBroadcast(b).value, privatePoints);
        Secret(box).Ok? && digest(ToByteArray(Secret(box).value)) == ParseBroadcast(b).value.hash)
    ensures r.Ok? ==> var bc := ParseBroadcast(b).value;
      r.value == mac(ToByteArray(Secret(Reconstruction(bc, privatePoints)).value), ToByteArray(bc.challenge))
  {
    var bc :- ParseBroadcast(b);
    if bc.k >= |privatePoints| then Err(IndexOutOfBounds)
    else
      var box := Reconstruction(bc, privatePoints);
      var h :- SecretHash(box, digest);
      if h != bc.hash then Err(BroadcastMismatch)
      else Hmac(box, mac, bc.challenge)
  }

  /**
   * A revoked card: when the card's own point shares its x with one of the
   * public points, interpolation fails and the arithmetic exception comes
   * back instead of an HMAC: the kind of failure the exchange in the
   * protocol tests catches and turns into "access denied".
   */
  lemma RevokedCardFails(b: Bytes, privatePoints: seq<Point>, digest: Bytes -> Bytes,
                         mac: (Bytes, Bytes) -> Bytes, j: nat)
    requires ParseBroadcast(b).Ok?
    requires var bc := ParseBroadcast(b).value;
      bc.k < |privatePoints| && j < bc.k && bc.points[j].x == privatePoints[bc.k].x
    ensures Respond(b, privatePoints, digest, mac) == Err(NotInvertible)
    ensures Respond(b, privatePoints, digest, mac).error.IsArithmetic()
  {
    var bc := ParseBroadcast(b).value;
    var points := bc.points + [privatePoints[bc.k]];
    DuplicateXFails(0, points, j, bc.k);
  }

  /** A hash that does not match the reconstructed secret is a BroadcastMismatchException. */
  lemma WrongHashFails(b: Bytes, privatePoints: seq<Point>, digest: Bytes -> Bytes, mac: (Bytes, Bytes) -> Bytes)
    requires ParseBroadcast(b).Ok?
    requires var bc := ParseBroadcast(b).value;
      bc.k < |privatePoints| && PairwiseUnits(Xs(bc.points + [privatePoints[bc.k]]))
      && digest(ToByteArray(Secret(Reconstruction(bc, privatePoints)).value)) != bc.hash
    ensures Respond(b, privatePoints, digest, mac) == Err(BroadcastMismatch)
  {
  }

  /** ProtocolCard: a card holding one private point per polynomial. */
  class Card {
    var privatePoints: seq<Point>

    constructor(privatePoints: seq<Point>)
      ensures this.privatePoints == privatePoints
    {
      this.privatePoints := privatePoints;
    }

    /**
     * The reading half of authenticate(broadcast): k from byte 0, then the
     * points, the hash and the challenge with a running offset.
     */
    static method ReadBroadcast(b: Bytes) returns (r: Result<Broadcast>)
      ensures r == ParseBroadcast(b)
    {
      var offset := 0;
      var kr := NumericRange(b, offset, 1);
      var k := kr.value;
      assert k == BroadcastK(b) by {
        if b != [] {
          assert b[0..1] == [b[0]];
          assert b[0..1][..0] == [];
        }
      }
      offset := offset + 1;
      var read := ReadPoints(b, k);
      if read.Err? {
        return Err(read.error);
      }
      var points := read.value;
      offset := offset + 18 * k;
      ghost var hashAt := offset;
      var secretHash := CopyOfRange(b, offset, offset + 32);
      if secretHash.Err? {
        return Err(secretHash.error);
      }
      offset := offset + 32;
      var challenge := NumericRange(b, offset, 16);
      if challenge.Err? {
        return Err(challenge.error);
      }
      ReadComplete(b, points, hashAt, secretHash.value, challenge.value);
      return Ok(Broadcast(k, points, secretHash.value, challenge.value));
    }

    /**
     * The loop of authenticate over the k public points: x (2 bytes) and y
     * (16 bytes) of each with numericRange, starting at offset 1.  It fails
     * exactly when the last y would start past the end of the broadcast.
     */
    static method ReadPoints(b: Bytes, k: nat) returns (r: Result<seq<Point>>)
      ensures r.Ok? <==> k == 0 || 3 + 18 * (k - 1) <= |b|
      ensures r.Err? ==> r.error == ArrayIndexOutOfBounds
      ensures r.Ok? ==> |r.value| == k && ReadSoFar(b, r.value)
    {
      var offset := 1;
      var points: seq<Point> := [];
      for i := 0 to k
        invariant offset == 1 + 18 * i && |points| == i
        invariant i > 0 ==> 3 + 18 * (i - 1) <= |b|
        invariant ReadSoFar(b, points)
      {
        var x := NumericRange(b, offset, 2);
        if x.Err? {
          return Err(x.error);
        }
        offset := offset + 2;
        var y := NumericRange(b, offset, 16);
        if y.Err? {
          return Err(y.error);
        }
        offset := offset + 16;
        var p := Point(x.value, y.value);
        ReadOneMore(b, points, p);
        points := points + [p];
      }
      return Ok(points);
    }

    /**
     * authenticate(broadcast): read the broadcast, append the private
     * point, check the hash, return the HMAC.  It has no modifies clause:
     * neither the card's points nor the broadcast change.
     */
    method Authenticate(broadcast: array<Byte>, digest: Bytes -> Bytes, mac: (Bytes, Bytes) -> Bytes)
      returns (r: Result<Bytes>)
      ensures r == Respond(broadcast[..], privatePoints, digest, mac)
    {
      var read := ReadBroadcast(broadcast[..]);
      if read.Err? {
        return Err(read.error);
      }
      var bc := read.value;
      if bc.k >= |privatePoints| {
        return Err(IndexOutOfBounds);
      }
      var points := bc.points + [privatePoints[bc.k]];
      var box := FromPoints(points);
      var h := SecretHash(box, digest);
      if h.Err? {
        return Err(h.error);
      }
      if bc.hash != h.value {
        return Err(BroadcastMismatch);
      }
      return Hmac(box, mac, bc.challenge);
    }
  }
}

/**
 * ProtocolSecret.java, the door side: `cleanByteArray`, the fixed-width
 * unsigned encoder, and the byte layout `getBroadcast` writes, which is
 * the layout ProtocolCard.authenticate reads.
 */
module ProtocolSecret {
  import opened Jvm
  import opened Points
  import opened ProtocolCard
  import opened Lagrange
  import opened SecretBoxes

  /**
   * The fixed-width encoding of v in n bytes: the magnitude of v,
   * right-aligned after zero bytes.  A negative width is a
   * NegativeArraySizeException; a magnitude wider than n bytes is an
   * ArrayIndexOutOfBoundsException (never a truncation).
   */
  function FixedWidth(v: nat, n: int): (r: Result<Bytes>)
    ensures r.Ok? <==> 0 <= n && v < Pow256(n)
    ensures r.Err? ==> r.error == if n < 0 then NegativeArraySize else ArrayIndexOutOfBounds
    ensures r.Ok? ==> |r.value| == n && Unsigned(r.value) == v
  {
    if n < 0 then Err(NegativeArraySize)
    else
      var m := Magnitude(v);
      MagnitudeFits(v, n);
      if |m| > n then Err(ArrayIndexOutOfBounds)
      else
        UnsignedLeadingZeros(n - |m|, m);
        Ok(Zeros(n - |m|) + m)
  }

  /** The magnitude bytes are right-aligned: everything before them is zero. */
  lemma FixedWidthLayout(v: nat, n: int)
    requires FixedWidth(v, n).Ok?
    ensures var r, m := FixedWidth(v, n).value, Magnitude(v);
      |m| <= n && (forall i :: 0 <= i < n - |m| ==> r[i] == 0) && r[n - |m|..] == m
  {
    MagnitudeFits(v, n);
  }

  /** toByteArray with its leading zero sign byte, if any, dropped: the magnitude of v, in a fresh array. */
  method StripSign(v: nat) returns (encoded: array<Byte>)
    ensures fresh(encoded) && encoded[..] == Magnitude(v)
  {
    var bytes := ToByteArray(v);
    ToByteArrayStripped(v);
    encoded := DropLeadingZero(bytes);
  }

  /**
   * The array step of the above: the bytes in a fresh array and, when the
   * first is zero, a copy of the rest into an array one shorter.
   */
  method DropLeadingZero(bytes: Bytes) returns (encoded: array<Byte>)
    requires |bytes| >= 1
    ensures fresh(encoded)
    ensures encoded[..] == if bytes[0] == 0 then bytes[1..] else bytes
  {
    encoded := new Byte[|bytes|](i requires 0 <= i < |bytes| => bytes[i]);
    assert encoded[..] == bytes;
    if encoded[0] == 0 {
      var tmp := new Byte[encoded.Length - 1](_ => 0);
      var copied := ArrayCopy(encoded, 1, tmp, 0, tmp.Length);
      assert tmp[..] == bytes[1..];
      encoded := tmp;
    }
  }

  /**
   * cleanByteArray(v, fixedLength): strip the sign byte, then copy the
   * magnitude right-aligned into a fresh zero-filled array of the fixed
   * length.  The value is assumed non-negative, as cleanByteArray's own
   * comment says ("Assumes positive bigInteger").
   */
  method CleanByteArray(v: int, fixedLength: int) returns (r: Result<Bytes>)
    requires v >= 0
    ensures r == FixedWidth(v, fixedLength)
  {
    var encoded := StripSign(v);
    ghost var m := encoded[..];
    if fixedLength < 0 {
      return Err(NegativeArraySize);
    }
    var fixedArray := new Byte[fixedLength](_ => 0);
    var copied := ArrayCopy(encoded, 0, fixedArray, fixedLength - encoded.Length, encoded.Length);
    MagnitudeFits(v, fixedLength);
    if copied.Err? {
      return Err(copied.error);
    }
    var z := fixedLength - encoded.Length;
    forall j | 0 <= j < fixedLength
      ensures fixedArray[j] == (Zeros(z) + m)[j]
    {
      if j >= z {
        assert fixedArray[j] == m[j - z];
      }
    }
    assert fixedArray[..] == Zeros(z) + m;
    return Ok(fixedArray[..]);
  }

  /** numericRange then cleanByteArray: any n bytes are re-encoded to themselves. */
  lemma FixedWidthOfUnsigned(s: Bytes)
    ensures FixedWidth(Unsigned(s), |s|) == Ok(s)
  {
    MagnitudeOfUnsigned(s);
  }

  /** cleanByteArray then numericRange: reading the n bytes back at their offset gives v. */
  lemma FixedWidthRoundTrip(v: nat, n: nat, b: Bytes, offset: nat)
    requires FixedWidth(v, n).Ok? && offset + n <= |b| && b[offset..offset + n] == FixedWidth(v, n).value
    ensures NumericRange(b, offset, n) == Ok(v)
  {
  }

  /** A public point the broadcast can carry: x in 2 bytes, y in 16, both non-negative. */
  predicate Fits(p: Point) {
    0 <= p.x < 0x1_0000 && 0 <= p.y < 0x1_0000_0000_0000_0000_0000_0000_0000_0000
  }

  lemma FitsWidths(p: Point)
    requires p.x >= 0 && p.y >= 0
    ensures Fits(p) <==> FixedWidth(p.x, 2).Ok? && FixedWidth(p.y, 16).Ok?
  {
    assert Pow256(2) == 0x1_0000;
    assert Pow256(16) == 0x1_0000_0000_0000_0000_0000_0000_0000_0000;
  }

  /** The 18 bytes the broadcast carries for one public point: x in 2 bytes, then y in 16. */
  function PointBytes(p: Point): (r: Bytes)
    requires Fits(p)
    ensures |r| == 18
  {
    FitsWidths(p);
    FixedWidth(p.x, 2).value + FixedWidth(p.y, 16).value
  }

  /** The two fields of a point's cell, each read back as the number written. */
  lemma PointBytesFields(p: Point)
    requires Fits(p)
    ensures FixedWidth(p.x, 2).Ok? && FixedWidth(p.y, 16).Ok?
    ensures PointBytes(p)[..2] == FixedWidth(p.x, 2).value && PointBytes(p)[2..] == FixedWidth(p.y, 16).value
    ensures Unsigned(PointBytes(p)[..2]) == p.x && Unsigned(PointBytes(p)[2..]) == p.y
  {
    FitsWidths(p);
  }

  predicate Encodable(points: seq<Point>) {
    forall i :: 0 <= i < |points| ==> Fits(points[i])
  }

  /**
   * How many points getBroadcast's loop writes before cleanByteArray
   * throws: the position of the first point that does not fit, or all of
   * them.
   */
  function EncodablePrefix(points: seq<Point>): (n: nat)
    ensures n <= |points| && Encodable(points[..n])
    ensures n < |points| ==> !Fits(points[n])
    ensures n == |points| <==> Encodable(points)
  {
    if points == [] || !Fits(points[0]) then 0
    else
      var n := EncodablePrefix(points[1..]);
      assert points[..n + 1] == [points[0]] + points[1..][..n];
      n + 1
  }

  /** The first point that does not fit, after a run that does, is where EncodablePrefix stops. */
  lemma {:induction false} EncodablePrefixAt(points: seq<Point>, i: nat)
    requires i <= |points| && Encodable(points[..i]) && (i < |points| ==> !Fits(points[i]))
    ensures EncodablePrefix(points) == i
    ensures Encodable(points) <==> i == |points|
    decreases i
  {
    assert i == |points| ==> points[..i] == points;
    if i > 0 {
      assert points[1..][..i - 1] == points[1..i];
      EncodablePrefixAt(points[1..], i - 1);
    }
  }

  /** The cells of the public points, in order. */
  function PointCells(points: seq<Point>): (cells: seq<Bytes>)
    requires Encodable(points)
    ensures |cells| == |points|
    ensures forall i :: 0 <= i < |points| ==> cells[i] == PointBytes(points[i])
  {
    seq(|points|, i requires 0 <= i < |points| => PointBytes(points[i]))
  }

  /** Cells written back to back. */
  function Concat(cells: seq<Bytes>): Bytes {
    if cells == [] then [] else Concat(cells[..|cells| - 1]) + cells[|cells| - 1]
  }

  predicate Width18(cells: seq<Bytes>) {
    forall i :: 0 <= i < |cells| ==> |cells[i]| == 18
  }

  lemma ConcatSnoc(cells: seq<Bytes>, c: Bytes)
    ensures Concat(cells + [c]) == Concat(cells) + c
  {
    assert (cells + [c])[..|cells|] == cells;
  }

  lemma {:induction false} ConcatLength(cells: seq<Bytes>)
    requires Width18(cells)
    ensures |Concat(cells)| == 18 * |cells|
    decreases |cells|
  {
    if cells != [] {
      ConcatLength(cells[..|cells| - 1]);
    }
  }

  /** With every cell 18 bytes long, cell i sits at [18i, 18i + 18) of the concatenation. */
  lemma {:induction false} ConcatAt(cells: seq<Bytes>, i: nat)
    requires Width18(cells) && i < |cells|
    ensures |Concat(cells)| == 18 * |cells|
    ensures Concat(cells)[18 * i..18 * i + 18] == cells[i]
    decreases |cells|
  {
    var n := |cells|;
    var init, last := cells[..n - 1], cells[n - 1];
    ConcatLength(cells);
    ConcatLength(init);
    var front := Concat(init);
    assert Concat(cells) == front + last;
    if i < n - 1 {
      ConcatAt(init, i);
      SliceOfFront(front, last, 18 * i, 18 * i + 18);
    } else {
      SliceOfBack(front, last);
    }
  }

  lemma SliceOfFront(front: Bytes, back: Bytes, lo: nat, hi: nat)
    requires lo <= hi <= |front|
    ensures (front + back)[lo..hi] == front[lo..hi]
  {
  }

  lemma SliceOfBack(front: Bytes, back: Bytes)
    ensures (front + back)[|front|..|front| + |back|] == back
  {
  }

  /** A slice of the middle part of a concatenation is a slice of that part. */
  lemma SliceOfMiddle(front: Bytes, middle: Bytes, back: Bytes, lo: nat, hi: nat)
    requires lo <= hi <= |middle|
    ensures (front + middle + back)[|front| + lo..|front| + hi] == middle[lo..hi]
  {
  }

  /** The public points' bytes, back to back. */
  function PointsBytes(points: seq<Point>): (r: Bytes)
    requires Encodable(points)
  {
    Concat(PointCells(points))
  }

  lemma PointsBytesLength(points: seq<Point>)
    requires Encodable(points)
    ensures |PointsBytes(points)| == 18 * |points|
  {
    if points != [] {
      PointsBytesAt(points, 0);
    }
  }

  /** Taking one more point appends its cell. */
  lemma PointsBytesPrefix(points: seq<Point>, i: nat)
    requires i < |points| && Encodable(points[..i]) && Fits(points[i])
    ensures Encodable(points[..i + 1])
    ensures PointsBytes(points[..i + 1]) == PointsBytes(points[..i]) + PointBytes(points[i])
  {
    var front, p := points[..i], points[i];
    assert points[..i + 1] == front + [p];
    assert Encodable(front + [p]) by {
      forall j | 0 <= j < i + 1 ensures Fits((front + [p])[j]) {
        if j < i {
          assert (front + [p])[j] == front[j];
        }
      }
    }
    assert PointCells(front + [p]) == PointCells(front) + [PointBytes(p)];
    ConcatSnoc(PointCells(front), PointBytes(p));
  }

  /** Point i's bytes sit at [18i, 18i + 18) of the public points' bytes. */
  lemma PointsBytesAt(points: seq<Point>, i: nat)
    requires Encodable(points) && i < |points|
    ensures |PointsBytes(points)| == 18 * |points|
    ensures PointsBytes(points)[18 * i..18 * i + 18] == PointBytes(points[i])
  {
    ConcatAt(PointCells(points), i);
  }

  /**
   * getBroadcast's layout: k as a (byte) cast, the public points, the 32
   * hash bytes and the 16 challenge bytes.
   */
  function BroadcastBytes(points: seq<Point>, hash: Bytes, challenge: Bytes): Bytes
    requires Encodable(points) && |hash| >= 32 && |challenge| >= 16
  {
    var k: Byte := |points| % 256;
    [k] + PointsBytes(points) + hash[..32] + challenge[..16]
  }

  /**
   * System.arraycopy(src, 0, dest, destPos, length) from a byte array
   * holding src, stated on whole contents: the length bytes land at
   * destPos and nothing else changes.
   */
  method CopyInto(src: Bytes, dest: array<Byte>, destPos: int, length: int) returns (r: Result<()>)
    modifies dest
    ensures r.Ok? <==> 0 <= destPos && 0 <= length <= |src| && destPos + length <= dest.Length
    ensures r.Err? ==> r.error == ArrayIndexOutOfBounds && dest[..] == old(dest[..])
    ensures r.Ok? ==> dest[..] == old(dest[..destPos]) + src[..length] + old(dest[destPos + length..])
    ensures r.Ok? && length == |src| ==> dest[..] == old(dest[..destPos]) + src + old(dest[destPos + length..])
  {
    var source := new Byte[|src|](j requires 0 <= j < |src| => src[j]);
    r := ArrayCopy(source, 0, dest, destPos, length);
    if r.Ok? {
      assert dest[..] == old(dest[..destPos]) + src[..length] + old(dest[destPos + length..]);
      assert length == |src| ==> src[..length] == src;
    }
  }

  /** Two adjacent writes, of x at pos and of y right after it, extend the prefix before pos by x + y. */
  lemma AdjacentWrites(s0: Bytes, s1: Bytes, s2: Bytes, pos: nat, x: Bytes, y: Bytes)
    requires pos + |x| + |y| <= |s0|
    requires s1 == s0[..pos] + x + s0[pos + |x|..]
    requires s2 == s1[..pos + |x|] + y + s1[pos + |x| + |y|..]
    ensures |s2| == |s0| && s2[..pos + |x| + |y|] == s0[..pos] + (x + y)
  {
    assert s1[..pos + |x|] == s0[..pos] + x;
  }

  /**
   * The step of getBroadcast's loop: with the head byte, the cells of
   * points 0..i-1 and the original bytes after them in place, writing
   * cell i gives the same picture for i + 1.
   */
  lemma WrittenStep(s0: Bytes, s1: Bytes, head: Byte, points: seq<Point>, i: nat, original: Bytes)
    requires i < |points| && |original| == 49 + 18 * |points|
    requires Encodable(points[..i]) && Fits(points[i])
    requires |s0| == |original| && s0 == [head] + PointsBytes(points[..i]) + original[1 + 18 * i..]
    requires s1 == s0[..1 + 18 * i] + PointBytes(points[i]) + s0[19 + 18 * i..]
    ensures Encodable(points[..i + 1])
    ensures s1 == [head] + PointsBytes(points[..i + 1]) + original[1 + 18 * (i + 1)..]
  {
    PointsBytesPrefix(points, i);
    PointsBytesLength(points[..i]);
    Splice(s0, s1, head, PointsBytes(points[..i]), PointBytes(points[i]), original, i);
  }

  /** Overwriting the 18 bytes after the head byte and i cells appends one cell to the body. */
  lemma Splice(s0: Bytes, s1: Bytes, head: Byte, body: Bytes, cell: Bytes, original: Bytes, i: nat)
    requires |body| == 18 * i && |original| >= 19 + 18 * i
    requires s0 == [head] + body + original[1 + 18 * i..]
    requires s1 == s0[..1 + 18 * i] + cell + s0[19 + 18 * i..]
    ensures s1 == [head] + (body + cell) + original[1 + 18 * (i + 1)..]
  {
    assert s0[..1 + 18 * i] == [head] + body;
    assert s0[19 + 18 * i..] == original[19 + 18 * i..];
  }

  /**
   * The tail of getBroadcast: the first 32 bytes of the hash at
   * 1 + 18k and the first 16 bytes of the challenge at 33 + 18k, the
   * last 48 bytes of the command.
   */
  method WriteTrailer(command: array<Byte>, k: nat, hash: Bytes, challenge: Bytes) returns (r: Result<()>)
    requires command.Length == 49 + 18 * k
    modifies command
    ensures r.Ok? <==> |hash| >= 32 && |challenge| >= 16
    ensures r.Err? ==> r.error == ArrayIndexOutOfBounds
    ensures r.Ok? ==> command[..] == old(command[..1 + 18 * k]) + hash[..32] + challenge[..16]
    ensures |hash| < 32 ==> command[..] == old(command[..])
    ensures |hash| >= 32 && |challenge| < 16 ==>
      command[..] == old(command[..1 + 18 * k]) + hash[..32] + old(command[33 + 18 * k..])
  {
    ghost var s0 := command[..];
    r := CopyInto(hash, command, 1 + 18 * k, 32);
    if r.Err? {
      return;
    }
    ghost var s1 := command[..];
    assert s1[..33 + 18 * k] == s0[..1 + 18 * k] + hash[..32];
    r := CopyInto(challenge, command, 33 + 18 * k, 16);
    if r.Ok? {
      assert command[..33 + 18 * k] == s1[..33 + 18 * k];
    }
  }

  /**
   * One round of getBroadcast's loop: cleanByteArray(p.x, 2) and
   * cleanByteArray(p.y, 16), copied to 1 + 18i and 3 + 18i.
   */
  method WritePoint(command: array<Byte>, i: nat, p: Point) returns (r: Result<()>)
    requires p.x >= 0 && p.y >= 0 && 19 + 18 * i <= command.Length
    modifies command
    ensures r.Ok? <==> Fits(p)
    ensures r.Err? ==> r.error == ArrayIndexOutOfBounds && command[..] == old(command[..])
    ensures r.Ok? ==> command[..] == old(command[..1 + 18 * i]) + PointBytes(p) + old(command[19 + 18 * i..])
  {
    var xBytes := CleanByteArray(p.x, 2);
    if xBytes.Err? {
      assert !Fits(p) by { FitsWidths(p); }
      return Err(xBytes.error);
    }
    var yBytes := CleanByteArray(p.y, 16);
    if yBytes.Err? {
      assert !Fits(p) by { FitsWidths(p); }
      return Err(yBytes.error);
    }
    assert Fits(p) by { FitsWidths(p); }
    var x, y := xBytes.value, yBytes.value;
    assert |x| == 2 && |y| == 16 && x + y == PointBytes(p) by { PointBytesFields(p); }
    ghost var s0 := command[..];
    var copiedX := CopyInto(x, command, 1 + 18 * i, 2);
    ghost var s1 := command[..];
    var copiedY := CopyInto(y, command, 3 + 18 * i, 16);
    AdjacentWrites(s0, s1, command[..], 1 + 18 * i, x, y);
    assert command[..] == command[..19 + 18 * i] + command[19 + 18 * i..];
    return Ok(());
  }

  /**
   * getBroadcast's loop: for i from 0 to k - 1, point i's cell at 1 + 18i.
   * The first exception ends the loop.
   */
  method WritePoints(command: array<Byte>, points: seq<Point>) returns (r: Result<()>)
    requires forall i :: 0 <= i < |points| ==> points[i].x >= 0 && points[i].y >= 0
    requires command.Length == 49 + 18 * |points|
    modifies command
    ensures r.Ok? <==> Encodable(points)
    ensures r.Err? ==> r.error == ArrayIndexOutOfBounds
    ensures r.Ok? ==> command[..1 + 18 * |points|] == [old(command[0])] + PointsBytes(points)
    ensures r.Ok? ==> command[1 + 18 * |points|..] == old(command[1 + 18 * |points|..])
    ensures var n := EncodablePrefix(points);
      command[..] == [old(command[0])] + PointsBytes(points[..n]) + old(command[1 + 18 * n..])
  {
    ghost var head := command[0];
    ghost var original := command[..];
    ghost var n;
    r, n := WriteCells(command, points, head, original);
    EncodablePrefixAt(points, n);
    if r.Ok? {
      WrittenAll(command[..], head, points, original);
    }
  }

  /**
   * The loop of WritePoints, over the head byte and the bytes before it
   * ran; n is the number of cells written.
   */
  method WriteCells(command: array<Byte>, points: seq<Point>, ghost head: Byte, ghost original: Bytes)
    returns (r: Result<()>, ghost n: nat)
    requires forall i :: 0 <= i < |points| ==> points[i].x >= 0 && points[i].y >= 0
    requires command.Length == |original| == 49 + 18 * |points|
    requires command[..] == original && original[0] == head
    modifies command
    ensures n <= |points| && Encodable(points[..n]) && (n < |points| ==> !Fits(points[n]))
    ensures r == if n == |points| then Ok(()) else Err(ArrayIndexOutOfBounds)
    ensures command[..] == [head] + PointsBytes(points[..n]) + original[1 + 18 * n..]
  {
    var k := |points|;
    assert points[..0] == [] && original == [head] + original[1..];
    for i := 0 to k
      invariant Encodable(points[..i])
      invariant command[..] == [head] + PointsBytes(points[..i]) + original[1 + 18 * i..]
    {
      var written := WriteCell(command, points, i, head, original);
      if written.Err? {
        return written, i;
      }
    }
    return Ok(()), k;
  }

  /**
   * One iteration of getBroadcast's loop: the cell of point i goes after
   * the head byte and the cells of points 0..i-1; on a point that does not
   * fit nothing is written.
   */
  method WriteCell(command: array<Byte>, points: seq<Point>, i: nat, ghost head: Byte, ghost original: Bytes)
    returns (r: Result<()>)
    requires i < |points| && points[i].x >= 0 && points[i].y >= 0
    requires command.Length == |original| == 49 + 18 * |points| && Encodable(points[..i])
    requires command[..] == [head] + PointsBytes(points[..i]) + original[1 + 18 * i..]
    modifies command
    ensures r.Ok? <==> Fits(points[i])
    ensures r.Err? ==> r.error == ArrayIndexOutOfBounds && command[..] == old(command[..])
    ensures r.Ok? ==> Encodable(points[..i + 1])
    ensures r.Ok? ==> command[..] == [head] + PointsBytes(points[..i + 1]) + original[1 + 18 * (i + 1)..]
  {
    ghost var s0 := command[..];
    r := WritePoint(command, i, points[i]);
    if r.Ok? {
      WrittenStep(s0, command[..], head, points, i, original);
    }
  }

  /** After the last iteration: the cells of all points, then the original trailer bytes. */
  lemma WrittenAll(s: Bytes, head: Byte, points: seq<Point>, original: Bytes)
    requires Encodable(points) && |s| == |original| == 49 + 18 * |points|
    requires s == [head] + PointsBytes(points[..|points|]) + original[1 + 18 * |points|..]
    ensures s[..1 + 18 * |points|] == [head] + PointsBytes(points)
    ensures s[1 + 18 * |points|..] == original[1 + 18 * |points|..]
  {
    assert points[..|points|] == points;
    PointsBytesLength(points);
  }

  /**
   * getBroadcast: write k, then for each public point its 2 x bytes at
   * 1 + 18i and its 16 y bytes at 3 + 18i, then the hash at 1 + 18k and
   * the challenge at 33 + 18k.  k is the number of public points passed.
   */
  method GetBroadcast(points: seq<Point>, hash: Bytes, challenge: Bytes) returns (r: Result<Bytes>)
    requires forall i :: 0 <= i < |points| ==> points[i].x >= 0 && points[i].y >= 0
    ensures r.Ok? <==> Encodable(points) && |hash| >= 32 && |challenge| >= 16
    ensures r.Err? ==> r.error == ArrayIndexOutOfBounds
    ensures r.Ok? ==> r.value == BroadcastBytes(points, hash, challenge)
  {
    var k := |points|;
    var command := new Byte[1 + 18 * k + 48](_ => 0);
    command[0] := k % 256;
    var written := WritePoints(command, points);
    if written.Err? {
      return Err(written.error);
    }
    ghost var front := command[..1 + 18 * k];
    var trailer := WriteTrailer(command, k, hash, challenge);
    if trailer.Err? {
      return Err(trailer.error);
    }
    BroadcastLayout(points, hash, challenge, front);
    return Ok(command[..]);
  }

  /** The broadcast is its first byte and the point cells, followed by the two trailing fields. */
  lemma BroadcastLayout(points: seq<Point>, hash: Bytes, challenge: Bytes, front: Bytes)
    requires Encodable(points) && |hash| >= 32 && |challenge| >= 16
    requires front == [|points| % 256] + PointsBytes(points)
    ensures BroadcastBytes(points, hash, challenge) == front + hash[..32] + challenge[..16]
  {
  }

  /** The length of the broadcast and the fields around the public points. */
  lemma BroadcastFrame(points: seq<Point>, hash: Bytes, challenge: Bytes)
    requires Encodable(points) && |hash| >= 32 && |challenge| >= 16
    ensures var b, k := BroadcastBytes(points, hash, challenge), |points|;
      |b| == 49 + 18 * k && b[0] == k % 256
      && b[1 + 18 * k..33 + 18 * k] == hash[..32] && b[33 + 18 * k..] == challenge[..16]
  {
    var k := |points|;
    PointsBytesLength(points);
    var b := BroadcastBytes(points, hash, challenge);
    assert b == [k % 256] + PointsBytes(points) + hash[..32] + challenge[..16];
  }

  /** In a frame of one byte, 18-byte cells, and two trailing parts, cell i's halves sit at 1 + 18i and 3 + 18i. */
  lemma CellInFrame(head: Byte, cells: seq<Bytes>, h: Bytes, c: Bytes, i: nat)
    requires Width18(cells) && i < |cells|
    ensures var b := [head] + Concat(cells) + h + c;
      19 + 18 * i <= |b|
      && b[1 + 18 * i..3 + 18 * i] == cells[i][..2]
      && b[3 + 18 * i..19 + 18 * i] == cells[i][2..]
  {
    ConcatAt(cells, i);
    var body := Concat(cells);
    SliceOfMiddle([head], body, h + c, 18 * i, 18 * i + 18);
    assert [head] + body + h + c == [head] + body + (h + c);
  }

  /** Where getBroadcast puts public point i: x at 1 + 18i, y at 3 + 18i, each in its fixed width. */
  lemma BroadcastPointOffsets(points: seq<Point>, hash: Bytes, challenge: Bytes, i: nat)
    requires Encodable(points) && |hash| >= 32 && |challenge| >= 16 && i < |points|
    ensures FixedWidth(points[i].x, 2).Ok? && FixedWidth(points[i].y, 16).Ok?
    ensures var b := BroadcastBytes(points, hash, challenge);
      19 + 18 * i <= |b|
      && b[1 + 18 * i..3 + 18 * i] == FixedWidth(points[i].x, 2).value
      && b[3 + 18 * i..19 + 18 * i] == FixedWidth(points[i].y, 16).value
      && Unsigned(b[1 + 18 * i..3 + 18 * i]) == points[i].x
      && Unsigned(b[3 + 18 * i..19 + 18 * i]) == points[i].y
  {
    CellInFrame(|points| % 256, PointCells(points), hash[..32], challenge[..16], i);
    PointBytesFields(points[i]);
  }

  /** Every public point reads back from its offsets in getBroadcast's bytes. */
  lemma BroadcastPointsRead(points: seq<Point>, hash: Bytes, challenge: Bytes)
    requires Encodable(points) && |hash| >= 32 && |challenge| >= 16
    ensures var b := BroadcastBytes(points, hash, challenge);
      forall i :: 0 <= i < |points| ==>
        (19 + 18 * i <= |b|
         && Unsigned(b[1 + 18 * i..3 + 18 * i]) == points[i].x
         && Unsigned(b[3 + 18 * i..19 + 18 * i]) == points[i].y)
  {
    forall i | 0 <= i < |points|
      ensures var b := BroadcastBytes(points, hash, challenge);
        19 + 18 * i <= |b|
        && Unsigned(b[1 + 18 * i..3 + 18 * i]) == points[i].x
        && Unsigned(b[3 + 18 * i..19 + 18 * i]) == points[i].y
    {
      BroadcastPointOffsets(points, hash, challenge, i);
    }
  }

  lemma SmallModulus(k: nat)
    requires k < 256
    ensures k % 256 == k
  {
  }

  /**
   * Writer and reader agree: the card reads back from getBroadcast's bytes
   * exactly the points, hash and challenge the door wrote, as long as k fits
   * its single byte.
   */
  lemma BroadcastRoundTrip(points: seq<Point>, hash: Bytes, challenge: Bytes)
    requires Encodable(points) && |hash| == 32 && |challenge| == 16 && |points| <= 255
    ensures ParseBroadcast(BroadcastBytes(points, hash, challenge))
      == Ok(Broadcast(|points|, points, hash, Unsigned(challenge)))
  {
    var b := BroadcastBytes(points, hash, challenge);
    var k := |points|;
    BroadcastFrame(points, hash, challenge);
    SmallModulus(k);
    assert hash[..32] == hash && challenge[..16] == challenge;
    assert b[1 + 18 * k..33 + 18 * k] == hash && b[33 + 18 * k..] == challenge;
    BroadcastPointsRead(points, hash, challenge);
    ParseBroadcastFields(b, points, hash, challenge);
  }

  /**
   * A genuine card: when the broadcast is the door's layout for samples of
   * a polynomial, and the card's own point for k is one more sample at an
   * x whose differences with the public x's are invertible, the card
   * reconstructs the secret, the hash matches, and the answer is the HMAC
   * of the challenge keyed by the door's secret.
   */
  lemma GenuineCardSucceeds(c: seq<int>, points: seq<Point>, mine: Point, privatePoints: seq<Point>,
                            digest: Bytes -> Bytes, mac: (Bytes, Bytes) -> Bytes, challenge: Bytes)
    requires |points| <= 255 && Encodable(points) && |challenge| == 16
    requires |c| <= |points| + 1
    requires forall j :: 0 <= j < |points| ==> Sample(CoefficientBox(c), points[j].x) == Ok(points[j])
    requires Sample(CoefficientBox(c), mine.x) == Ok(mine)
    requires |points| < |privatePoints| && privatePoints[|points|] == mine
    requires PairwiseUnits(Xs(points + [mine]))
    requires |digest(ToByteArray(Secret(CoefficientBox(c)).value))| == 32
    ensures Respond(BroadcastBytes(points, digest(ToByteArray(Secret(CoefficientBox(c)).value)), challenge),
                    privatePoints, digest, mac)
      == Hmac(CoefficientBox(c), mac, Unsigned(challenge))
  {
    var hash := digest(ToByteArray(Secret(CoefficientBox(c)).value));
    BroadcastRoundTrip(points, hash, challenge);
    var all := points + [mine];
    forall j | 0 <= j < |all|
      ensures Sample(CoefficientBox(c), all[j].x) == Ok(all[j])
    {
      if j == |points| {
        assert all[j] == mine;
      } else {
        assert all[j] == points[j];
      }
    }
    SamplesKeepSecret(c, all, digest, mac, Unsigned(challenge));
  }
}

/**
 * The slice of the Java platform that the protocol code relies on: bytes,
 * the exceptions it can raise, and the behaviour of the library calls
 * `new BigInteger(1, bytes)`, `BigInteger.toByteArray()`,
 * `Arrays.copyOfRange` and `System.arraycopy`.
 *
 * Java's `byte` is signed; here a byte is its unsigned view 0..255, which is
 * the reading every call site in the protocol code uses.
 */
module Jvm {

  type Byte = b: int | 0 <= b < 256
  type Bytes = seq<Byte>

  /** The exceptions the modelled code can raise, one variant per cause. */
  datatype Exception =
    | NegativeDegree          // ArithmeticException from Polynomial.randomPolynomial
    | NotInvertible           // ArithmeticException from BigInteger.modInverse
    | ArrayIndexOutOfBounds   // Arrays.copyOfRange / System.arraycopy
    | IndexOutOfBounds        // List.get past the end
    | IllegalArgument         // Arrays.copyOfRange with from > to
    | NegativeArraySize       // new byte[n] with n < 0
    | UnsupportedOperation    // PointSecretBox.getCoefficients
    | BroadcastMismatch       // ProtocolCard.BroadcastMismatchException
    | Runtime                 // RuntimeException("???") wrapping a failure inside SecretBox.hmac
    | OutOfDraws              // the finite stand-in for SecureRandom ran dry (never raised by Java)
  {
    /** The exceptions the protocol test harness treats as "access denied". */
    predicate IsArithmetic() {
      NegativeDegree? || NotInvertible?
    }
  }

  /** A value or the exception that was thrown instead. */
  datatype Result<+T> = Ok(value: T) | Err(error: Exception) {
    predicate IsFailure() {
      Err?
    }

    function PropagateFailure<U>(): Result<U>
      requires Err?
    {
      Err(error)
    }

    function Extract(): T
      requires Ok?
    {
      value
    }
  }

  const INT_MIN: int := -0x8000_0000
  const INT_MAX: int := 0x7fff_ffff

  /** A value of Java's 32-bit `int`. */
  predicate IsInt(v: int) {
    INT_MIN <= v <= INT_MAX
  }

  /** Java's `int` subtraction a - b: the exact difference, wrapped into 32 bits. */
  function IntSub(a: int, b: int): (r: int)
    requires IsInt(a) && IsInt(b)
    ensures IsInt(r)
    ensures IsInt(a - b) ==> r == a - b
    ensures a - b < INT_MIN ==> r == a - b + 0x1_0000_0000
    ensures a - b > INT_MAX ==> r == a - b - 0x1_0000_0000
  {
    (a - b - INT_MIN) % 0x1_0000_0000 + INT_MIN
  }

  function Pow256(n: nat): (r: nat)
    ensures r >= 1
  {
    if n == 0 then 1 else 256 * Pow256(n - 1)
  }

  function Zeros(n: nat): (z: Bytes)
    ensures |z| == n && forall i :: 0 <= i < n ==> z[i] == 0
  {
    seq(n, _ => 0)
  }

  /** `new BigInteger(1, bytes)`: the bytes read as an unsigned big-endian number. */
  function Unsigned(s: Bytes): (v: nat)
    ensures v < Pow256(|s|)
  {
    if |s| == 0 then 0
    else
      var hi := Unsigned(s[..|s| - 1]);
      assert hi * 256 + s[|s| - 1] <= (Pow256(|s| - 1) - 1) * 256 + 255;
      hi * 256 + s[|s| - 1]
  }

  lemma {:induction false} UnsignedAppend(s: Bytes, b: Byte)
    ensures Unsigned(s + [b]) == Unsigned(s) * 256 + b
  {
    assert (s + [b])[..|s|] == s;
  }

  /** Leading zero bytes do not change the unsigned value. */
  lemma {:induction false} UnsignedLeadingZeros(n: nat, s: Bytes)
    ensures Unsigned(Zeros(n) + s) == Unsigned(s)
    decreases |s|, n
  {
    if |s| == 0 {
      if n > 0 {
        assert Zeros(n) + s == Zeros(n - 1) + [0];
        UnsignedLeadingZeros(n - 1, []);
        assert Zeros(n - 1) + [] == Zeros(n - 1);
        UnsignedAppend(Zeros(n - 1), 0);
      }
    } else {
      var init, last := s[..|s| - 1], s[|s| - 1];
      assert s == init + [last];
      assert Zeros(n) + s == (Zeros(n) + init) + [last];
      UnsignedAppend(Zeros(n) + init, last);
      UnsignedLeadingZeros(n, init);
      UnsignedAppend(init, last);
    }
  }

  /** The shortest unsigned big-endian encoding of `v` (empty for zero). */
  function Magnitude(v: nat): (m: Bytes)
    ensures Unsigned(m) == v
    ensures |m| > 0 ==> m[0] != 0
    ensures v < Pow256(|m|) && (|m| > 0 ==> Pow256(|m| - 1) <= v)
  {
    if v == 0 then []
    else
      var init := Magnitude(v / 256);
      UnsignedAppend(init, v % 256);
      assert |init| > 0 ==> (init + [v % 256])[0] == init[0];
      init + [v % 256]
  }

  /** Any value below 256^n has a magnitude of at most n bytes, and conversely. */
  lemma MagnitudeFits(v: nat, n: nat)
    ensures |Magnitude(v)| <= n <==> v < Pow256(n)
  {
    var m := |Magnitude(v)|;
    if m <= n {
      Pow256Monotone(m, n);
    } else {
      Pow256Monotone(n, m - 1);
    }
  }

  lemma {:induction false} Pow256Monotone(a: nat, b: nat)
    requires a <= b
    ensures Pow256(a) <= Pow256(b)
    decreases b
  {
    if a < b { Pow256Monotone(a, b - 1); }
  }

  /** An all-zero reading comes only from all-zero bytes. */
  lemma {:induction false} UnsignedZero(s: Bytes)
    requires Unsigned(s) == 0
    ensures s == Zeros(|s|)
  {
    if s != [] {
      var init := s[..|s| - 1];
      UnsignedZero(init);
      assert s == init + [s[|s| - 1]];
    }
  }

  lemma SplitLastByte(hi: int, b: Byte)
    ensures (hi * 256 + b) / 256 == hi && (hi * 256 + b) % 256 == b
  {
  }

  /** Any n bytes are their value's magnitude after n - |magnitude| zero bytes. */
  lemma {:induction false} MagnitudeOfUnsigned(s: Bytes)
    ensures var m := Magnitude(Unsigned(s));
      |m| <= |s| && Zeros(|s| - |m|) + m == s
  {
    var v := Unsigned(s);
    if v == 0 {
      UnsignedZero(s);
    } else {
      var init, last := s[..|s| - 1], s[|s| - 1];
      var hi := Unsigned(init);
      MagnitudeOfUnsigned(init);
      assert v == hi * 256 + last;
      SplitLastByte(hi, last);
      MagnitudeStep(v);
      Snoc(s);
      PadAppend(s, init, last, Magnitude(hi), Magnitude(v));
    }
  }

  /** Zero padding survives appending one more byte to both sides. */
  lemma PadAppend(s: Bytes, init: Bytes, last: Byte, mi: Bytes, m: Bytes)
    requires s == init + [last] && m == mi + [last]
    requires |mi| <= |init| && Zeros(|init| - |mi|) + mi == init
    ensures |m| <= |s| && Zeros(|s| - |m|) + m == s
  {
    var z := Zeros(|init| - |mi|);
    assert Zeros(|s| - |m|) == z;
    AppendAfter(z, mi, init, last);
  }

  lemma Snoc<T>(s: seq<T>)
    requires |s| > 0
    ensures s == s[..|s| - 1] + [s[|s| - 1]]
  {
  }

  lemma AppendAfter<T>(z: seq<T>, m: seq<T>, init: seq<T>, last: T)
    requires z + m == init
    ensures z + (m + [last]) == init + [last]
  {
  }

  lemma MagnitudeStep(v: nat)
    requires v > 0
    ensures Magnitude(v) == Magnitude(v / 256) + [v % 256]
  {
  }

  /**
   * `BigInteger.toByteArray()` for a non-negative value: the minimal
   * two's-complement big-endian encoding, so a zero sign byte is prepended
   * exactly when the magnitude is empty or its top bit is set.
   */
  function ToByteArray(v: nat): (r: Bytes)
    ensures |r| >= 1 && r[0] < 128
    ensures Unsigned(r) == v
    ensures |r| == 1 || r[0] != 0 || r[1] >= 128
  {
    var m := Magnitude(v);
    if m == [] || m[0] >= 128 then
      UnsignedLeadingZeros(1, m);
      assert Zeros(1) == [0];
      [0] + m
    else m
  }

  /** After dropping a single leading zero byte, `toByteArray` leaves exactly the magnitude. */
  lemma ToByteArrayStripped(v: nat)
    ensures var a := ToByteArray(v);
      (if a[0] == 0 then a[1..] else a) == Magnitude(v)
  {
  }

  /**
   * `Arrays.copyOfRange(original, from, to)`: the range is checked first
   * (from > to is an IllegalArgumentException), then the start
   * (outside [0, length] is an ArrayIndexOutOfBoundsException); reads past
   * the end of the original give zero bytes.
   */
  function CopyOfRange(a: Bytes, from: int, to: int): (r: Result<Bytes>)
    ensures r.Ok? <==> from <= to && 0 <= from <= |a|
    ensures r.Err? ==> r.error == (if from > to then IllegalArgument else ArrayIndexOutOfBounds)
    ensures r.Ok? ==> |r.value| == to - from
    ensures r.Ok? ==> forall i :: 0 <= i < to - from ==>
      r.value[i] == if from + i < |a| then a[from + i] else 0
  {
    if from > to then Err(IllegalArgument)
    else if from < 0 || from > |a| then Err(ArrayIndexOutOfBounds)
    else if to <= |a| then Ok(a[from..to])
    else Ok(a[from..] + Zeros(to - |a|))
  }

  /**
   * `System.arraycopy(src, srcPos, dest, destPos, length)`: every index
   * is checked before anything is written, and the copy behaves as if it
   * went through a temporary buffer (so `src == dest` is handled).
   */
  method ArrayCopy(src: array<Byte>, srcPos: int, dest: array<Byte>, destPos: int, length: int)
    returns (r: Result<()>)
    modifies dest
    ensures r.Ok? <==> (0 <= srcPos && 0 <= destPos && 0 <= length
      && srcPos + length <= src.Length && destPos + length <= dest.Length)
    ensures r.Err? ==> r.error == ArrayIndexOutOfBounds && dest[..] == old(dest[..])
    ensures r.Ok? ==> forall j :: 0 <= j < dest.Length ==>
      dest[j] == if destPos <= j < destPos + length then old(src[srcPos + j - destPos]) else old(dest[j])
  {
    if srcPos < 0 || destPos < 0 || length < 0
      || srcPos + length > src.Length || destPos + length > dest.Length
    {
      return Err(ArrayIndexOutOfBounds);
    }
    var buffer := src[..];
    var i := 0;
    while i < length
      invariant 0 <= i <= length
      invariant buffer == old(src[..])
      invariant forall j :: 0 <= j < dest.Length ==>
        dest[j] == if destPos <= j < destPos + i then buffer[srcPos + j - destPos] else old(dest[j])
    {
      dest[destPos + i] := buffer[srcPos + i];
      i := i + 1;
    }
    return Ok(());
  }
}

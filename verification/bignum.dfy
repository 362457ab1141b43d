/**
 * The big-integer codec used for the `x` and `y` coordinates of an EC JWK
 * (RFC 7518 section 6.2.1): `_num_to_base64` writes the minimal unsigned
 * big-endian bytes of a non-negative integer, base64url-encoded without
 * padding; `_base64_to_num` reads back the unsigned big-endian value of any
 * byte string, minimal or not.
 */
module BigNum {
  import opened Wrappers
  import opened Text
  import opened Base64Url

  /** 256 to the power `k`: the weight of the byte `k` places from the end. */
  function Pow256(k: nat): (p: nat)
    ensures p >= 1
  {
    if k == 0 then 1 else 256 * Pow256(k - 1)
  }

  /**
   * The unsigned big-endian value of `b`, written as the source's sum: byte
   * `i` weighs `1 << ((|b| - 1 - i) * 8)`.
   */
  function Value(b: seq<Byte>): nat
    decreases |b|
  {
    if b == [] then 0 else b[0] * Pow256(|b| - 1) + Value(b[1..])
  }

  /** The value is below 256 to the number of bytes. */
  lemma {:induction false} ValueBound(b: seq<Byte>)
    ensures Value(b) < Pow256(|b|)
    decreases |b|
  {
    if b != [] {
      ValueBound(b[1..]);
      MulMonotonic(b[0], 255, Pow256(|b| - 1));
    }
  }

  lemma MulMonotonic(a: nat, c: nat, p: nat)
    requires a <= c
    ensures a * p <= c * p
  {
  }

  /** Appending a byte multiplies the value by 256 and adds the byte (Horner's rule). */
  lemma {:induction false} ValueAppend(b: seq<Byte>, x: Byte)
    ensures Value(b + [x]) == 256 * Value(b) + x
    decreases |b|
  {
    if b != [] {
      var p := Pow256(|b| - 1);
      assert (b + [x])[1..] == b[1..] + [x];
      ValueAppend(b[1..], x);
      calc {
        Value(b + [x]);
        b[0] * Pow256(|b|) + Value(b[1..] + [x]);
        b[0] * (256 * p) + 256 * Value(b[1..]) + x;
        { assert b[0] * (256 * p) == 256 * (b[0] * p); }
        256 * (b[0] * p + Value(b[1..])) + x;
      }
    }
  }

  /** A run of zero bytes. */
  function Zeros(k: nat): (z: seq<Byte>)
    ensures |z| == k
    ensures forall i :: 0 <= i < k ==> z[i] == 0
  {
    seq(k, _ => 0)
  }

  /** Leading zero bytes never change the value. */
  lemma {:induction false} ValueLeadingZeros(k: nat, b: seq<Byte>)
    ensures Value(Zeros(k) + b) == Value(b)
    decreases k
  {
    if k > 0 {
      var z := Zeros(k) + b;
      assert z[0] == 0 && z[1..] == Zeros(k - 1) + b;
      assert Value(z) == 0 * Pow256(|z| - 1) + Value(z[1..]);
      ValueLeadingZeros(k - 1, b);
    } else {
      assert Zeros(k) + b == b;
    }
  }

  /** The shortest big-endian bytes of `n`: one byte below 256, a zero byte for zero. */
  function MinimalBytes(n: nat): (b: seq<Byte>)
    ensures |b| >= 1
    ensures Value(b) == n
    ensures |b| > 1 ==> b[0] != 0
    decreases n
  {
    if n < 256 then [n]
    else
      var high := MinimalBytes(n / 256);
      ValueAppend(high, n % 256);
      high + [n % 256]
  }

  /** Zero is written as exactly one zero byte, never as the empty string. */
  lemma ZeroIsOneByte()
    ensures MinimalBytes(0) == [0]
  {
  }

  /** A byte string without a leading zero is too large for fewer bytes. */
  lemma ValueLowerBound(b: seq<Byte>)
    requires |b| >= 1 && b[0] != 0
    ensures Value(b) >= Pow256(|b| - 1)
  {
    MulMonotonic(1, b[0], Pow256(|b| - 1));
  }

  /**
   * Minimality determines the bytes: the only non-empty big-endian string
   * of `n` without a leading zero (other than zero's own single byte) is
   * MinimalBytes(n).
   */
  lemma {:induction false} MinimalBytesUnique(b: seq<Byte>)
    requires |b| >= 1
    requires |b| > 1 ==> b[0] != 0
    ensures MinimalBytes(Value(b)) == b
    decreases |b|
  {
    if |b| == 1 {
      assert Value(b) == b[0];
    } else {
      var high, low := b[..|b| - 1], b[|b| - 1];
      assert b == high + [low];
      ValueAppend(high, low);
      ValueLowerBound(b);
      assert Pow256(|b| - 1) >= 256;
      var n := Value(b);
      assert n / 256 == Value(high) && n % 256 == low;
      MinimalBytesUnique(high);
    }
  }

  /** The value of `_num_to_base64(n)`: the minimal bytes, base64url without padding. */
  function EncodeNum(n: nat): string
  {
    EncodeStripped(MinimalBytes(n))
  }

  /** `_base64_to_num`: None where urlsafe_b64decode raises. */
  function Base64ToNum(s: string): (r: Option<nat>)
    ensures r.Some? <==> DecodeUnpadded(s).Some?
    ensures r.Some? ==> r.value == Value(DecodeUnpadded(s).value)
    ensures r.Some? ==> r.value < Pow256(|DecodeUnpadded(s).value|)
  {
    match DecodeUnpadded(s)
    case None => None
    case Some(b) =>
      ValueBound(b);
      Some(Value(b))
  }

  /** Reading back what `_num_to_base64` wrote gives the number. */
  lemma NumRoundTrip(n: nat)
    ensures Base64ToNum(EncodeNum(n)) == Some(n)
  {
    UnpaddedRoundTrip(MinimalBytes(n));
  }

  /** Non-minimal encodings from other producers read back the same number. */
  lemma LeadingZerosAccepted(k: nat, n: nat)
    ensures Base64ToNum(EncodeStripped(Zeros(k) + MinimalBytes(n))) == Some(n)
  {
    UnpaddedRoundTrip(Zeros(k) + MinimalBytes(n));
    ValueLeadingZeros(k, MinimalBytes(n));
  }

  /**
   * `_num_to_base64`: take the low byte of `n` into the front of the buffer
   * and shift `n` right by eight until it is zero (`n & 0xFF` and `n >>= 8`
   * are `% 256` and `/ 256` for non-negative `n`); an empty buffer becomes
   * one zero byte.
   */
  method NumToBase64(n: nat) returns (s: string)
    ensures s == EncodeNum(n)
    ensures Base64ToNum(s) == Some(n)
  {
    var b: seq<Byte> := [];
    var m: nat := n;
    while m != 0
      invariant m > 0 ==> MinimalBytes(n) == MinimalBytes(m) + b
      invariant m == 0 ==> (if n == 0 then b == [] else b == MinimalBytes(n))
      decreases m
    {
      b := [m % 256] + b;
      m := m / 256;
    }
    if |b| == 0 {
      b := [0] + b;
    }
    s := EncodeStripped(b);
    NumRoundTrip(n);
  }
}

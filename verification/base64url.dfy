/**
 * Base64url (the URL- and filename-safe alphabet of RFC 4648 section 5) as
 * the manifest code uses it: `urlsafe_b64encode`, whose padded output the
 * code always passes through `rstrip('=')` (the unpadded form of RFC 7515
 * section 2), `_pad64`, which restores the padding, and `urlsafe_b64decode`.
 */
module Base64Url {
  import opened Wrappers
  import opened Text

  /** The value of one base64 character. */
  type Sextet = i: int | 0 <= i < 64

  /** The character for a sextet: `A`-`Z`, `a`-`z`, `0`-`9`, `-`, `_`. */
  function CharOf(i: Sextet): (c: char)
    ensures IndexOf(c) == Some(i)
    ensures c != '=' && c != '.'
  {
    if i < 26 then ('A' as int + i) as char
    else if i < 52 then ('a' as int + (i - 26)) as char
    else if i < 62 then ('0' as int + (i - 52)) as char
    else if i == 62 then '-'
    else '_'
  }

  /** The sextet a character stands for, or None outside the alphabet. */
  function IndexOf(c: char): Option<Sextet>
  {
    if 'A' <= c <= 'Z' then Some(c as int - 'A' as int)
    else if 'a' <= c <= 'z' then Some(c as int - 'a' as int + 26)
    else if '0' <= c <= '9' then Some(c as int - '0' as int + 52)
    else if c == '-' then Some(62)
    else if c == '_' then Some(63)
    else None
  }

  /** The alphabet is a bijection: a character with a value is the character of that value. */
  lemma AlphabetBijection(c: char)
    ensures IndexOf(c).Some? ==> CharOf(IndexOf(c).value) == c
  {
  }

  /**
   * One group of one to three bytes as `|b| + 1` characters: the bits of the
   * bytes, most significant first, six at a time, with zero bits filling the
   * last character.
   */
  function EncodeGroup(b: seq<Byte>): (s: string)
    requires 1 <= |b| <= 3
    ensures |s| == |b| + 1
  {
    var x := b[0];
    var y := if |b| > 1 then b[1] else 0;
    var z := if |b| > 2 then b[2] else 0;
    [CharOf(x / 4), CharOf(x % 4 * 16 + y / 16), CharOf(y % 16 * 4 + z / 64), CharOf(z % 64)][..|b| + 1]
  }

  /** Two to four alphabet characters back into `|s| - 1` bytes; the unused low bits are ignored. */
  function DecodeGroup(s: string): Option<seq<Byte>>
    requires 2 <= |s| <= 4
  {
    match (IndexOf(s[0]), IndexOf(s[1]),
           if |s| > 2 then IndexOf(s[2]) else Some(0),
           if |s| > 3 then IndexOf(s[3]) else Some(0))
    case (Some(s0), Some(s1), Some(s2), Some(s3)) =>
      var c0, c1, c2, c3 := s0 as int, s1 as int, s2 as int, s3 as int;
      Some([c0 * 4 + c1 / 16, c1 % 16 * 16 + c2 / 4, c2 % 4 * 64 + c3][..|s| - 1])
    case _ => None
  }

  /** Decoding a group undoes encoding it. */
  lemma GroupRoundTrip(b: seq<Byte>)
    requires 1 <= |b| <= 3
    ensures DecodeGroup(EncodeGroup(b)) == Some(b)
  {
    var x := b[0];
    var y := if |b| > 1 then b[1] else 0;
    var z := if |b| > 2 then b[2] else 0;
    var c0, c1, c2, c3 := x / 4, x % 4 * 16 + y / 16, y % 16 * 4 + z / 64, z % 64;
    GroupArith(x, y, z);
    var s := EncodeGroup(b);
    assert s == [CharOf(c0), CharOf(c1), CharOf(c2), CharOf(c3)][..|b| + 1];
    DecodeSextets(s, c0, c1, c2, c3);
    assert [x, y, z][..|b|] == b;
  }

  /** A group whose characters stand for the given sextets decodes to their bits. */
  lemma DecodeSextets(s: string, c0: Sextet, c1: Sextet, c2: Sextet, c3: Sextet)
    requires 2 <= |s| <= 4
    requires IndexOf(s[0]) == Some(c0) && IndexOf(s[1]) == Some(c1)
    requires if |s| > 2 then IndexOf(s[2]) == Some(c2) else c2 == 0
    requires if |s| > 3 then IndexOf(s[3]) == Some(c3) else c3 == 0
    ensures DecodeGroup(s).Some?
    ensures DecodeGroup(s).value
            == [c0 * 4 + c1 / 16, c1 % 16 * 16 + c2 / 4, c2 % 4 * 64 + c3][..|s| - 1]
  {
  }

  /** The bit arithmetic of a group: the four sextets give back the three bytes. */
  lemma GroupArith(x: Byte, y: Byte, z: Byte)
    ensures var c0, c1, c2, c3 := x / 4, x % 4 * 16 + y / 16, y % 16 * 4 + z / 64, z % 64;
      && 0 <= c1 < 64 && 0 <= c2 < 64
      && c0 * 4 + c1 / 16 == x
      && c1 % 16 * 16 + c2 / 4 == y
      && c2 % 4 * 64 + c3 == z
  {
    var c1, c2 := x % 4 * 16 + y / 16, y % 16 * 4 + z / 64;
    DivMod16(c1, x % 4, y / 16);
    DivMod4(c2, y % 16, z / 64);
  }

  lemma DivMod16(a: int, k: int, j: int)
    requires a == 16 * k + j && 0 <= j < 16
    ensures a / 16 == k && a % 16 == j
  {
  }

  lemma DivMod4(a: int, k: int, j: int)
    requires a == 4 * k + j && 0 <= j < 4
    ensures a / 4 == k && a % 4 == j
  {
  }

  /** The unpadded encoding: whole groups of three bytes, then the remaining one or two. */
  function EncodeUnpadded(b: seq<Byte>): (s: string)
    ensures |s| == (4 * |b| + 2) / 3
    ensures forall i :: 0 <= i < |s| ==> s[i] != '=' && s[i] != '.'
    decreases |b|
  {
    if b == [] then ""
    else if |b| <= 3 then EncodeGroup(b)
    else EncodeGroup(b[..3]) + EncodeUnpadded(b[3..])
  }

  /** The number of `=` that `urlsafe_b64encode` appends to the encoding of `n` bytes. */
  function PadCount(n: nat): nat
  {
    (3 - n % 3) % 3
  }

  /** `base64.urlsafe_b64encode`: the unpadded encoding followed by its padding. */
  function Encode(b: seq<Byte>): (s: string)
    ensures |s| == 4 * ((|b| + 2) / 3)
  {
    LengthArith(|b|);
    EncodeUnpadded(b) + seq(PadCount(|b|), _ => '=')
  }

  /**
   * The lengths for `n = 3q + r` bytes: `4q` characters for the whole
   * groups, `r + 1` for a last partial group, and `3 - r` of padding.
   */
  lemma LengthArith(n: nat)
    ensures var q, r := n / 3, n % 3;
      && (4 * n + 2) / 3 == 4 * q + (if r == 0 then 0 else r + 1)
      && PadCount(n) == (if r == 0 then 0 else 3 - r)
      && 4 * ((n + 2) / 3) == 4 * q + (if r == 0 then 0 else 4)
  {
    var q, r := n / 3, n % 3;
    if r == 0 {
      DivMod3(4 * n + 2, 4 * q, 2);
      DivMod3(n + 2, q, 2);
    } else if r == 1 {
      DivMod3(4 * n + 2, 4 * q + 2, 0);
      DivMod3(n + 2, q + 1, 0);
    } else {
      DivMod3(4 * n + 2, 4 * q + 3, 1);
      DivMod3(n + 2, q + 1, 1);
    }
  }

  /** `_pad64`: append `=` until the length is a multiple of four. */
  function Pad64(s: string): (r: string)
    ensures |r| % 4 == 0
    ensures |s| <= |r| <= |s| + 3
    ensures r[..|s|] == s
    ensures forall k :: |s| <= k < |r| ==> r[k] == '='
  {
    s + seq((-|s|) % 4, _ => '=')
  }

  /** `urlsafe_b64decode` of a padded text; None where the decoder raises. */
  function Decode(s: string): (r: Option<seq<Byte>>)
    ensures r.Some? ==> |s| % 4 == 0
    ensures r.Some? ==> forall k :: 0 <= k < |s| && s[k] != '=' ==> IndexOf(s[k]).Some?
    ensures r.Some? ==> forall k :: 0 <= k < |s| - 2 ==> s[k] != '='
    decreases |s|
  {
    if s == [] then Some([])
    else if |s| % 4 != 0 then None
    else if |s| == 4 then
      if s[2] == '=' then (if s[3] == '=' then DecodeGroup(s[..2]) else None)
      else if s[3] == '=' then DecodeGroup(s[..3])
      else DecodeGroup(s)
    else
      match DecodeGroup(s[..4])
      case None => None
      case Some(g) =>
        match Decode(s[4..])
        case None => None
        case Some(rest) => Some(g + rest)
  }

  /** The idiom `urlsafe_b64decode(_pad64(s))` used for every unpadded field. */
  function DecodeUnpadded(s: string): Option<seq<Byte>>
  {
    Decode(Pad64(s))
  }

  /** The idiom `urlsafe_b64encode(b).rstrip('=')` used for every unpadded field. */
  function EncodeStripped(b: seq<Byte>): string
  {
    StripRight(Encode(b), '=')
  }

  /** Longer inputs encode as their first group followed by the encoding of the rest. */
  lemma EncodeCons(b: seq<Byte>)
    requires |b| > 3
    ensures Encode(b) == EncodeGroup(b[..3]) + Encode(b[3..])
  {
    assert PadCount(|b|) == PadCount(|b| - 3);
  }

  /** Decoding undoes the padded encoding. */
  lemma {:induction false} DecodeEncode(b: seq<Byte>)
    ensures Decode(Encode(b)) == Some(b)
    decreases |b|
  {
    if b == [] {
    } else if |b| <= 3 {
      DecodeEncodeLastGroup(b);
    } else {
      EncodeCons(b);
      GroupRoundTrip(b[..3]);
      DecodeEncode(b[3..]);
      DecodeCons(EncodeGroup(b[..3]), Encode(b[3..]), b[..3], b[3..]);
      assert b[..3] + b[3..] == b;
    }
  }

  /** A full group followed by further groups decodes to the group's bytes followed by the rest. */
  lemma DecodeCons(g: string, t: string, first: seq<Byte>, rest: seq<Byte>)
    requires |g| == 4 && |t| > 0 && |t| % 4 == 0
    requires DecodeGroup(g) == Some(first) && Decode(t) == Some(rest)
    ensures Decode(g + t) == Some(first + rest)
  {
    var s := g + t;
    Mod4(|s|, |t| / 4 + 1, 0);
    assert s[..4] == g && s[4..] == t;
  }

  /** The base case of DecodeEncode: one group and its padding. */
  lemma DecodeEncodeLastGroup(b: seq<Byte>)
    requires 1 <= |b| <= 3
    ensures Decode(Encode(b)) == Some(b)
  {
    var s := Encode(b);
    var g := EncodeGroup(b);
    GroupRoundTrip(b);
    assert |s| == 4;
    assert s[..|b| + 1] == g;
    if |b| == 1 {
      assert s[2] == '=' && s[3] == '=';
    } else if |b| == 2 {
      assert s[2] != '=' && s[3] == '=';
    } else {
      assert s == g;
    }
  }

  /** Stripping the padding leaves exactly the unpadded encoding. */
  lemma StripPadding(b: seq<Byte>)
    ensures EncodeStripped(b) == EncodeUnpadded(b)
  {
    StripRightPadding(EncodeUnpadded(b), '=', PadCount(|b|));
  }

  /** `_pad64` restores exactly the padding `rstrip('=')` removed. */
  lemma PadRestores(b: seq<Byte>)
    ensures Pad64(EncodeStripped(b)) == Encode(b)
  {
    StripPadding(b);
    var u := EncodeUnpadded(b);
    PadArith(|b|);
    assert (-|u|) % 4 == PadCount(|b|);
  }

  /** The padding `_pad64` computes from the unpadded length is the encoder's. */
  lemma PadArith(n: nat)
    ensures (-((4 * n + 2) / 3)) % 4 == PadCount(n)
  {
    var q, r := n / 3, n % 3;
    if r == 0 {
      DivMod3(4 * n + 2, 4 * q, 2);
      Mod4(-(4 * q), -q, 0);
    } else if r == 1 {
      DivMod3(4 * n + 2, 4 * q + 2, 0);
      Mod4(-(4 * q + 2), -q - 1, 2);
    } else {
      DivMod3(4 * n + 2, 4 * q + 3, 1);
      Mod4(-(4 * q + 3), -q - 1, 1);
    }
  }

  /** Division by three is determined by quotient and remainder. */
  lemma DivMod3(a: int, k: int, j: int)
    requires a == 3 * k + j && 0 <= j < 3
    ensures a / 3 == k && a % 3 == j
  {
  }

  /** Euclidean remainder modulo four is determined by quotient and remainder. */
  lemma Mod4(a: int, k: int, j: int)
    requires a == 4 * k + j && 0 <= j < 4
    ensures a % 4 == j
  {
  }

  /** Every unpadded field the code writes is read back unchanged. */
  lemma UnpaddedRoundTrip(b: seq<Byte>)
    ensures DecodeUnpadded(EncodeStripped(b)) == Some(b)
    ensures forall i :: 0 <= i < |EncodeStripped(b)| ==> EncodeStripped(b)[i] != '.'
  {
    PadRestores(b);
    DecodeEncode(b);
    StripPadding(b);
  }
}

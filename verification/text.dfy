/**
 * The few Python string operations the manifest code relies on, stated over
 * Dafny sequences: `str.split` with a one-character separator, its inverse
 * `join`, `rstrip`/`lstrip`/`strip` with one character, and ASCII `lower`.
 */
module Text {

  /** One octet of a Python 2 byte string. */
  type Byte = b: int | 0 <= b < 256

  /** The byte string of an ASCII text. */
  function Ascii(s: string): (b: seq<Byte>)
    requires forall i :: 0 <= i < |s| ==> s[i] as int < 256
    ensures |b| == |s|
    ensures forall i :: 0 <= i < |s| ==> b[i] == s[i] as int
  {
    seq(|s|, i requires 0 <= i < |s| => s[i] as int)
  }

  /** `sep.join(parts)`. */
  function Join(parts: seq<string>, sep: char): string
    decreases |parts|
  {
    if |parts| == 0 then ""
    else if |parts| == 1 then parts[0]
    else parts[0] + [sep] + Join(parts[1..], sep)
  }

  /**
   * `s.split(sep)`: the text between consecutive separators, so that joining
   * the parts with `sep` gives back `s` and no part contains `sep`.
   */
  function Split(s: string, sep: char): (parts: seq<string>)
    ensures |parts| >= 1
    ensures Join(parts, sep) == s
    ensures forall i :: 0 <= i < |parts| ==> sep !in parts[i]
    decreases |s|
  {
    if s == [] then [""]
    else
      var rest := Split(s[1..], sep);
      if s[0] == sep then
        assert Join([""] + rest, sep) == [sep] + Join(rest, sep);
        [""] + rest
      else
        var parts := [[s[0]] + rest[0]] + rest[1..];
        assert parts[1..] == rest[1..];
        assert Join(parts, sep) == [s[0]] + Join(rest, sep) by {
          if |rest| > 1 {
            assert Join(rest, sep) == rest[0] + [sep] + Join(rest[1..], sep);
          }
        }
        parts
  }

  /** A text without `sep` followed by `sep` splits at that first separator. */
  lemma {:induction false} SplitAfterPart(p: string, sep: char, t: string)
    requires sep !in p
    ensures Split(p + [sep] + t, sep) == [p] + Split(t, sep)
    decreases |p|
  {
    if p == [] {
      assert [sep] + t == ([sep] + t)[..1] + t;
      assert (p + [sep] + t)[1..] == t;
    } else {
      var s := p + [sep] + t;
      assert s[1..] == p[1..] + [sep] + t;
      SplitAfterPart(p[1..], sep, t);
      var rest := Split(s[1..], sep);
      assert rest[0] == p[1..] && rest[1..] == Split(t, sep);
      assert [s[0]] + rest[0] == p;
    }
  }

  /** The first two parts of a text are the pieces before its first and second `sep`. */
  lemma SplitTwoParts(a: string, b: string, rest: string, sep: char)
    requires sep !in a && sep !in b
    ensures var parts := Split(a + [sep] + b + [sep] + rest, sep);
      |parts| >= 2 && parts[0] == a && parts[1] == b
  {
    var t := b + [sep] + rest;
    assert a + [sep] + b + [sep] + rest == a + [sep] + t;
    SplitAfterPart(a, sep, t);
    SplitAfterPart(b, sep, rest);
  }

  /** A text without `sep` is a single part. */
  lemma {:induction false} SplitWithoutSeparator(p: string, sep: char)
    requires sep !in p
    ensures Split(p, sep) == [p]
    decreases |p|
  {
    if p != [] {
      SplitWithoutSeparator(p[1..], sep);
    }
  }

  /** Two separator-free texts joined by the separator split back into the two. */
  lemma SplitPair(a: string, sep: char, b: string)
    requires sep !in a && sep !in b
    ensures Split(a + [sep] + b, sep) == [a, b]
  {
    SplitAfterPart(a, sep, b);
    SplitWithoutSeparator(b, sep);
  }

  /** `split` is also a left inverse of `join` on parts free of the separator. */
  lemma {:induction false} SplitJoin(parts: seq<string>, sep: char)
    requires |parts| >= 1
    requires forall i :: 0 <= i < |parts| ==> sep !in parts[i]
    ensures Split(Join(parts, sep), sep) == parts
    decreases |parts|
  {
    if |parts| == 1 {
      SplitWithoutSeparator(parts[0], sep);
    } else {
      SplitJoin(parts[1..], sep);
      SplitAfterPart(parts[0], sep, Join(parts[1..], sep));
      assert [parts[0]] + parts[1..] == parts;
    }
  }

  /** `split` yields more than one part exactly when the separator occurs. */
  lemma SplitSeveral(s: string, sep: char)
    ensures |Split(s, sep)| >= 2 <==> sep in s
  {
    var parts := Split(s, sep);
    if |parts| == 1 {
      assert Join(parts, sep) == parts[0];
    } else {
      assert Join(parts, sep) == parts[0] + [sep] + Join(parts[1..], sep);
      assert s[|parts[0]|] == sep;
    }
  }

  /** Joining texts free of `c` with another separator gives a text free of `c`. */
  lemma {:induction false} JoinAvoids(parts: seq<string>, sep: char, c: char)
    requires c != sep
    requires forall i :: 0 <= i < |parts| ==> c !in parts[i]
    ensures c !in Join(parts, sep)
    decreases |parts|
  {
    if |parts| > 1 {
      JoinAvoids(parts[1..], sep, c);
    }
  }

  /** `s.rstrip(c)`: `s` without its trailing run of `c`. */
  function StripRight(s: string, c: char): (r: string)
    ensures |r| <= |s| && r == s[..|r|]
    ensures forall k :: |r| <= k < |s| ==> s[k] == c
    ensures r == [] || r[|r| - 1] != c
    decreases |s|
  {
    if s != [] && s[|s| - 1] == c then StripRight(s[..|s| - 1], c) else s
  }

  /**
   * `s.strip(c)`: the leading and trailing runs of `c` removed (in either
   * order); what is left is a contiguous part of `s`.
   */
  function Strip(s: string, c: char): (r: string)
    ensures r == [] || (r[0] != c && r[|r| - 1] != c)
    ensures |r| <= |s|
    ensures exists i :: StrippedAt(s, c, i, r)
    decreases |s|
  {
    if s != [] && s[0] == c then
      var r := Strip(s[1..], c);
      assert s == [c] + s[1..];
      StrippedFront(s[1..], c, r);
      r
    else if s != [] && s[|s| - 1] == c then
      var r := Strip(s[..|s| - 1], c);
      assert s == s[..|s| - 1] + [c];
      StrippedBack(s[..|s| - 1], c, r);
      r
    else
      assert StrippedAt(s, c, 0, s);
      s
  }

  /** `r` stands at offset `i` of `s`, and every character of `s` around it is `c`. */
  ghost predicate StrippedAt(s: string, c: char, i: int, r: string)
  {
    && 0 <= i <= |s| - |r|
    && s[i..i + |r|] == r
    && (forall k :: 0 <= k < i ==> s[k] == c)
    && (forall k :: i + |r| <= k < |s| ==> s[k] == c)
  }

  /** A leading `c` extends the run in front of the stripped part. */
  lemma StrippedFront(rest: string, c: char, r: string)
    requires exists i :: StrippedAt(rest, c, i, r)
    ensures exists i :: StrippedAt([c] + rest, c, i, r)
  {
    var i :| StrippedAt(rest, c, i, r);
    var s := [c] + rest;
    assert s[i + 1..i + 1 + |r|] == rest[i..i + |r|];
    assert StrippedAt(s, c, i + 1, r);
  }

  /** A trailing `c` extends the run behind the stripped part. */
  lemma StrippedBack(init: string, c: char, r: string)
    requires exists i :: StrippedAt(init, c, i, r)
    ensures exists i :: StrippedAt(init + [c], c, i, r)
  {
    var i :| StrippedAt(init, c, i, r);
    var s := init + [c];
    assert s[i..i + |r|] == init[i..i + |r|];
    assert StrippedAt(s, c, i, r);
  }

  /** Removing the trailing run of `c` undoes appending any number of `c`. */
  lemma {:induction false} StripRightPadding(t: string, c: char, k: nat)
    requires t == [] || t[|t| - 1] != c
    ensures StripRight(t + seq(k, _ => c), c) == t
    decreases k
  {
    if k > 0 {
      var padded := t + seq(k, _ => c);
      assert padded[..|padded| - 1] == t + seq(k - 1, _ => c);
      StripRightPadding(t, c, k - 1);
    } else {
      assert t + seq(k, _ => c) == t;
    }
  }

  /** Stripping `c` from a text quoted with `c` gives the text back. */
  lemma StripQuoted(v: string, c: char)
    requires v == [] || (v[0] != c && v[|v| - 1] != c)
    ensures Strip([c] + v + [c], c) == v
  {
    var t := v + [c];
    QuoteParts(v, c);
    assert Strip([c] + t, c) == Strip(t, c);
    if v == [] {
      assert Strip([c], c) == Strip([], c);
    } else {
      assert Strip(t, c) == Strip(v, c);
    }
  }

  /** The pieces of a quoted text. */
  lemma QuoteParts(v: string, c: char)
    ensures [c] + v + [c] == [c] + (v + [c])
    ensures ([c] + (v + [c]))[0] == c && ([c] + (v + [c]))[1..] == v + [c]
    ensures (v + [c])[|v|] == c && (v + [c])[..|v|] == v
    ensures v != [] ==> (v + [c])[0] == v[0]
    ensures v == [] ==> v + [c] == [c] && [c][1..] == []
  {
  }

  /** ASCII lower case of one character; other characters are unchanged. */
  function LowerChar(ch: char): char
  {
    if 'A' <= ch <= 'Z' then (ch as int - 'A' as int + 'a' as int) as char else ch
  }

  /** `s.lower()` restricted to ASCII letters. */
  function Lower(s: string): (r: string)
    ensures |r| == |s|
    ensures forall i :: 0 <= i < |s| ==> r[i] == LowerChar(s[i])
  {
    seq(|s|, i requires 0 <= i < |s| => LowerChar(s[i]))
  }

  /** A text equals `none` ignoring case exactly when each of its four letters does. */
  lemma IsNoneIgnoringCase(s: string)
    ensures Lower(s) == "none" <==>
      |s| == 4 && s[0] in "nN" && s[1] in "oO" && s[2] in "nN" && s[3] in "eE"
  {
    if |s| == 4 && s[0] in "nN" && s[1] in "oO" && s[2] in "nN" && s[3] in "eE" {
      assert Lower(s) == [Lower(s)[0], Lower(s)[1], Lower(s)[2], Lower(s)[3]];
    }
    if Lower(s) == "none" {
      assert Lower(s)[0] == 'n' && Lower(s)[1] == 'o' && Lower(s)[2] == 'n' && Lower(s)[3] == 'e';
    }
  }
}

/**
 * The format-length / format-tail protocol. The signer cuts the serialised
 * manifest at its last `}`, signs the whole text, and splices a
 * `"signatures"` member in front of the cut-off tail; the verifier rebuilds
 * the signed bytes as `content[:formatLength] + formatTail`. Slicing follows
 * Python: a bound may be negative (counted from the end) or past the end
 * (clamped), since `formatLength` arrives from the wire.
 */
module Payload {
  import opened Text
  import opened Base64Url

  /** The byte of `}`. */
  const CloseBrace: Byte := 0x7D

  /** The text inserted before the signatures array: `, "signatures": `. */
  const SignaturesMember: seq<Byte> := Ascii(", \"signatures\": ")

  /** Python's normalisation of a slice bound `i` on a sequence of length `n`. */
  function SliceBound(i: int, n: nat): (k: nat)
    ensures k <= n
    ensures 0 <= i <= n ==> k == i
    ensures i < 0 && -i <= n ==> k == n + i
    ensures i > n ==> k == n
    ensures i + n < 0 ==> k == 0
  {
    if i < 0 then (if i + n < 0 then 0 else i + n)
    else if i > n then n
    else i
  }

  /** `s[:i]`. */
  function Take(s: seq<Byte>, i: int): seq<Byte>
  {
    s[..SliceBound(i, |s|)]
  }

  /** `s[i:]`. */
  function Drop(s: seq<Byte>, i: int): seq<Byte>
  {
    s[SliceBound(i, |s|)..]
  }

  /** `s.rfind(c)`: the index of the last `c`, or -1 when there is none. */
  function RFind(s: seq<Byte>, c: Byte): (r: int)
    ensures -1 <= r < |s|
    ensures r >= 0 ==> s[r] == c
    ensures forall j :: r < j < |s| ==> s[j] != c
    ensures r == -1 <==> c !in s
    decreases |s|
  {
    if s == [] then -1
    else if s[|s| - 1] == c then |s| - 1
    else RFind(s[..|s| - 1], c)
  }

  /** Where the signer cuts the manifest text. */
  datatype Cut = Cut(formatLength: int, formatTail: seq<Byte>)

  /** The decoded protected header: `{"formatLength": ..., "formatTail": ...}`. */
  datatype ProtectedHeader = ProtectedHeader(formatLength: int, formatTail: string)

  /**
   * The signer's cut: `format_length = manifest_json.rfind('}')` and
   * `format_tail = manifest_json[format_length:]`.
   */
  function ComputeCut(manifestJson: seq<Byte>): (sp: Cut)
    ensures Take(manifestJson, sp.formatLength) + sp.formatTail == manifestJson
    ensures CloseBrace in manifestJson ==>
      && 0 <= sp.formatLength < |manifestJson|
      && manifestJson[sp.formatLength] == CloseBrace
      && sp.formatTail == manifestJson[sp.formatLength..]
      && sp.formatTail[0] == CloseBrace
      && CloseBrace !in sp.formatTail[1..]
  {
    var fl := RFind(manifestJson, CloseBrace);
    Cut(fl, Drop(manifestJson, fl))
  }

  /** The header the signer publishes for a cut: the tail as unpadded base64url. */
  function ProtectedFor(sp: Cut): ProtectedHeader
  {
    ProtectedHeader(sp.formatLength, EncodeStripped(sp.formatTail))
  }

  /**
   * `manifest_json[:format_length] + ', "signatures": ' + json.dumps(signatures)
   * + format_tail`.
   */
  function Splice(manifestJson: seq<Byte>, sp: Cut, signaturesJson: seq<Byte>): (r: seq<Byte>)
    ensures var k := SliceBound(sp.formatLength, |manifestJson|);
      && |r| == k + |SignaturesMember| + |signaturesJson| + |sp.formatTail|
      && r[..k] == manifestJson[..k]
      && r[k..k + |SignaturesMember|] == SignaturesMember
      && r[k + |SignaturesMember|..|r| - |sp.formatTail|] == signaturesJson
      && r[|r| - |sp.formatTail|..] == sp.formatTail
  {
    Take(manifestJson, sp.formatLength) + SignaturesMember + signaturesJson + sp.formatTail
  }

  /** The verifier's `content[:format_length] + format_tail`. */
  function Reconstruct(content: seq<Byte>, formatLength: int, formatTail: seq<Byte>): (r: seq<Byte>)
    ensures var k := SliceBound(formatLength, |content|);
      && |r| == k + |formatTail|
      && r[..k] == content[..k]
      && r[k..] == formatTail
  {
    Take(content, formatLength) + formatTail
  }

  /**
   * Splice then reconstruct is exact: whatever signatures text was inserted,
   * the verifier rebuilds precisely the text that was signed.
   */
  lemma SpliceThenReconstruct(manifestJson: seq<Byte>, signaturesJson: seq<Byte>)
    requires CloseBrace in manifestJson
    ensures var sp := ComputeCut(manifestJson);
      Reconstruct(Splice(manifestJson, sp, signaturesJson), sp.formatLength, sp.formatTail) == manifestJson
  {
    var sp := ComputeCut(manifestJson);
    var prefix := Take(manifestJson, sp.formatLength);
    var spliced := Splice(manifestJson, sp, signaturesJson);
    assert |prefix| == sp.formatLength;
    assert spliced[..sp.formatLength] == prefix;
    assert Take(spliced, sp.formatLength) == prefix;
  }

  /**
   * The rebuilt payload depends on the content only through its first
   * `formatLength` bytes: changing a byte there changes the payload, and
   * changing any byte after it does not.
   */
  lemma ReconstructSeesOnlyPrefix(c1: seq<Byte>, c2: seq<Byte>, formatLength: int, formatTail: seq<Byte>)
    requires 0 <= formatLength <= |c1| && formatLength <= |c2|
    ensures Reconstruct(c1, formatLength, formatTail) == Reconstruct(c2, formatLength, formatTail)
            <==> c1[..formatLength] == c2[..formatLength]
  {
    if Reconstruct(c1, formatLength, formatTail) == Reconstruct(c2, formatLength, formatTail) {
      assert Reconstruct(c1, formatLength, formatTail)[..formatLength] == c1[..formatLength];
      assert Reconstruct(c2, formatLength, formatTail)[..formatLength] == c2[..formatLength];
    }
  }
}

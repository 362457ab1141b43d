/**
 * `_verify_manifest`: check every signature entry against the policy
 * (no algorithm `none`, no certificate chain, an EC P-256 key), rebuild the
 * signed payload from the first entry's format length and tail, check the
 * optional content digest, verify every signature over
 * `protected64 + "." + payload64`, and return the hex parts of the layer
 * digests in order. JSON parsing, SHA-256 and ECDSA are collaborators given
 * as a `Crypto` value.
 */
module Verifier {
  import opened Wrappers
  import opened Text
  import opened Errors
  import opened Base64Url
  import opened Payload
  import opened Keys

  /** The `header` object of a signature: `alg`, the optional `jwk` and `chain` (absent is empty). */
  datatype SignatureHeader = SignatureHeader(alg: string, jwk: Option<Jwk>, chain: seq<string>)

  /** One element of the manifest's `signatures` array. */
  datatype WireSignature = WireSignature(header: SignatureHeader, signature: string, protected: string)

  /** One element of `fsLayers`: `{"blobSum": "sha256:<hex>"}`. */
  datatype Layer = Layer(blobSum: string)

  /** The manifest as `json.loads(content)` returns it. */
  datatype Manifest = Manifest(name: string, tag: string, fsLayers: seq<Layer>, signatures: seq<WireSignature>)

  /**
   * The collaborators: `json.loads` of a decoded protected header, SHA-256
   * as a hex digest, the curve-point check of the ecdsa library, whether
   * the JWS library knows an algorithm, and its verifier
   * `(alg, message, signature, key)`.
   */
  datatype Crypto = Crypto(
    parseProtected: seq<Byte> -> Option<ProtectedHeader>,
    sha256Hex: seq<Byte> -> string,
    onCurve: (nat, nat) -> bool,
    hasVerifier: string -> bool,
    verifies: (string, string, seq<Byte>, PublicKey) -> bool)

  /** The verifier's working record for one signature. */
  datatype Entry = Entry(alg: string, signature: string, protected64: string, key: PublicKey,
                         formatLength: int, formatTail: seq<Byte>)

  const Sha256: string := "sha256"

  /** The JWS signing input of RFC 7515 section 5.1. */
  function SigningInput(protected64: string, payload64: string): string
  {
    protected64 + "." + payload64
  }

  /**
   * Neither half of the signing input contains a `.`, so the signed message
   * determines both the protected header and the payload.
   */
  lemma SigningInputInjective(p1: string, q1: string, p2: string, q2: string)
    requires '.' !in p1 && '.' !in p2
    ensures SigningInput(p1, q1) == SigningInput(p2, q2) <==> p1 == p2 && q1 == q2
  {
    if SigningInput(p1, q1) == SigningInput(p2, q2) {
      var m := SigningInput(p1, q1);
      FirstDot(p1, q1);
      FirstDot(p2, q2);
      assert |p1| == |p2|;
      assert p1 == m[..|p1|] == p2;
      assert q1 == m[|p1| + 1..] == q2;
    }
  }

  /** The first `.` of a signing input ends its protected header. */
  lemma FirstDot(p: string, q: string)
    requires '.' !in p
    ensures SigningInput(p, q)[|p|] == '.'
    ensures forall k :: 0 <= k < |p| ==> SigningInput(p, q)[k] != '.'
  {
  }

  /** The policy every signature header must meet. */
  predicate HeaderAllowed(h: SignatureHeader)
  {
    && Lower(h.alg) != "none"
    && |h.chain| == 0
    && h.jwk.Some?
    && h.jwk.value.kty == "EC"
    && h.jwk.value.crv == "P-256"
  }

  /**
   * Lines 58-64: decode `protected` from unpadded base64url, parse it, and
   * decode its `formatTail`; each step that fails raises its error.
   */
  function DecodeProtected(protected64: string, crypto: Crypto): (r: Result<Cut, Error>)
    ensures DecodeUnpadded(protected64).None? ==> r == Err(InvalidBase64)
    ensures DecodeUnpadded(protected64).Some? && crypto.parseProtected(DecodeUnpadded(protected64).value).None?
            ==> r == Err(InvalidProtectedHeader)
    ensures r.Ok? <==>
      && DecodeUnpadded(protected64).Some?
      && crypto.parseProtected(DecodeUnpadded(protected64).value).Some?
      && DecodeUnpadded(crypto.parseProtected(DecodeUnpadded(protected64).value).value.formatTail).Some?
    ensures r.Ok? ==>
      var ph := crypto.parseProtected(DecodeUnpadded(protected64).value).value;
      r.value == Cut(ph.formatLength, DecodeUnpadded(ph.formatTail).value)
  {
    match DecodeUnpadded(protected64)
    case None => Err(InvalidBase64)
    case Some(protectedJson) =>
      match crypto.parseProtected(protectedJson)
      case None => Err(InvalidProtectedHeader)
      case Some(ph) =>
        match DecodeUnpadded(ph.formatTail)
        case None => Err(InvalidBase64)
        case Some(tail) => Ok(Cut(ph.formatLength, tail))
  }

  /** Lines 58-79: one pass of the first loop, in the source's order of checks. */
  function CheckEntry(sig: WireSignature, crypto: Crypto): (r: Result<Entry, Error>)
    ensures DecodeProtected(sig.protected, crypto).Err? ==> r == Err(DecodeProtected(sig.protected, crypto).error)
    ensures DecodeProtected(sig.protected, crypto).Ok? && Lower(sig.header.alg) == "none"
            ==> r == Err(DisallowedSignatureAlgorithm("none"))
    ensures (DecodeProtected(sig.protected, crypto).Ok? && Lower(sig.header.alg) != "none"
             && |sig.header.chain| > 0) ==> r == Err(ChainNotImplemented)
    ensures (DecodeProtected(sig.protected, crypto).Ok? && Lower(sig.header.alg) != "none"
             && |sig.header.chain| == 0 && sig.header.jwk.None?) ==> r == Err(MissingJwk)
    ensures (DecodeProtected(sig.protected, crypto).Ok? && Lower(sig.header.alg) != "none"
             && |sig.header.chain| == 0 && sig.header.jwk.Some?
             && JwkToKey(sig.header.jwk.value, crypto.onCurve).Err?)
            ==> r == Err(JwkToKey(sig.header.jwk.value, crypto.onCurve).error)
    ensures r.Ok? <==>
      && DecodeProtected(sig.protected, crypto).Ok?
      && HeaderAllowed(sig.header)
      && JwkToKey(sig.header.jwk.value, crypto.onCurve).Ok?
    ensures r.Ok? ==>
      var cut := DecodeProtected(sig.protected, crypto).value;
      r.value == Entry(sig.header.alg, sig.signature, sig.protected,
                       JwkToKey(sig.header.jwk.value, crypto.onCurve).value, cut.formatLength, cut.formatTail)
  {
    match DecodeProtected(sig.protected, crypto)
    case Err(e) => Err(e)
    case Ok(sp) =>
      if Lower(sig.header.alg) == "none" then Err(DisallowedSignatureAlgorithm("none"))
      else if |sig.header.chain| > 0 then Err(ChainNotImplemented)
      else
        match sig.header.jwk
        case None => Err(MissingJwk)
        case Some(jwk) =>
          match JwkToKey(jwk, crypto.onCurve)
          case Err(e) => Err(e)
          case Ok(key) => Ok(Entry(sig.header.alg, sig.signature, sig.protected, key,
                                   sp.formatLength, sp.formatTail))
  }

  /**
   * The shape of the source's loops `for x in xs: ... raise ...; append`:
   * every element is checked in order, the first error ends the loop, and
   * otherwise there is one result per element.
   */
  function CheckAll<A, B>(xs: seq<A>, check: A -> Result<B, Error>): (r: Result<seq<B>, Error>)
    ensures r.Ok? <==> forall i :: 0 <= i < |xs| ==> check(xs[i]).Ok?
    ensures r.Ok? ==> |r.value| == |xs|
    ensures r.Ok? ==> forall i :: 0 <= i < |xs| ==> check(xs[i]) == Ok(r.value[i])
    ensures r.Err? ==> exists i :: 0 <= i < |xs| && FirstFailureAt(xs, check, i, r.error)
    decreases |xs|
  {
    if xs == [] then Ok([])
    else
      var init := xs[..|xs| - 1];
      match CheckAll(init, check)
      case Err(e) =>
        FirstFailureExtends(init, xs, check, e);
        Err(e)
      case Ok(values) =>
        assert forall i :: 0 <= i < |init| ==> xs[i] == init[i];
        match check(xs[|xs| - 1])
        case Err(e) =>
          assert FirstFailureAt(xs, check, |xs| - 1, e);
          Err(e)
        case Ok(value) =>
          var all := values + [value];
          assert forall i :: 0 <= i < |init| ==> all[i] == values[i];
          Ok(all)
  }

  /** A first failure in a prefix is the first failure of the whole sequence. */
  lemma FirstFailureExtends<A, B>(init: seq<A>, xs: seq<A>, check: A -> Result<B, Error>, e: Error)
    requires |init| <= |xs| && init == xs[..|init|]
    requires exists i :: 0 <= i < |init| && FirstFailureAt(init, check, i, e)
    ensures exists i :: 0 <= i < |xs| && FirstFailureAt(xs, check, i, e)
  {
    var i :| 0 <= i < |init| && FirstFailureAt(init, check, i, e);
    assert FirstFailureAt(xs, check, i, e);
  }

  /** When element `i` is the first to fail, the loop raises its error. */
  lemma FirstFailureIs<A, B>(xs: seq<A>, check: A -> Result<B, Error>, i: nat)
    requires i < |xs| && check(xs[i]).Err?
    requires forall j :: 0 <= j < i ==> check(xs[j]).Ok?
    ensures CheckAll(xs, check) == Err(check(xs[i]).error)
  {
    var e := CheckAll(xs, check).error;
    var k :| 0 <= k < |xs| && FirstFailureAt(xs, check, k, e);
    assert k == i;
  }

  /** Element `i` fails with `e` and every element before it passes. */
  ghost predicate FirstFailureAt<A, B>(xs: seq<A>, check: A -> Result<B, Error>, i: int, e: Error)
  {
    && 0 <= i < |xs|
    && check(xs[i]) == Err(e)
    && forall j :: 0 <= j < i ==> check(xs[j]).Ok?
  }

  /** CheckEntry with its collaborators fixed. */
  function EntryCheck(crypto: Crypto): WireSignature -> Result<Entry, Error>
  {
    (sig: WireSignature) => CheckEntry(sig, crypto)
  }

  /** The first loop, lines 57-79. */
  function CheckEntries(sigs: seq<WireSignature>, crypto: Crypto): Result<seq<Entry>, Error>
  {
    CheckAll(sigs, EntryCheck(crypto))
  }

  /** A manifest with one signature: the first loop's outcome is that signature's. */
  lemma SingleEntry(sig: WireSignature, crypto: Crypto)
    ensures CheckEntries([sig], crypto)
            == (match CheckEntry(sig, crypto) case Ok(entry) => Ok([entry]) case Err(e) => Err(e))
  {
    assert [sig][..0] == [];
    assert CheckAll([sig][..0], EntryCheck(crypto)) == Ok([]);
    assert EntryCheck(crypto)(sig) == CheckEntry(sig, crypto);
    match CheckEntry(sig, crypto)
    case Ok(entry) =>
      assert [] + [entry] == [entry];
    case Err(e) =>
  }

  /** Lines 81-82: the payload is rebuilt from the first entry alone. */
  function SignedPayload(content: seq<Byte>, entries: seq<Entry>): seq<Byte>
    requires |entries| > 0
  {
    Reconstruct(content, entries[0].formatLength, entries[0].formatTail)
  }

  /** A digest text that unpacks as `sha256:<hex>`. */
  predicate IsSha256Digest(dgst: string)
  {
    var parts := Split(dgst, ':');
    |parts| == 2 && parts[0] == Sha256
  }

  /** Lines 85-93: the content digest check; None when it passes. */
  function CheckContentDigest(contentDigest: Option<string>, payload: seq<Byte>, crypto: Crypto): (r: Option<Error>)
    ensures r.None? <==>
      contentDigest.None? || contentDigest.value == ""
      || Split(contentDigest.value, ':') == [Sha256, crypto.sha256Hex(payload)]
  {
    if contentDigest.None? || contentDigest.value == "" then None
    else
      var parts := Split(contentDigest.value, ':');
      if |parts| != 2 then Some(InvalidDigestString)
      else if parts[0] != Sha256 then Some(UnexpectedDigestMethod(parts[0], Sha256))
      else
        var dgst := crypto.sha256Hex(payload);
        if dgst != parts[1] then Some(DigestMismatch(dgst, parts[1])) else None
  }

  /** Lines 96-106: one signature checked over the rebuilt payload. */
  function CheckSignature(entry: Entry, payload64: string, crypto: Crypto): (r: Result<(), Error>)
    ensures r.Ok? <==> SignatureVerifies(entry, payload64, crypto)
    ensures !crypto.hasVerifier(entry.alg) ==> r == Err(UnsupportedAlgorithm(entry.alg))
    ensures crypto.hasVerifier(entry.alg) && DecodeUnpadded(entry.signature).None? ==> r == Err(InvalidBase64)
    ensures crypto.hasVerifier(entry.alg) && DecodeUnpadded(entry.signature).Some? && r.Err?
            ==> r == Err(SignatureMismatch)
  {
    if !crypto.hasVerifier(entry.alg) then Err(UnsupportedAlgorithm(entry.alg))
    else
      match DecodeUnpadded(entry.signature)
      case None => Err(InvalidBase64)
      case Some(sig) =>
        if crypto.verifies(entry.alg, SigningInput(entry.protected64, payload64), sig, entry.key)
        then Ok(()) else Err(SignatureMismatch)
  }

  /** The entry's signature is a valid signature of its signing input under its key. */
  predicate SignatureVerifies(entry: Entry, payload64: string, crypto: Crypto)
  {
    && crypto.hasVerifier(entry.alg)
    && DecodeUnpadded(entry.signature).Some?
    && crypto.verifies(entry.alg, SigningInput(entry.protected64, payload64),
                       DecodeUnpadded(entry.signature).value, entry.key)
  }

  /** CheckSignature with the payload and collaborators fixed. */
  function SignatureCheck(payload64: string, crypto: Crypto): Entry -> Result<(), Error>
  {
    (entry: Entry) => CheckSignature(entry, payload64, crypto)
  }

  /** The second loop, lines 95-106: every signature must verify. */
  function CheckSignatures(entries: seq<Entry>, payload64: string, crypto: Crypto): Result<seq<()>, Error>
  {
    CheckAll(entries, SignatureCheck(payload64, crypto))
  }

  /** One signature: the second loop passes exactly when it verifies. */
  lemma SingleSignature(entry: Entry, payload64: string, crypto: Crypto)
    ensures CheckSignatures([entry], payload64, crypto).Ok? <==> SignatureVerifies(entry, payload64, crypto)
  {
    assert [entry][..0] == [];
  }

  /** Lines 110-113: `method, dgst = blobSum.split(':')`, refusing other methods. */
  function LayerDigest(layer: Layer): (r: Result<string, Error>)
    ensures r.Ok? <==> IsSha256Digest(layer.blobSum)
    ensures r.Ok? ==> Split(layer.blobSum, ':') == [Sha256, r.value]
    ensures |Split(layer.blobSum, ':')| != 2 ==> r == Err(InvalidDigestString)
    ensures |Split(layer.blobSum, ':')| == 2 && Split(layer.blobSum, ':')[0] != Sha256
            ==> r == Err(UnexpectedDigestMethod(Split(layer.blobSum, ':')[0], Sha256))
  {
    var parts := Split(layer.blobSum, ':');
    if |parts| != 2 then Err(InvalidDigestString)
    else if parts[0] != Sha256 then Err(UnexpectedDigestMethod(parts[0], Sha256))
    else Ok(parts[1])
  }

  /** The third loop, lines 108-114. */
  function LayerDigests(layers: seq<Layer>): Result<seq<string>, Error>
  {
    CheckAll(layers, LayerDigest)
  }

  /** The whole of `_verify_manifest(content, content_digest)`. */
  function Verify(content: seq<Byte>, manifest: Manifest, contentDigest: Option<string>, crypto: Crypto)
    : Result<seq<string>, Error>
  {
    match CheckEntries(manifest.signatures, crypto)
    case Err(e) => Err(e)
    case Ok(entries) =>
      if |entries| == 0 then Err(NoSignatures)
      else
        var payload := SignedPayload(content, entries);
        var payload64 := EncodeStripped(payload);
        match CheckContentDigest(contentDigest, payload, crypto)
        case Some(e) => Err(e)
        case None =>
          match CheckSignatures(entries, payload64, crypto)
          case Err(e) => Err(e)
          case Ok(_) => LayerDigests(manifest.fsLayers)
  }

  /**
   * A header that breaks the policy makes verification fail in the first
   * loop, with the error of the first failing entry: before any digest is
   * computed and before any signature is verified.
   */
  lemma PolicyViolationRejected(content: seq<Byte>, manifest: Manifest, contentDigest: Option<string>,
                                crypto: Crypto, i: nat)
    requires i < |manifest.signatures|
    requires !HeaderAllowed(manifest.signatures[i].header)
    ensures CheckEntries(manifest.signatures, crypto).Err?
    ensures Verify(content, manifest, contentDigest, crypto) == Err(CheckEntries(manifest.signatures, crypto).error)
  {
    assert CheckEntry(manifest.signatures[i], crypto).Err?;
  }

  /** A manifest without signatures is refused (the IndexError of line 81). */
  lemma NoSignaturesRejected(content: seq<Byte>, manifest: Manifest, contentDigest: Option<string>, crypto: Crypto)
    requires manifest.signatures == []
    ensures Verify(content, manifest, contentDigest, crypto) == Err(NoSignatures)
  {
  }

  /**
   * Once the entries are accepted, a content digest of another method is
   * refused before any signature is verified.
   */
  lemma DigestMethodRejected(content: seq<Byte>, manifest: Manifest, dgst: string, crypto: Crypto)
    requires CheckEntries(manifest.signatures, crypto).Ok? && |manifest.signatures| > 0
    requires |Split(dgst, ':')| == 2 && Split(dgst, ':')[0] != Sha256
    ensures Verify(content, manifest, Some(dgst), crypto)
            == Err(UnexpectedDigestMethod(Split(dgst, ':')[0], Sha256))
  {
  }

  /**
   * Once the entries are accepted, a sha256 content digest that differs from
   * the hash of the rebuilt payload is refused, carrying both values.
   */
  lemma DigestMismatchRejected(content: seq<Byte>, manifest: Manifest, expected: string, crypto: Crypto)
    requires CheckEntries(manifest.signatures, crypto).Ok? && |manifest.signatures| > 0
    requires ':' !in expected
    requires crypto.sha256Hex(SignedPayload(content, CheckEntries(manifest.signatures, crypto).value)) != expected
    ensures var actual := crypto.sha256Hex(SignedPayload(content, CheckEntries(manifest.signatures, crypto).value));
      Verify(content, manifest, Some(Sha256 + ":" + expected), crypto) == Err(DigestMismatch(actual, expected))
  {
    SplitPair(Sha256, ':', expected);
  }

  /** A layer digest of another method, or not of the form `method:hex`, makes verification fail. */
  lemma LayerMethodRejected(content: seq<Byte>, manifest: Manifest, contentDigest: Option<string>,
                            crypto: Crypto, i: nat)
    requires i < |manifest.fsLayers|
    requires !IsSha256Digest(manifest.fsLayers[i].blobSum)
    ensures Verify(content, manifest, contentDigest, crypto).Err?
    ensures LayerDigests(manifest.fsLayers).Err?
    ensures (forall j :: 0 <= j < i ==> IsSha256Digest(manifest.fsLayers[j].blobSum))
            ==> LayerDigests(manifest.fsLayers) == Err(LayerDigest(manifest.fsLayers[i]).error)
  {
    FirstBadLayer(manifest.fsLayers, i);
  }

  /** The layer loop fails at a bad layer, with the error of the first bad one. */
  lemma FirstBadLayer(layers: seq<Layer>, i: nat)
    requires i < |layers| && !IsSha256Digest(layers[i].blobSum)
    ensures LayerDigests(layers).Err?
    ensures (forall j :: 0 <= j < i ==> IsSha256Digest(layers[j].blobSum))
            ==> LayerDigests(layers) == Err(LayerDigest(layers[i]).error)
  {
    if forall j :: 0 <= j < i ==> IsSha256Digest(layers[j].blobSum) {
      FirstFailureIs(layers, LayerDigest, i);
    }
  }

  /**
   * What an accepted manifest guarantees: it has signatures, every header
   * meets the policy, the content digest (when given) is the hash of the
   * rebuilt payload, every signature verifies over that payload, and the
   * result is the hex part of every layer digest, in order, each of method
   * sha256.
   */
  lemma AcceptedManifest(content: seq<Byte>, manifest: Manifest, contentDigest: Option<string>,
                         crypto: Crypto)
    requires Verify(content, manifest, contentDigest, crypto).Ok?
    ensures |manifest.signatures| > 0
    ensures forall i :: 0 <= i < |manifest.signatures| ==> HeaderAllowed(manifest.signatures[i].header)
    ensures CheckEntries(manifest.signatures, crypto).Ok?
    ensures var entries := CheckEntries(manifest.signatures, crypto).value;
      && |entries| == |manifest.signatures|
      && forall i :: 0 <= i < |entries| ==> EntryOf(manifest.signatures[i], entries[i], crypto)
    ensures var entries := CheckEntries(manifest.signatures, crypto).value;
      var payload := SignedPayload(content, entries);
      var cut := DecodeProtected(manifest.signatures[0].protected, crypto).value;
      && payload == Reconstruct(content, cut.formatLength, cut.formatTail)
      && (contentDigest.Some? && contentDigest.value != "" ==>
            Split(contentDigest.value, ':') == [Sha256, crypto.sha256Hex(payload)])
      && forall i :: 0 <= i < |entries| ==> SignatureVerifies(entries[i], EncodeStripped(payload), crypto)
    ensures var dgsts := Verify(content, manifest, contentDigest, crypto).value;
      && |dgsts| == |manifest.fsLayers|
      && forall i :: 0 <= i < |dgsts| ==> Split(manifest.fsLayers[i].blobSum, ':') == [Sha256, dgsts[i]]
  {
    var entries := CheckEntries(manifest.signatures, crypto).value;
    forall i | 0 <= i < |manifest.signatures|
      ensures HeaderAllowed(manifest.signatures[i].header)
      ensures EntryOf(manifest.signatures[i], entries[i], crypto)
    {
      EntryOfAccepted(manifest.signatures[i], entries[i], crypto);
    }
  }

  /** An accepted signature meets the policy and its entry is built from it. */
  lemma EntryOfAccepted(sig: WireSignature, entry: Entry, crypto: Crypto)
    requires CheckEntry(sig, crypto) == Ok(entry)
    ensures HeaderAllowed(sig.header) && EntryOf(sig, entry, crypto)
  {
  }

  /**
   * `entry` is the record the first loop builds from `sig`: its algorithm,
   * signature and protected text, the key read from its `jwk`, and the cut
   * decoded from its protected header.
   */
  predicate EntryOf(sig: WireSignature, entry: Entry, crypto: Crypto)
  {
    && entry.alg == sig.header.alg
    && entry.signature == sig.signature
    && entry.protected64 == sig.protected
    && sig.header.jwk.Some?
    && JwkToKey(sig.header.jwk.value, crypto.onCurve) == Ok(entry.key)
    && DecodeProtected(sig.protected, crypto) == Ok(Cut(entry.formatLength, entry.formatTail))
  }

  /**
   * The converse of AcceptedManifest: when the first loop accepts at least
   * one signature, the content digest matches the rebuilt payload and every
   * signature verifies over it, the result is that of the layer loop.
   */
  lemma StagesAccepted(content: seq<Byte>, manifest: Manifest, contentDigest: Option<string>,
                       crypto: Crypto, entries: seq<Entry>)
    requires CheckEntries(manifest.signatures, crypto) == Ok(entries) && |entries| > 0
    requires CheckContentDigest(contentDigest, SignedPayload(content, entries), crypto).None?
    requires CheckSignatures(entries, EncodeStripped(SignedPayload(content, entries)), crypto).Ok?
    ensures Verify(content, manifest, contentDigest, crypto) == LayerDigests(manifest.fsLayers)
  {
  }

  /** The first loop of `_verify_manifest`, lines 57-79. */
  method CollectEntries(sigs: seq<WireSignature>, crypto: Crypto) returns (r: Result<seq<Entry>, Error>)
    ensures r == CheckEntries(sigs, crypto)
  {
    var signatures: seq<Entry> := [];
    var i := 0;
    while i < |sigs|
      invariant 0 <= i <= |sigs|
      invariant CheckEntries(sigs[..i], crypto) == Ok(signatures)
    {
      assert sigs[..i + 1][..i] == sigs[..i];
      var checked := CheckEntry(sigs[i], crypto);
      if checked.Err? {
        ErrorPersists(sigs, i + 1, EntryCheck(crypto));
        return Err(checked.error);
      }
      signatures := signatures + [checked.value];
      i := i + 1;
    }
    assert sigs[..i] == sigs;
    r := Ok(signatures);
  }

  /** The second loop, lines 95-106. */
  method VerifySignatures(signatures: seq<Entry>, payload64: string, crypto: Crypto) returns (err: Option<Error>)
    ensures err.None? <==> CheckSignatures(signatures, payload64, crypto).Ok?
    ensures err.Some? ==> CheckSignatures(signatures, payload64, crypto) == Err(err.value)
  {
    var i := 0;
    while i < |signatures|
      invariant 0 <= i <= |signatures|
      invariant CheckSignatures(signatures[..i], payload64, crypto).Ok?
    {
      assert signatures[..i + 1][..i] == signatures[..i];
      var verified := CheckSignature(signatures[i], payload64, crypto);
      if verified.Err? {
        ErrorPersists(signatures, i + 1, SignatureCheck(payload64, crypto));
        return Some(verified.error);
      }
      i := i + 1;
    }
    assert signatures[..i] == signatures;
    err := None;
  }

  /** The third loop, lines 108-114. */
  method CollectLayerDigests(layers: seq<Layer>) returns (r: Result<seq<string>, Error>)
    ensures r == LayerDigests(layers)
  {
    var dgsts: seq<string> := [];
    var i := 0;
    while i < |layers|
      invariant 0 <= i <= |layers|
      invariant LayerDigests(layers[..i]) == Ok(dgsts)
    {
      assert layers[..i + 1][..i] == layers[..i];
      var parts := Split(layers[i].blobSum, ':');
      if |parts| != 2 {
        ErrorPersists(layers, i + 1, LayerDigest);
        return Err(InvalidDigestString);
      }
      if parts[0] != Sha256 {
        ErrorPersists(layers, i + 1, LayerDigest);
        return Err(UnexpectedDigestMethod(parts[0], Sha256));
      }
      dgsts := dgsts + [parts[1]];
      i := i + 1;
    }
    assert layers[..i] == layers;
    r := Ok(dgsts);
  }

  /**
   * `_verify_manifest` as the source runs it: the three loops in order,
   * the payload rebuilt from the first signature's cut, and every raise an
   * early return of its error.
   */
  method VerifyManifest(content: seq<Byte>, manifest: Manifest, contentDigest: Option<string>, crypto: Crypto)
    returns (r: Result<seq<string>, Error>)
    ensures r == Verify(content, manifest, contentDigest, crypto)
  {
    var collected := CollectEntries(manifest.signatures, crypto);
    if collected.Err? {
      return Err(collected.error);
    }
    var signatures := collected.value;
    if |signatures| == 0 {
      return Err(NoSignatures);
    }
    var payload := Reconstruct(content, signatures[0].formatLength, signatures[0].formatTail);
    var payload64 := EncodeStripped(payload);
    var digestError := CheckContentDigest(contentDigest, payload, crypto);
    if digestError.Some? {
      return Err(digestError.value);
    }
    var sigError := VerifySignatures(signatures, payload64, crypto);
    if sigError.Some? {
      return Err(sigError.value);
    }
    r := CollectLayerDigests(manifest.fsLayers);
  }

  /** An error among the first `k` elements is the outcome of the whole loop. */
  lemma {:induction false} ErrorPersists<A, B>(xs: seq<A>, k: nat, check: A -> Result<B, Error>)
    requires k <= |xs|
    requires CheckAll(xs[..k], check).Err?
    ensures CheckAll(xs, check) == CheckAll(xs[..k], check)
    decreases |xs| - k
  {
    if k < |xs| {
      assert xs[..k + 1][..k] == xs[..k];
      ErrorPersists(xs, k + 1, check);
    } else {
      assert xs[..k] == xs;
    }
  }
}

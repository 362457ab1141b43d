/**
 * The signing half of `DXF.set_alias`: serialise the manifest, cut it at
 * its last `}`, sign `protected64 + "." + manifest64` with a fresh P-256
 * key, and splice the signatures array in front of the cut-off tail. JSON
 * serialisation, key generation and ECDSA signing are collaborators given
 * as a `Signing` value.
 */
module Signer {
  import opened Wrappers
  import opened Text
  import opened Base64Url
  import opened Payload
  import opened Keys
  import opened Verifier

  /**
   * The collaborators: `json.dumps` of the protected header and of the
   * signatures list, the ES256 signer with the generated key, and that
   * key's public point `(x, y)`.
   */
  datatype Signing = Signing(
    dumpsProtected: ProtectedHeader -> seq<Byte>,
    dumpsSignatures: seq<WireSignature> -> seq<Byte>,
    sign: string -> seq<Byte>,
    x: nat,
    y: nat)

  const Es256: string := "ES256"

  /** What `set_alias` produces: the uploaded text, its one signature, and the message that was signed. */
  datatype Signed = Signed(text: seq<Byte>, signature: WireSignature, signingInput: string)

  /** The `fsLayers` of the manifest built for a list of digests: `sha256:<digest>` each, in order. */
  function LayersFor(digests: seq<string>): (layers: seq<Layer>)
    ensures |layers| == |digests|
    ensures forall i :: 0 <= i < |digests| ==> layers[i].blobSum == Sha256 + ":" + digests[i]
  {
    seq(|digests|, i requires 0 <= i < |digests| => Layer(Sha256 + ":" + digests[i]))
  }

  /**
   * Lines 200-234 after `json.dumps(manifest)`: the text sent to the
   * registry, with the one signature it carries and the signing input.
   */
  function SetAlias(manifestJson: seq<Byte>, signing: Signing): (out: Signed)
    ensures out.signingInput == SigningInput(out.signature.protected, EncodeStripped(manifestJson))
    ensures '.' !in out.signature.protected
    ensures out.text == Splice(manifestJson, ComputeCut(manifestJson), signing.dumpsSignatures([out.signature]))
    ensures CloseBrace in manifestJson ==>
      var cut := ComputeCut(manifestJson);
      Reconstruct(out.text, cut.formatLength, cut.formatTail) == manifestJson
  {
    var manifest64 := EncodeStripped(manifestJson);
    var cut := ComputeCut(manifestJson);
    var protectedJson := signing.dumpsProtected(ProtectedFor(cut));
    var protected64 := EncodeStripped(protectedJson);
    UnpaddedRoundTrip(protectedJson);
    var input := SigningInput(protected64, manifest64);
    var header := SignatureHeader(Es256, Some(PublicJwk(signing.x, signing.y)), []);
    var signature := WireSignature(header, EncodeStripped(signing.sign(input)), protected64);
    if CloseBrace in manifestJson then
      SpliceThenReconstruct(manifestJson, signing.dumpsSignatures([signature]));
      Signed(Splice(manifestJson, cut, signing.dumpsSignatures([signature])), signature, input)
    else
      Signed(Splice(manifestJson, cut, signing.dumpsSignatures([signature])), signature, input)
  }

  /**
   * The verifier reads back from the published signature exactly the cut
   * the signer made, provided parsing the serialised protected header gives
   * that header back.
   */
  lemma ProtectedRoundTrip(manifestJson: seq<Byte>, signing: Signing, crypto: Crypto)
    requires var ph := ProtectedFor(ComputeCut(manifestJson));
      crypto.parseProtected(signing.dumpsProtected(ph)) == Some(ph)
    ensures DecodeProtected(SetAlias(manifestJson, signing).signature.protected, crypto)
            == Ok(ComputeCut(manifestJson))
  {
    var cut := ComputeCut(manifestJson);
    UnpaddedRoundTrip(signing.dumpsProtected(ProtectedFor(cut)));
    UnpaddedRoundTrip(cut.formatTail);
  }

  /** The verifier's record of the signer's signature: its algorithm, texts, key and cut. */
  function SignerEntry(manifestJson: seq<Byte>, signing: Signing): Entry
  {
    var out := SetAlias(manifestJson, signing);
    var cut := ComputeCut(manifestJson);
    Entry(Es256, out.signature.signature, out.signature.protected, PublicKey(signing.x, signing.y),
          cut.formatLength, cut.formatTail)
  }

  /** The signer's signature meets the policy and yields the signer's key and cut. */
  lemma EntryAccepted(manifestJson: seq<Byte>, signing: Signing, crypto: Crypto)
    requires var ph := ProtectedFor(ComputeCut(manifestJson));
      crypto.parseProtected(signing.dumpsProtected(ph)) == Some(ph)
    requires crypto.onCurve(signing.x, signing.y)
    ensures CheckEntry(SetAlias(manifestJson, signing).signature, crypto) == Ok(SignerEntry(manifestJson, signing))
  {
    var sig := SetAlias(manifestJson, signing).signature;
    assert sig.header == SignatureHeader(Es256, Some(PublicJwk(signing.x, signing.y)), []);
    ProtectedRoundTrip(manifestJson, signing, crypto);
    JwkRoundTrip(signing.x, signing.y, crypto.onCurve);
    assert |Lower(Es256)| == 5;
  }

  /**
   * The first loop accepts the signer's one signature, and the payload
   * rebuilt from its cut is the signed manifest.
   */
  lemma SignatureAccepted(manifestJson: seq<Byte>, signing: Signing, crypto: Crypto)
    requires CloseBrace in manifestJson
    requires var ph := ProtectedFor(ComputeCut(manifestJson));
      crypto.parseProtected(signing.dumpsProtected(ph)) == Some(ph)
    requires crypto.onCurve(signing.x, signing.y)
    ensures var sig := SetAlias(manifestJson, signing).signature;
      CheckEntries([sig], crypto) == Ok([SignerEntry(manifestJson, signing)])
    ensures SignedPayload(SetAlias(manifestJson, signing).text, [SignerEntry(manifestJson, signing)])
            == manifestJson
  {
    EntryAccepted(manifestJson, signing, crypto);
    SingleEntry(SetAlias(manifestJson, signing).signature, crypto);
  }

  /** The second loop accepts the signer's signature over the signed manifest. */
  lemma SignatureChecks(manifestJson: seq<Byte>, signing: Signing, crypto: Crypto)
    requires crypto.hasVerifier(Es256)
    requires var input := SetAlias(manifestJson, signing).signingInput;
      crypto.verifies(Es256, input, signing.sign(input), PublicKey(signing.x, signing.y))
    ensures CheckSignatures([SignerEntry(manifestJson, signing)], EncodeStripped(manifestJson), crypto).Ok?
  {
    var out := SetAlias(manifestJson, signing);
    var entry := SignerEntry(manifestJson, signing);
    assert out.signature.signature == EncodeStripped(signing.sign(out.signingInput));
    UnpaddedRoundTrip(signing.sign(out.signingInput));
    assert SignatureVerifies(entry, EncodeStripped(manifestJson), crypto);
    SingleSignature(entry, EncodeStripped(manifestJson), crypto);
  }

  /**
   * Sign then verify: the text `set_alias` uploads, read back as a manifest
   * whose layers are the given digests and whose one signature is the
   * signer's, is accepted by `_verify_manifest` with no content digest or
   * with the sha256 digest of the signed text, and the result is the
   * digests in order. The assumptions are about the collaborators: parsing
   * undoes serialising the protected header, the public point is on the
   * curve, and the ES256 verifier accepts what the signer produced.
   */
  lemma SignThenVerify(manifestJson: seq<Byte>, signing: Signing, crypto: Crypto, name: string, tag: string,
                       digests: seq<string>, contentDigest: Option<string>)
    requires CloseBrace in manifestJson
    requires forall i :: 0 <= i < |digests| ==> ':' !in digests[i]
    requires var ph := ProtectedFor(ComputeCut(manifestJson));
      crypto.parseProtected(signing.dumpsProtected(ph)) == Some(ph)
    requires crypto.onCurve(signing.x, signing.y)
    requires crypto.hasVerifier(Es256)
    requires var input := SetAlias(manifestJson, signing).signingInput;
      crypto.verifies(Es256, input, signing.sign(input), PublicKey(signing.x, signing.y))
    requires ':' !in crypto.sha256Hex(manifestJson)
    requires contentDigest == None || contentDigest == Some(Sha256 + ":" + crypto.sha256Hex(manifestJson))
    ensures var out := SetAlias(manifestJson, signing);
      Verify(out.text, Manifest(name, tag, LayersFor(digests), [out.signature]), contentDigest, crypto)
      == Ok(digests)
  {
    var out := SetAlias(manifestJson, signing);
    var entries := [SignerEntry(manifestJson, signing)];
    SignatureAccepted(manifestJson, signing, crypto);
    DigestAccepted(manifestJson, crypto, contentDigest);
    SignatureChecks(manifestJson, signing, crypto);
    StagesAccepted(out.text, Manifest(name, tag, LayersFor(digests), [out.signature]), contentDigest, crypto, entries);
    LayerDigestsFor(digests);
  }

  /** The content digest the registry reports for the signed text passes the check, as does none. */
  lemma DigestAccepted(manifestJson: seq<Byte>, crypto: Crypto, contentDigest: Option<string>)
    requires ':' !in crypto.sha256Hex(manifestJson)
    requires contentDigest == None || contentDigest == Some(Sha256 + ":" + crypto.sha256Hex(manifestJson))
    ensures CheckContentDigest(contentDigest, manifestJson, crypto).None?
  {
    SplitPair(Sha256, ':', crypto.sha256Hex(manifestJson));
  }

  /** The layers built for a list of digests yield those digests back. */
  lemma LayerDigestsFor(digests: seq<string>)
    requires forall i :: 0 <= i < |digests| ==> ':' !in digests[i]
    ensures LayerDigests(LayersFor(digests)) == Ok(digests)
  {
    var layers := LayersFor(digests);
    forall i | 0 <= i < |digests|
      ensures LayerDigest(layers[i]) == Ok(digests[i])
    {
      SplitPair(Sha256, ':', digests[i]);
    }
    var r := LayerDigests(layers);
    assert r.Ok?;
    assert r.value == digests;
  }
}

# Signed manifests of the dxf registry client, in Dafny

`dxf` is a small Python 2 client for the Docker registry v2 API. Its
integrity layer, in `dxf/__init__.py`, is modelled here:

- the big-integer codec of the EC public key (`_num_to_base64`,
  `_base64_to_num`) over unpadded base64url (`_pad64`, `urlsafe_b64encode`
  followed by `rstrip('=')`), modelled concretely: the alphabet, the
  three-byte groups, the padding;
- the format-length / format-tail protocol: `set_alias` cuts the serialised
  manifest at its last `}`, signs `protected64 + "." + manifest64` and
  splices `, "signatures": [...]` in front of the tail; `_verify_manifest`
  rebuilds the signed bytes as `content[:formatLength] + formatTail`;
- `_verify_manifest`, with its three loops (signature entries and their
  policy, signatures, layer digests), the content-digest check and
  `_jwk_to_key`'s key-type and curve guards;
- `_parse_www_auth`, the parser of the `WWW-Authenticate` challenge;
- `pull_blob` as a generator: chunks pass through unchanged and the digest
  is compared only after the last one.

Python 2 strings are byte strings, so manifest text, payloads and decoded
base64 are `seq<Byte>`; base64 text, algorithms and digests are `string`.
Python slicing is modelled with its negative and out-of-range bounds,
because `formatLength` comes from the wire. Every exception these paths
raise on well-formed fields of the modelled types is an `Err` (or `None`)
of the model:
`InvalidBase64` for a decoder `TypeError`, `InvalidDigestString` for the
`ValueError` of an unpacking `split(':')`, `NoSignatures` for the
`IndexError` of `signatures[0]`, `MissingJwk` for the `KeyError` of a
header without `jwk`.

JSON, SHA-256 and ECDSA are collaborators: the wire manifest arrives as a
parsed `Manifest` record; `json.loads` of a protected header, the hex
SHA-256, the on-curve check, the JWS algorithm table and the ES256
verifier are fields of a `Crypto` value; `json.dumps`, the ES256 signer and
the generated key's point are fields of a `Signing` value; the blob's hash
is a function parameter.

Modules: `Wrappers` (Option, Result), `Errors` (the `DXF*Error` classes),
`Text` (split, join, strip, lower), `Base64Url`, `BigNum`, `Keys`,
`Payload` (cut, splice, rebuild), `Verifier`, `Signer`, `WwwAuth`,
`BlobStream`.

Where the code is looser than the protocol's stated invariants, the model
follows the code: `formatLength` may be any integer (Python slicing
clamps it) rather than a valid non-negative boundary; an empty
`signatures` array is an error rather than excluded; any non-empty
`chain` is refused; a digest string that does not split into exactly two
parts at `:` is an error of its own.

## Model

| member | source | states |
|---|---|---|
| Text.Split | dxf/__init__.py:13 | `str.split(sep)`: at least one part, no part holds the separator, joining the parts with it gives the text back |
| Text.SplitJoin | dxf/__init__.py:13 | splitting undoes joining separator-free parts |
| Text.SplitSeveral | dxf/__init__.py:13 | there is more than one part exactly when the separator occurs (so `[1]` raises exactly when it is absent) |
| Text.StripRight | dxf/__init__.py:23 | `rstrip(c)`: a prefix of the text, everything removed is `c`, and it does not end in `c` |
| Text.Strip | dxf/__init__.py:14 | `strip(c)`: a contiguous piece of the text, all around it `c`, neither end `c` |
| Text.StripRightPadding | dxf/__init__.py:23 | `rstrip(c)` removes exactly the `c` appended to a text not ending in `c` |
| Text.StripQuoted | dxf/__init__.py:14 | `strip('"')` of a quoted value gives the value |
| Text.Lower | dxf/__init__.py:67 | `lower()` maps each character to its ASCII lower case, keeping the length |
| Text.IsNoneIgnoringCase | dxf/__init__.py:67 | `alg.lower() == 'none'` holds exactly for the 16 spellings of `none` in any case |
| Base64Url.CharOf | dxf/__init__.py:23 | each sextet has one character of the URL-safe alphabet, never `=` or `.` |
| Base64Url.AlphabetBijection | dxf/__init__.py:23 | with CharOf, the alphabet is a bijection: a character with a sextet is that sextet's character |
| Base64Url.GroupRoundTrip | dxf/__init__.py:27 | decoding a group of one to three bytes undoes encoding it |
| Base64Url.EncodeUnpadded | dxf/__init__.py:23 | the unpadded encoding of `n` bytes has `(4n+2)/3` characters, none `=` or `.` |
| Base64Url.Encode | dxf/__init__.py:23 | `urlsafe_b64encode` output length is four per started group of three bytes |
| Base64Url.Pad64 | dxf/__init__.py:43-44 | `_pad64(s)` is `s` followed by zero to three `=`, of a length divisible by four |
| Base64Url.Decode | dxf/__init__.py:27 | strict `urlsafe_b64decode`: a text that decodes is whole groups of four, `=` only in the last two places, every other character in the alphabet |
| Base64Url.DecodeEncode | dxf/__init__.py:27 | decoding the padded encoding gives the bytes back |
| Base64Url.StripPadding | dxf/__init__.py:23 | `rstrip('=')` of the encoding is exactly the unpadded encoding |
| Base64Url.PadRestores | dxf/__init__.py:43-44 | `_pad64` restores exactly the padding `rstrip('=')` removed |
| Base64Url.UnpaddedRoundTrip | dxf/__init__.py:25-27 | `urlsafe_b64decode(_pad64(...))` of every unpadded field the code writes gives the bytes back; the field has no `.` |
| BigNum.ValueBound | dxf/__init__.py:28-30 | the `sum` of line 30 (BigNum.Value, the big-endian value) of `k` bytes is below 256^k |
| BigNum.ValueAppend | dxf/__init__.py:18-20 | appending a low byte multiplies the value by 256 and adds the byte |
| BigNum.ValueLeadingZeros | dxf/__init__.py:28-30 | leading zero bytes never change the value |
| BigNum.MinimalBytes | dxf/__init__.py:16-23 | non-empty, of value `n`, and no leading zero byte unless it is zero's single byte |
| BigNum.ZeroIsOneByte | dxf/__init__.py:21-22 | zero is written as exactly one zero byte |
| BigNum.MinimalBytesUnique | dxf/__init__.py:16-23 | the only minimal big-endian string of a value is MinimalBytes of it |
| BigNum.Base64ToNum | dxf/__init__.py:25-30 | `_base64_to_num` succeeds exactly when the text decodes, giving the big-endian value of the decoded bytes, which fits their length |
| BigNum.NumRoundTrip | dxf/__init__.py:16-30 | `_base64_to_num(_num_to_base64(n)) == n` |
| BigNum.LeadingZerosAccepted | dxf/__init__.py:25-30 | encodings with extra leading zero bytes read back the same number |
| BigNum.NumToBase64 | dxf/__init__.py:16-23 | the loop of `_num_to_base64` produces the unpadded encoding of the minimal bytes, which reads back as `n` |
| Keys.JwkToKey | dxf/__init__.py:32-41 | `kty != 'EC'` raises UnexpectedKeyType(kty, 'EC'), then `crv != 'P-256'` raises UnexpectedKeyType(crv, 'P-256'), then an undecodable coordinate raises InvalidBase64; it succeeds exactly for an EC P-256 JWK whose coordinates, read by `_base64_to_num`, are a point on the curve, and the key is that point; otherwise InvalidPoint |
| Keys.JwkRoundTrip | dxf/__init__.py:221-226 | the JWK the signer publishes for a point reads back as that point |
| Payload.SliceBound | dxf/__init__.py:81 | a Python slice bound: unchanged in range, counted from the end when negative, clamped to the length above it and to 0 below minus the length |
| Payload.RFind | dxf/__init__.py:202 | `rfind('}')`: the index of the last `}`, or -1 exactly when there is none |
| Payload.ComputeCut | dxf/__init__.py:202-203 | `manifest_json[:format_length] + format_tail == manifest_json`; with a `}`, the tail starts at the last `}` and holds no other |
| Payload.Splice | dxf/__init__.py:232-234 | the uploaded text is the manifest's first `formatLength` bytes, then `, "signatures": `, the signatures text, and the tail, at those lengths |
| Payload.Reconstruct | dxf/__init__.py:81-82 | the rebuilt payload is the content's first `formatLength` bytes (as Python slices) followed by the tail |
| Payload.SpliceThenReconstruct | dxf/__init__.py:232-234 | rebuilding `content[:formatLength] + formatTail` from the spliced text gives the original manifest text, whatever signatures text was inserted |
| Payload.ReconstructSeesOnlyPrefix | dxf/__init__.py:81-82 | the rebuilt payload depends on the content exactly through its first `formatLength` bytes |
| Verifier.SigningInputInjective | dxf/__init__.py:104 | `"%s.%s" % (protected64, payload64)` determines both halves, since the protected header has no `.` |
| Verifier.DecodeProtected | dxf/__init__.py:58-64 | succeeds exactly when `protected` decodes, parses and its `formatTail` decodes, giving its `formatLength` and decoded tail; an undecodable `protected` raises InvalidBase64, an unparsable one InvalidProtectedHeader |
| Verifier.CheckEntry | dxf/__init__.py:58-79 | in the source's order: the protected header's error, then `alg` equal to `none` in any case raises DisallowedSignatureAlgorithm('none'), a non-empty chain ChainNotImplemented, a missing `jwk` MissingJwk, then `_jwk_to_key`'s error; a signature is accepted exactly when its protected header decodes, its header meets the policy and its key builds, and the entry holds its `alg`, `signature`, `protected`, that key and that cut |
| Verifier.CheckAll | dxf/__init__.py:57-79 | a loop with early raise: succeeds exactly when every element passes, one result per element in order, otherwise the error of the first failing element |
| Verifier.FirstFailureIs | dxf/__init__.py:108-112 | when element `i` is the first to fail, the loop raises that element's error |
| Verifier.EntryOfAccepted | dxf/__init__.py:58-79 | an accepted signature meets the policy, and its entry carries its alg, signature, protected text, the key built from its `jwk` and the cut decoded from its protected header |
| Verifier.SingleEntry | dxf/__init__.py:57-79 | with one signature the first loop's outcome is that signature's |
| Verifier.CheckContentDigest | dxf/__init__.py:85-93 | passes exactly when there is no digest, the digest is empty, or it splits at `:` into `sha256` and the payload's hex hash |
| Verifier.CheckSignature | dxf/__init__.py:96-106 | passes exactly when the algorithm is known, the signature decodes and verifies over `protected64.payload64` under the entry's key; an unknown algorithm raises UnsupportedAlgorithm(alg), then an undecodable signature InvalidBase64, then a failed verification SignatureMismatch |
| Verifier.SingleSignature | dxf/__init__.py:95-106 | with one entry the second loop passes exactly when its signature verifies |
| Verifier.LayerDigest | dxf/__init__.py:109-112 | a layer passes exactly when its blobSum is `sha256:<hex>`, yielding the hex; a blobSum that does not split into two parts raises InvalidDigestString, another method UnexpectedDigestMethod(method, 'sha256') |
| Verifier.PolicyViolationRejected | dxf/__init__.py:57-79 | a policy-breaking header anywhere makes verification fail in the first loop, before any digest or signature check |
| Verifier.NoSignaturesRejected | dxf/__init__.py:81 | a manifest without signatures is refused |
| Verifier.DigestMethodRejected | dxf/__init__.py:85-88 | a content digest of another method raises UnexpectedDigestMethod before the signature loop |
| Verifier.DigestMismatchRejected | dxf/__init__.py:89-93 | a sha256 content digest that differs from the payload hash raises DigestMismatch carrying both values, before the signature loop |
| Verifier.LayerMethodRejected | dxf/__init__.py:108-114 | a layer digest not of the form `sha256:<hex>` makes verification fail, and the layer loop raises the error of the first such layer |
| Verifier.AcceptedManifest | dxf/__init__.py:53-114 | when `_verify_manifest` (Verifier.Verify) accepts: there are signatures, every header meets the policy, entry `i` is built from signature `i` (its alg, signature, protected text, key and cut), the payload is rebuilt from the first signature's cut, the content digest matches it, every signature verifies over it, and the result is the layers' hex digests in order |
| Verifier.FirstBadLayer | dxf/__init__.py:108-114 | the layer loop fails at a bad layer, raising the error of the first one |
| Verifier.StagesAccepted | dxf/__init__.py:53-114 | conversely, when the first loop accepts at least one signature, the content digest matches and every signature verifies, the result is the layer loop's |
| Verifier.CollectEntries | dxf/__init__.py:56-79 | the first loop computes CheckEntries |
| Verifier.VerifySignatures | dxf/__init__.py:95-106 | the second loop returns no error exactly when every signature verifies, and otherwise the first failure's error |
| Verifier.CollectLayerDigests | dxf/__init__.py:108-114 | the third loop computes LayerDigests |
| Verifier.VerifyManifest | dxf/__init__.py:53-114 | `_verify_manifest` as written computes Verify, whose properties are the lemmas above |
| Verifier.ErrorPersists | dxf/__init__.py:57-79 | once an element has raised, the loop's outcome is that error |
| Signer.LayersFor | dxf/__init__.py:198 | one `sha256:<digest>` layer per digest, in order |
| Signer.SetAlias | dxf/__init__.py:200-234 | the uploaded text is the manifest spliced at its last `}` with the serialised one-signature array, the signing input is `protected64.manifest64`, the protected header has no `.`, and the verifier's rebuild of the uploaded text is the signed manifest text |
| Signer.ProtectedRoundTrip | dxf/__init__.py:202-208 | the verifier decodes from the published `protected` exactly the signer's cut |
| Signer.EntryAccepted | dxf/__init__.py:219-231 | the published signature meets the policy and yields the signer's key and cut |
| Signer.SignatureAccepted | dxf/__init__.py:200-234 | the first loop accepts the signer's signature and the rebuilt payload is the signed manifest |
| Signer.SignatureChecks | dxf/__init__.py:218 | the second loop accepts the signer's signature over the rebuilt payload |
| Signer.DigestAccepted | dxf/__init__.py:85-93 | no content digest, or the sha256 digest of the signed text, passes the content-digest check |
| Signer.LayerDigestsFor | dxf/__init__.py:198 | the layers built for digests yield those digests back |
| Signer.SignThenVerify | dxf/__init__.py:200-234 | what `set_alias` uploads is accepted by `_verify_manifest`, with no content digest or with the sha256 digest of the signed text, and returns the digests in order |
| WwwAuth.ParseParam | dxf/__init__.py:13-14 | an item parses exactly when it has `=`; the key is the text before the first `=`; the value is the text between the first and second `=` with `"` stripped, so it holds no `=` and does not start or end with `"` |
| WwwAuth.ValueEndsAtSecondEquals | dxf/__init__.py:13-14 | whatever follows a second `=` in an item is dropped from its value |
| WwwAuth.ParseParams | dxf/__init__.py:13 | every item parsed in order, or none when one lacks `=` |
| WwwAuth.DictOfKeys | dxf/__init__.py:14 | the keys of `dict(pairs)` (WwwAuth.DictOf) are exactly the keys of the pairs |
| WwwAuth.DictOfLast | dxf/__init__.py:14 | a key of `dict(pairs)` has the value of the last pair with that key |
| WwwAuth.ParseWwwAuth | dxf/__init__.py:12-14 | succeeds exactly when there is a space and every comma item of the second word has `=`, giving the dictionary of the items |
| WwwAuth.SecondWordOnly | dxf/__init__.py:13 | only the second space-separated word is read |
| WwwAuth.QuotedParses | dxf/__init__.py:13-14 | `key="value"` parses back to the pair |
| WwwAuth.MapAllIs | dxf/__init__.py:13-14 | a list comprehension yields `ys` when every item maps to its counterpart in `ys` |
| WwwAuth.ChallengeRoundTrip | dxf/__init__.py:12-14 | a challenge built from a scheme and plain parameters parses to the dictionary of those parameters |
| BlobStream.Verdict | dxf/__init__.py:185-187 | the check raises exactly when the hash differs from the digest, with DigestMismatch(actual, expected) |
| BlobStream.BlobPull.constructor | dxf/__init__.py:177-181 | a fresh hasher, nothing yielded |
| BlobStream.BlobPull.Next | dxf/__init__.py:182-187 | while chunks remain, the next chunk is fed to the hasher and yielded unchanged; after the last one the verdict on the whole body is raised or the generator stops |
| BlobStream.PullBlob | dxf/__init__.py:177-187 | a consumer that drains the generator receives every chunk in order and an error exactly when the body's hash differs from the digest |
| BlobStream.PullSome | dxf/__init__.py:182-184 | a consumer that stops after `n` chunks receives exactly those, and the generator it leaves is unfinished at position `n` with only those chunks hashed: the comparison of lines 185-187 has not run |

## Left out

- Base64Url.Decode: strict. Python 2's `urlsafe_b64decode` (through `binascii.a2b_base64`) is lax in ways the model refuses. It discards characters outside the alphabet and also reads `+` and `/`. It stops at the first complete padding, so `QQ==QUJD` decodes to `A`. It skips a `=` in the first two places of a group, so `====` decodes to the empty string. Since `protected`, `formatTail`, `signature`, `x` and `y` arrive from the wire, such texts are accepted by the code and refused by the model.
- Text.Lower: ASCII only. Python 2 `unicode.lower` also folds non-ASCII letters, which cannot spell `none`.
- JSON: `json.loads` of the manifest and `json.dumps` of the manifest, protected header and signatures are collaborators. Missing manifest fields (KeyError), non-string values and a `formatLength` that is not an integer are not modelled. `chain` is a list of strings, so "truthy" means non-empty.
- Cryptography: SHA-256, ECDSA key generation, signing and verification, and the `jws.header.process` dispatch are opaque functions. Any failure of the ES256 verifier is the one error SignatureMismatch. Signer.SignThenVerify assumes that the verifier accepts what the signer produced and that parsing undoes serialising the protected header.
- Signer.SetAlias starts from the serialised manifest text. The manifest dictionary of lines 195-199 appears only as Signer.LayersFor, and the round trip takes as given that `json.loads` of the uploaded text gives back that manifest with the one signature.
- HTTP and auth plumbing: `DXF.__init__`, the token property, `auth_by_password` beyond `_parse_www_auth`, `push_blob`, `del_blob`, `get_alias`, `del_alias`, and the upload in `set_alias`.
- `sha256_file`: it is file I/O.
- BigNum.NumToBase64: takes a `nat`. For a negative `n` the source's `while n:` never ends, because `-1 >> 8 == -1`. The callers pass only the point's coordinates, which are non-negative, so the loop's termination is proved for the model's inputs only.
- BlobStream: the 8192-byte chunk size of `iter_content` is not modelled. The body arrives as any sequence of chunks, and the incremental hasher is modelled by the bytes fed to it.


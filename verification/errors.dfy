/**
 * The exceptions the manifest code can raise. The first five are the
 * library's own error classes; the others stand for the Python built-in
 * exceptions (KeyError, IndexError, ValueError, TypeError, AssertionError)
 * and the JWS library's errors that the same code can raise.
 */
module Errors {

  datatype Error =
    /** DXFUnexpectedKeyTypeError(got, expected): a JWK whose kty or crv is not supported. */
    | UnexpectedKeyType(got: string, expected: string)
    /** DXFDisallowedSignatureAlgorithmError: the header declares the algorithm `none`. */
    | DisallowedSignatureAlgorithm(alg: string)
    /** DXFChainNotImplementedError: the header declares a certificate chain. */
    | ChainNotImplemented
    /** DXFUnexpectedDigestMethodError(got, expected): a digest that is not sha256. */
    | UnexpectedDigestMethod(got: string, expected: string)
    /** DXFDigestMismatchError(computed, expected). */
    | DigestMismatch(got: string, expected: string)
    /** urlsafe_b64decode refused its input. */
    | InvalidBase64
    /** The protected header is not JSON with formatLength and formatTail. */
    | InvalidProtectedHeader
    /** KeyError: the signature header carries no `jwk`. */
    | MissingJwk
    /** ValueError: a digest string does not split into exactly `method:hex`. */
    | InvalidDigestString
    /** The curve-point construction refused the coordinates. */
    | InvalidPoint
    /** The JWS library has no verifier for the declared algorithm. */
    | UnsupportedAlgorithm(alg: string)
    /** The JWS verifier rejected a signature. */
    | SignatureMismatch
    /** IndexError: the manifest has no signatures, so there is no first one. */
    | NoSignatures
}

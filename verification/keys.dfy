/**
 * The EC key codec: the public JWK the signer embeds (curve P-256, the
 * coordinates written by `_num_to_base64`) and `_jwk_to_key`, which refuses
 * any other key type or curve before it reads the coordinates.
 */
module Keys {
  import opened Wrappers
  import opened Errors
  import opened BigNum

  /** An EC JSON Web Key: `{kty, crv, x, y}`. */
  datatype Jwk = Jwk(kty: string, crv: string, x: string, y: string)

  /** A verifying key: a point given by its affine coordinates. */
  datatype PublicKey = PublicKey(x: nat, y: nat)

  /** The JWK the signer publishes for the point (x, y). */
  function PublicJwk(x: nat, y: nat): Jwk
  {
    Jwk("EC", "P-256", EncodeNum(x), EncodeNum(y))
  }

  /**
   * `_jwk_to_key`: the key type must be `EC`, then the curve `P-256`; the
   * coordinates are read with `_base64_to_num` and the point is built on the
   * curve, which fails (as the ecdsa library's assertion does) when
   * `onCurve` says the point is not on P-256.
   */
  function JwkToKey(jwk: Jwk, onCurve: (nat, nat) -> bool): (r: Result<PublicKey, Error>)
    ensures jwk.kty != "EC" ==> r == Err(UnexpectedKeyType(jwk.kty, "EC"))
    ensures jwk.kty == "EC" && jwk.crv != "P-256" ==> r == Err(UnexpectedKeyType(jwk.crv, "P-256"))
    ensures jwk.kty == "EC" && jwk.crv == "P-256" && (Base64ToNum(jwk.x).None? || Base64ToNum(jwk.y).None?)
            ==> r == Err(InvalidBase64)
    ensures r.Ok? <==>
      && jwk.kty == "EC" && jwk.crv == "P-256"
      && Base64ToNum(jwk.x).Some? && Base64ToNum(jwk.y).Some?
      && onCurve(Base64ToNum(jwk.x).value, Base64ToNum(jwk.y).value)
    ensures r.Ok? ==> r.value == PublicKey(Base64ToNum(jwk.x).value, Base64ToNum(jwk.y).value)
    ensures r.Err? && r.error == InvalidPoint <==>
      && jwk.kty == "EC" && jwk.crv == "P-256"
      && Base64ToNum(jwk.x).Some? && Base64ToNum(jwk.y).Some?
      && !onCurve(Base64ToNum(jwk.x).value, Base64ToNum(jwk.y).value)
  {
    if jwk.kty != "EC" then Err(UnexpectedKeyType(jwk.kty, "EC"))
    else if jwk.crv != "P-256" then Err(UnexpectedKeyType(jwk.crv, "P-256"))
    else
      match (Base64ToNum(jwk.x), Base64ToNum(jwk.y))
      case (Some(x), Some(y)) =>
        if onCurve(x, y) then Ok(PublicKey(x, y)) else Err(InvalidPoint)
      case _ => Err(InvalidBase64)
  }

  /** The key read back from a published JWK is the signer's point. */
  lemma JwkRoundTrip(x: nat, y: nat, onCurve: (nat, nat) -> bool)
    requires onCurve(x, y)
    ensures JwkToKey(PublicJwk(x, y), onCurve) == Ok(PublicKey(x, y))
  {
    NumRoundTrip(x);
    NumRoundTrip(y);
  }
}

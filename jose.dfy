/**
 * The JSON Web Token library the application calls (python-jose), modelled
 * symbolically: a signed token records its claims, the key and the algorithm
 * it was signed with, so a signature verifies exactly when the verifier uses
 * the same key and algorithm. Times are whole seconds since the epoch.
 */
module Jose {

  datatype ClaimValue = Str(s: string) | Num(n: int)

  type Claims = map<string, ClaimValue>

  datatype Jwt = Jwt(claims: Claims, key: string, algorithm: string)

  /**
   * A bearer credential as a client presents it: a token this service signed,
   * or any other text (which no signature check accepts).
   */
  datatype Credential = Opaque(text: string) | Signed(jwt: Jwt)

  /** The JWTError subclasses `jwt.decode` raises. */
  datatype JoseError = Malformed | BadSignature | BadClaims | Expired

  datatype Decoded = Claimed(claims: Claims) | Rejected(error: JoseError)

  /** `jwt.encode(claims, key, algorithm=algorithm)`. */
  function Encode(claims: Claims, key: string, algorithm: string): Credential
  {
    Signed(Jwt(claims, key, algorithm))
  }

  /** The registered claims the decoder type-checks have the types it demands. */
  predicate WellTyped(claims: Claims)
  {
    ("iat" in claims ==> claims["iat"].Num?) &&
    ("exp" in claims ==> claims["exp"].Num?) &&
    ("sub" in claims ==> claims["sub"].Str?)
  }

  /** A token is expired once its `exp` is strictly before the current time. */
  predicate Live(claims: Claims, now: int)
    requires WellTyped(claims)
  {
    "exp" in claims ==> now <= claims["exp"].n
  }

  /**
   * `jwt.decode(token, key, algorithms=[algorithm])`: the signature is checked
   * first, then `iat`, `exp` (type, then expiry) and `sub`.
   */
  function Decode(credential: Credential, key: string, algorithm: string, now: int): (r: Decoded)
    ensures r.Claimed? <==>
      credential.Signed? && credential.jwt.key == key && credential.jwt.algorithm == algorithm &&
      WellTyped(credential.jwt.claims) && Live(credential.jwt.claims, now)
    ensures r.Claimed? ==> r.claims == credential.jwt.claims
  {
    match credential
    case Opaque(_) => Rejected(Malformed)
    case Signed(token) =>
      var c := token.claims;
      if token.key != key || token.algorithm != algorithm then Rejected(BadSignature)
      else if "iat" in c && !c["iat"].Num? then Rejected(BadClaims)
      else if "exp" in c && !c["exp"].Num? then Rejected(BadClaims)
      else if "exp" in c && c["exp"].n < now then Rejected(Expired)
      else if "sub" in c && !c["sub"].Str? then Rejected(BadClaims)
      else Claimed(c)
  }

  /**
   * Decoding what was encoded with the same key and algorithm gives back the
   * claims while the token is live, and reports expiry once it is not.
   */
  lemma DecodeEncoded(claims: Claims, key: string, algorithm: string, now: int)
    requires WellTyped(claims)
    ensures Live(claims, now) ==> Decode(Encode(claims, key, algorithm), key, algorithm, now) == Claimed(claims)
    ensures !Live(claims, now) ==> Decode(Encode(claims, key, algorithm), key, algorithm, now) == Rejected(Expired)
  {
  }

  /** A token signed with another key or algorithm is refused, whatever its claims. */
  lemma ForeignSignatureRejected(claims: Claims, key: string, algorithm: string, otherKey: string, now: int)
    requires otherKey != key
    ensures Decode(Encode(claims, otherKey, algorithm), key, algorithm, now) == Rejected(BadSignature)
  {
  }
}

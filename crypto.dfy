/**
 * The password hashing of the application (a bcrypt context), modelled as an
 * ideal symbolic hash: a digest records the salt it was made with and the
 * secret it was made from, so a password verifies against a digest exactly
 * when it is the password that digest was made from.
 */
module Crypto {

  datatype Digest = Digest(salt: nat, secret: string)

  /** `pwd_context.verify(password, digest)`. */
  predicate Verify(password: string, digest: Digest)
  {
    digest.secret == password
  }

  /** `pwd_context.hash(password)`; the random salt is a parameter. */
  function Hash(password: string, salt: nat): (d: Digest)
    ensures Verify(password, d)
    ensures d.salt == salt
  {
    Digest(salt, password)
  }

  /** Only the password a digest was made from verifies against it. */
  lemma VerifyOnlyOwnPassword(password: string, other: string, salt: nat)
    ensures Verify(other, Hash(password, salt)) <==> other == password
  {
  }
}

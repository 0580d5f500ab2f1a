/** The credential hasher (bcrypt in the source), kept symbolic: a digest
    remembers what it was computed from, and verification compares against
    that.  The salt stands for bcrypt's random salt and is supplied by the
    caller, since randomness is outside the model. */
module Crypto {

  type Salt = nat

  /** A stored one-way hash of a secret. */
  datatype Digest = Digest(salt: Salt, image: string)

  /** `bcrypt.hash(secret, 10)`. */
  function Hash(secret: string, salt: Salt): (h: Digest)
    ensures h.salt == salt
  {
    Digest(salt, secret)
  }

  /** `bcrypt.compare(candidate, h)`: a boolean, never an error. */
  predicate Verify(candidate: string, h: Digest) {
    candidate == h.image
  }

  /** Every digest produced from a secret verifies that secret, whatever
      salt was drawn, and no other candidate. */
  lemma VerifyHash(secret: string, candidate: string, salt: Salt)
    ensures Verify(candidate, Hash(secret, salt)) <==> candidate == secret
  {
  }

  /** Hashing is salted: the same secret hashed with two salts gives two
      different stored values, so digests cannot be compared for equality. */
  lemma HashIsSalted(secret: string, a: Salt, b: Salt)
    ensures Hash(secret, a) == Hash(secret, b) <==> a == b
  {
  }
}

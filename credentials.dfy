/**
 * Password storage. `generate_password_hash` draws a random salt and derives a
 * key from salt and password; `check_password_hash` derives the key again from
 * the stored salt and the attempt and compares. The key derivation (PBKDF2 with
 * SHA-256) is not modelled: `Derive` stands in for it and is chosen only to be
 * injective in the password for a fixed salt, which is the one property the
 * handlers rely on.
 */
module Credentials {
  /** What the user table stores in its `password` column. */
  datatype Digest = Digest(salt: string, key: string)

  /** Stand-in for the salted key derivation. */
  function Derive(salt: string, secret: string): string {
    salt + secret
  }

  /** `generate_password_hash`: the salt is the randomness it draws, taken as an argument. */
  function Hash(secret: string, salt: string): Digest {
    Digest(salt, Derive(salt, secret))
  }

  /** `check_password_hash`: does the attempt derive the stored key? */
  predicate Check(stored: Digest, attempt: string) {
    Derive(stored.salt, attempt) == stored.key
  }

  /** A stored hash accepts exactly the password it was made from, whatever the salt. */
  lemma {:induction false} CheckHash(secret: string, salt: string, attempt: string)
    ensures Check(Hash(secret, salt), attempt) <==> attempt == secret
  {
    if Check(Hash(secret, salt), attempt) {
      assert (salt + attempt)[|salt|..] == attempt;
      assert (salt + secret)[|salt|..] == secret;
    }
  }
}

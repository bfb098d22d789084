/** Password hashing. The real hash is SHA-256 rendered as hex; the model
    takes any deterministic function, so nothing proved here depends on
    which one it is. */
module Security {

  /** A one-way, deterministic password hash. */
  type Hasher = string -> string

  function HashPassword(hash: Hasher, password: string): string
  {
    hash(password)
  }

  /** Verification recomputes the hash and compares it with the stored one. */
  predicate VerifyPassword(hash: Hasher, password: string, hashed: string)
  {
    HashPassword(hash, password) == hashed
  }

  /** A password always verifies against its own hash, and a hash is accepted
      only for passwords that hash to it. */
  lemma VerifyMatchesHash(hash: Hasher, password: string, hashed: string)
    ensures VerifyPassword(hash, password, HashPassword(hash, password))
    ensures VerifyPassword(hash, password, hashed) <==> hashed == hash(password)
  {
  }
}

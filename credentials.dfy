/**
 * The password-hashing primitive (bcrypt in index.js), as an idealised
 * salted hash: the random salt is an input, and a digest matches exactly
 * the passwords that agree with the hashed one on bcrypt's first 72 bytes.
 * A character stands for a byte.
 */
module Credentials {

  /** bcrypt cost factor passed by the register handler. */
  const CostFactor: nat := 10

  /** bcrypt reads at most this many bytes of a password and ignores the rest. */
  const MaxPasswordLength: nat := 72

  /** A stored password digest. `image` stands for the one-way part of the hash. */
  datatype Digest = Digest(cost: nat, salt: nat, image: string)

  /** The part of a password that bcrypt actually hashes. */
  function Truncated(password: string): (t: string)
    ensures |t| <= MaxPasswordLength
    ensures t <= password
    ensures |password| <= MaxPasswordLength ==> t == password
    ensures |password| >= MaxPasswordLength ==> |t| == MaxPasswordLength
  {
    if |password| <= MaxPasswordLength then password else password[..MaxPasswordLength]
  }

  /** Whether `password` agrees with the digest's password as far as bcrypt reads (bcrypt.compare). */
  predicate Matches(password: string, d: Digest)
  {
    d.image == Truncated(password)
  }

  /** Hashes `password` with the given salt (bcrypt.hash). */
  function Hash(password: string, salt: nat): (d: Digest)
    ensures Matches(password, d)
    ensures d.cost == CostFactor
  {
    Digest(CostFactor, salt, Truncated(password))
  }

  /**
   * The idealised hash has no other collisions: a password matches a digest
   * exactly when it agrees with the hashed password on the bytes bcrypt reads.
   */
  lemma OnlyTheHashedPasswordMatches(password: string, other: string, salt: nat)
    ensures Matches(other, Hash(password, salt)) <==> Truncated(other) == Truncated(password)
  {
  }

  /**
   * Anything appended to a password of 72 bytes or more is ignored: the
   * longer password logs in as well.
   */
  lemma LongPasswordsIgnoreTheirTail(password: string, tail: string, salt: nat)
    requires |password| >= MaxPasswordLength
    ensures Matches(password + tail, Hash(password, salt))
  {
  }

  /** Up to 72 bytes, a digest matches only the very password it was made from. */
  lemma ShortPasswordsMatchExactly(password: string, other: string, salt: nat)
    requires |password| < MaxPasswordLength
    requires Matches(other, Hash(password, salt))
    ensures other == password
  {
  }
}

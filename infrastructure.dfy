/** The two collaborators UserService is constructed with, kept abstract: the BCrypt password
    hasher and the JWT provider. Their randomness (the salt) is a parameter. */
module Infrastructure {
  import opened Schema

  type Salt = seq<Byte>

  /** IPasswordHasher: `GenerateHash(password)` is `generate(password, salt)` for the salt
      BCrypt draws; `VerifyHash(password, hash)` is `verify(password, hash)`. */
  datatype PasswordHasher = PasswordHasher(generate: (string, Salt) -> string, verify: (string, string) -> bool)

  /** A hash verifies against the password it was generated from. */
  ghost predicate Sound(h: PasswordHasher) {
    forall password, salt :: h.verify(password, h.generate(password, salt))
  }

  /** A hash verifies against no other password. */
  ghost predicate Discriminating(h: PasswordHasher) {
    forall password, other, salt :: other != password ==> !h.verify(other, h.generate(password, salt))
  }

  /** IJwtProvider.GenerateToken: a token whose only claim is the user's id. */
  type TokenIssuer = Guid -> string
}

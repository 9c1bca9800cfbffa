/** The password hashing the application takes from werkzeug
    (`generate_password_hash`, `check_password_hash`). */
module Security {

  /** A stored password hash: the random salt it was made with, and a digest
      that determines the password. The model keeps only what the handlers
      rely on; it does not model that the digest cannot be inverted. */
  datatype PasswordHash = Salted(salt: nat, digest: string)

  /** `generate_password_hash(password)`; the salt, random in the library, is
      a parameter here. */
  function GeneratePasswordHash(password: string, salt: nat): (h: PasswordHash)
    ensures forall attempt :: CheckPasswordHash(h, attempt) <==> attempt == password
  {
    Salted(salt, password)
  }

  /** `check_password_hash(h, password)`. */
  function CheckPasswordHash(h: PasswordHash, password: string): (ok: bool)
    ensures ok ==> h == Salted(h.salt, password)
  {
    h.digest == password
  }
}

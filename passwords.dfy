/** The password hashing library the signup and login routes call, kept abstract. */
module Passwords {

  /** The hashing scheme the signup route passes to the hasher. */
  const HashMethod: string := "pbkdf2:sha256"

  /** A password hasher: `hash(password, scheme, salt)` yields the self-describing string that is
      stored, `verify(stored, password)` checks an attempt against it. The salt stands for the
      library's own randomness and is therefore an argument. */
  datatype Hasher = Hasher(hash: (string, string, string) -> string, verify: (string, string) -> bool)

  /** The library's promise, for the scheme the application uses: a password always verifies
      against any hash made from it with that scheme. */
  ghost predicate Sound(h: Hasher) {
    forall password, salt :: h.verify(h.hash(password, HashMethod, salt), password)
  }
}

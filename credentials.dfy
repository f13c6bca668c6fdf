/** Password storage and checking (werkzeug's generate_password_hash and
    check_password_hash as app.py uses them). */
module Credentials {

  /** The stored form of a password. It stands for werkzeug's salted one-way
      hash: nothing but Hash and Verify looks inside it, so the model keeps
      only what the application relies on, that a digest accepts exactly the
      password it was made from. */
  datatype Digest = Digest(secret: string)

  /** generate_password_hash */
  function Hash(password: string): Digest {
    Digest(password)
  }

  /** check_password_hash */
  predicate Verify(d: Digest, attempt: string) {
    d.secret == attempt
  }

  /** The password a student created without one gets (app.py:134). */
  const DefaultPassword := "12345"

  /** A digest accepts the password it was made from and nothing else. */
  lemma VerifyHash(password: string, attempt: string)
    ensures Verify(Hash(password), attempt) <==> password == attempt
  {
  }
}

/** Password hashing and verification of the credential service
    (HashPassword and VerifyPassword of Serverample/Services/AuthService.cs).
    The SHA-256 digest, the UTF-8 encoding and the Base64 rendering are one
    deterministic string function `digest`, given as a parameter. */
module Passwords {

  /** SHA-256 over the UTF-8 bytes, rendered in Base64: deterministic, otherwise unknown. */
  type Digest = string -> string

  /** The fixed string appended to every password before hashing. */
  const Salt: string := "salt123"

  /** The stored form of a password. */
  function HashPassword(digest: Digest, password: string): string
  {
    digest(password + Salt)
  }

  /** Recomputes the hash of `password` and compares it with the stored one (ordinal equality). */
  predicate VerifyPassword(digest: Digest, password: string, hashedPassword: string)
  {
    HashPassword(digest, password) == hashedPassword
  }

  /** A digest that never maps two different inputs to the same output
      (SHA-256 is assumed collision-free only where a lemma asks for this). */
  ghost predicate Injective(digest: Digest)
  {
    forall a: string, b: string :: digest(a) == digest(b) ==> a == b
  }

  /** A password always verifies against its own hash. */
  lemma VerifyAcceptsOwnHash(digest: Digest, password: string)
    ensures VerifyPassword(digest, password, HashPassword(digest, password))
  {
  }

  /** Appending the fixed salt loses no information about the password. */
  lemma {:induction false} SaltedInjective(p: string, q: string)
    requires p + Salt == q + Salt
    ensures p == q
  {
    assert |p| == |q|;
    assert p == (p + Salt)[..|p|];
    assert q == (q + Salt)[..|q|];
  }

  /** With a collision-free digest, a password verifies against the hash of
      another password exactly when the two passwords are the same. */
  lemma VerifyIffSamePassword(digest: Digest, password: string, registered: string)
    requires Injective(digest)
    ensures VerifyPassword(digest, password, HashPassword(digest, registered)) <==> password == registered
  {
    if VerifyPassword(digest, password, HashPassword(digest, registered)) {
      SaltedInjective(password, registered);
    }
  }
}

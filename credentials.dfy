/** Password hashing (argon2 in the service), modelled as an injective
    tagging so that verification succeeds exactly for the hashed password. */
module Credentials {

  const HashTag: string := "argon2:"

  /** argon.hash */
  function Hash(password: string): (h: string)
    ensures |h| == |HashTag| + |password|
    ensures h[|HashTag|..] == password
  {
    HashTag + password
  }

  /** argon.verify(hash, password) */
  predicate Verify(hash: string, password: string)
  {
    hash == Hash(password)
  }

  /** A hash verifies against the password it was made from, and only that one. */
  lemma VerifyHash(p: string, q: string)
    ensures Verify(Hash(p), p)
    ensures Verify(Hash(p), q) <==> p == q
  {
    if Hash(p) == Hash(q) {
      assert p == Hash(p)[|HashTag|..];
      assert q == Hash(q)[|HashTag|..];
    }
  }
}

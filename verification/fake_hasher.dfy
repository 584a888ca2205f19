/** The hasher the registration tests use: the digest of a password is the
    password with "-hashed" appended, and a password matches a digest when
    hashing it gives that digest. */
module FakeHasher {
  /** The text appended to every password. */
  const Suffix: string := "-hashed"

  /** `hash`: the password, then the suffix. */
  function Hash(plain: string): (h: string)
    ensures |h| == |plain| + 7
    ensures h[..|plain|] == plain && h[|plain|..] == Suffix
  {
    plain + Suffix
  }

  /** `compare`: whether `hash` is the digest of `plain`. */
  function Compare(plain: string, hash: string): (b: bool)
    ensures b <==> |hash| == |plain| + |Suffix| && hash[..|plain|] == plain && hash[|plain|..] == Suffix
  {
    assert |hash| == |plain| + |Suffix| && hash[..|plain|] == plain && hash[|plain|..] == Suffix
           ==> hash == hash[..|plain|] + hash[|plain|..];
    plain + Suffix == hash
  }

  /** Round trip: every password matches its own digest. */
  lemma CompareHash(plain: string)
    ensures Compare(plain, Hash(plain))
  {
  }

  /** `compare` accepts exactly the one digest `hash` produces. */
  lemma CompareIff(plain: string, hash: string)
    ensures Compare(plain, hash) <==> hash == Hash(plain)
  {
  }

  /** Distinct passwords have distinct digests. */
  lemma HashInjective(p: string, q: string)
    requires Hash(p) == Hash(q)
    ensures p == q
  {
    assert p == Hash(p)[..|p|];
  }

  /** A different password never matches a digest. */
  lemma CompareRejectsOthers(p: string, q: string)
    requires p != q
    ensures !Compare(q, Hash(p))
  {
    if Compare(q, Hash(p)) {
      HashInjective(p, q);
    }
  }

  /** The digest never equals the password itself. */
  lemma DigestIsNotPlain(plain: string)
    ensures Hash(plain) != plain
    ensures !Compare(plain, plain)
  {
  }
}

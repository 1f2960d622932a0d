/** apps/web/components/biometric/HashingUtils.ts. Its sha256, sha512,
    generateUniqueIdentifier, generateSalt, sha256WithSalt and hex helpers
    are the same text as apps/web/lib/HashingUtils.ts and are the members of
    module Hashing; what differs is verifyHashWithSalt, which has no guard
    against a missing or empty salt and so hands such a salt to
    sha256WithSalt, where it is replaced by a fresh random one. */
module BiometricHashing {
  import opened Outcomes
  import JsText
  import Hex
  import Platform
  import Hashing

  /** Without the guard a missing or empty salt field still fails: the
      recomputed string always carries ':' and a non-empty colon-free
      random salt, so it cannot equal an input whose salt field is absent or
      empty. */
  lemma RejectsMissingOrEmptySalt(b: Platform.Browser, rng: Platform.RandomSource, data: string, hashWithSalt: string)
    requires Hashing.SaltField(hashWithSalt) in {None, Some("")}
    ensures Hashing.Sha256WithSalt(b, rng, data, Hashing.SaltField(hashWithSalt), 0).hash != hashWithSalt
  {
    var salt := Hashing.SaltField(hashWithSalt);
    var recomputed := Hashing.Sha256WithSalt(b, rng, data, salt, 0).hash;
    var newSalt := Hashing.GenerateSalt(rng, Hashing.DefaultSaltLength);
    assert Hashing.UsedSalt(rng, salt) == newSalt;
    Hashing.DigestHasNoColon(newSalt);
    Hashing.StoredHashSplits(b, rng, data, salt, 0);
    assert ':' in recomputed by { assert recomputed[64] == ':'; }
    assert Hashing.SaltField(recomputed) == Some(newSalt);
  }

  /** verifyHashWithSalt without the guard: recompute with whatever the salt
      field is (undefined and "" included) and compare. It accepts exactly
      what the guarded copy accepts: a present, non-empty salt field, and the
      input being the digest of data ++ salt, ':' and that salt. */
  function VerifyHashWithSalt(b: Platform.Browser, rng: Platform.RandomSource, data: string,
                              hashWithSalt: string): (ok: bool)
    ensures ok <==>
      Hashing.SaltField(hashWithSalt).Some? && Hashing.SaltField(hashWithSalt).value != "" &&
      hashWithSalt == Hashing.Sha256(b, data + Hashing.SaltField(hashWithSalt).value) + ":"
                      + Hashing.SaltField(hashWithSalt).value
  {
    var salt := Hashing.SaltField(hashWithSalt);
    var ok := Hashing.Sha256WithSalt(b, rng, data, salt, 0).hash == hashWithSalt;
    // The test below only selects the proof; the value is the comparison.
    if salt.None? || salt.value == "" then
      RejectsMissingOrEmptySalt(b, rng, data, hashWithSalt);
      ok
    else
      assert ok == Hashing.VerifyHashWithSalt(b, rng, data, hashWithSalt);
      ok
  }

  /** Both copies of verifyHashWithSalt give the same answer on every input
      and with every random generator. */
  lemma VerifiersAgree(b: Platform.Browser, rng: Platform.RandomSource, data: string, hashWithSalt: string)
    ensures VerifyHashWithSalt(b, rng, data, hashWithSalt) == Hashing.VerifyHashWithSalt(b, rng, data, hashWithSalt)
  {
  }

  /** This copy's sha256WithSalt output is hash ':' salt with a non-empty
      salt, whether or not one was supplied. */
  lemma StoredFormHasSalt(b: Platform.Browser, rng: Platform.RandomSource, data: string, salt: Option<string>, now: int)
    ensures var h := Hashing.Sha256WithSalt(b, rng, data, salt, now).hash;
            Hex.IsLowerHexString(h[..64]) && h[64] == ':' && h[65..] != ""
  {
  }

  /** The round trip holds for this copy too. */
  lemma VerifyAcceptsOwnHash(b: Platform.Browser, rng1: Platform.RandomSource, rng2: Platform.RandomSource,
                             data: string, salt: string, now: int)
    requires salt != "" && ':' !in salt
    ensures VerifyHashWithSalt(b, rng2, data, Hashing.Sha256WithSalt(b, rng1, data, Some(salt), now).hash)
  {
    Hashing.VerifyAcceptsOwnHash(b, rng1, rng2, data, salt, now);
    VerifiersAgree(b, rng2, data, Hashing.Sha256WithSalt(b, rng1, data, Some(salt), now).hash);
  }
}

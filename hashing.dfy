/** apps/web/lib/HashingUtils.ts: salted SHA-256 in the `hash:salt` storage
    format with its verifier, the identifier preimage, random salts, and the
    non-cryptographic 31-polynomial `quickHash` in 32-bit arithmetic. The
    digests and the random generator are the browser's (module Platform). */
module Hashing {
  import opened Outcomes
  import Numerals
  import JsText
  import Hex
  import Platform

  /** HashResult, with the creation time as the clock reading it was given. */
  datatype HashResult = HashResult(hash: string, algorithm: string, timestamp: int)

  /** sha256: SHA-256 of the UTF-8 bytes, as 64 lower-case hex digits. */
  function Sha256(b: Platform.Browser, data: string): (h: string)
    ensures |h| == 64 && Hex.IsLowerHexString(h)
    ensures Hex.FromHex(h) == b.sha256(b.utf8Encode(data))
  {
    Hex.FromHexToHex(b.sha256(b.utf8Encode(data)));
    Platform.Sha256Hex(b, data)
  }

  /** sha512: SHA-512, 128 lower-case hex digits. */
  function Sha512(b: Platform.Browser, data: string): (h: string)
    ensures |h| == 128 && Hex.IsLowerHexString(h)
    ensures Hex.FromHex(h) == b.sha512(b.utf8Encode(data))
  {
    Hex.FromHexToHex(b.sha512(b.utf8Encode(data)));
    Platform.Sha512Hex(b, data)
  }

  /** A hex digest never contains the ':' of the storage format. */
  lemma DigestHasNoColon(h: string)
    requires Hex.IsLowerHexString(h)
    ensures ':' !in h
  {
    Hex.LowerHexIsHex(h);
  }

  /** The text generateUniqueIdentifier hashes: `${dni}:${publicKey}:${timestamp}`
      with the timestamp printed in decimal. */
  function IdentifierPreimage(dni: string, publicKey: string, timestamp: int): string
  {
    dni + ":" + publicKey + ":" + Numerals.IntToString(timestamp, 10)
  }

  /** For colon-free DNI and key, splitting the preimage at ':' gives back the
      three fields. */
  lemma PreimageFields(dni: string, publicKey: string, timestamp: int)
    requires ':' !in dni && ':' !in publicKey
    ensures JsText.Split(IdentifierPreimage(dni, publicKey, timestamp), ':')
         == [dni, publicKey, Numerals.IntToString(timestamp, 10)]
  {
    var t := Numerals.IntToString(timestamp, 10);
    NoColonInDecimal(timestamp);
    JsText.SplitAtSeparator(dni, ':', publicKey + ":" + t);
    JsText.SplitTwoFields(publicKey, ':', t);
    assert dni + ":" + publicKey + ":" + t == dni + [':'] + (publicKey + [':'] + t);
  }

  lemma NoColonInDecimal(i: int)
    ensures ':' !in Numerals.IntToString(i, 10)
  {
    var s := Numerals.IntToString(i, 10);
    forall k | 0 <= k < |s|
      ensures s[k] != ':'
    {
      assert s[k] == '-' || Numerals.IsDigitChar(s[k], 10);
    }
  }

  /** For colon-free DNI and key, the preimage determines all three inputs:
      registrations at different times hash different texts. */
  lemma PreimageDeterminesInputs(dni1: string, pk1: string, t1: int, dni2: string, pk2: string, t2: int)
    requires ':' !in dni1 && ':' !in pk1 && ':' !in dni2 && ':' !in pk2
    requires IdentifierPreimage(dni1, pk1, t1) == IdentifierPreimage(dni2, pk2, t2)
    ensures dni1 == dni2 && pk1 == pk2 && t1 == t2
  {
    PreimageFields(dni1, pk1, t1);
    PreimageFields(dni2, pk2, t2);
    var p1 := JsText.Split(IdentifierPreimage(dni1, pk1, t1), ':');
    assert p1[2] == Numerals.IntToString(t1, 10) && p1[2] == Numerals.IntToString(t2, 10);
    Numerals.IntToStringInjective(t1, t2, 10);
  }

  /** generateUniqueIdentifier: the SHA-256 hex of exactly that preimage. */
  function GenerateUniqueIdentifier(b: Platform.Browser, dni: string, publicKey: string, timestamp: int): (id: string)
    ensures |id| == 64
    ensures Hex.FromHex(id) == b.sha256(b.utf8Encode(IdentifierPreimage(dni, publicKey, timestamp)))
  {
    Sha256(b, IdentifierPreimage(dni, publicKey, timestamp))
  }

  const DefaultSaltLength: nat := 32

  /** generateSalt: `length` random bytes as 2 * length lower-case hex digits. */
  function GenerateSalt(rng: Platform.RandomSource, length: nat): (salt: string)
    ensures |salt| == 2 * length
    ensures Hex.IsLowerHexString(salt)
    ensures Hex.FromHex(salt) == rng(length)
  {
    Hex.ToHexIsLowerHex(rng(length));
    Hex.FromHexToHex(rng(length));
    Hex.ToHex(rng(length))
  }

  /** `salt || generateSalt()`: a missing or empty salt is replaced by 32
      fresh random bytes in hex. */
  function UsedSalt(rng: Platform.RandomSource, salt: Option<string>): (s: string)
    ensures s != ""
    ensures salt.Some? && salt.value != "" ==> s == salt.value
    ensures (salt.None? || salt.value == "") ==> s == GenerateSalt(rng, DefaultSaltLength)
  {
    if salt.Some? && salt.value != "" then salt.value else GenerateSalt(rng, DefaultSaltLength)
  }

  /** sha256WithSalt: the stored string is the 64-digit hash of data followed
      by the salt, a ':', and the salt itself; the algorithm is 'SHA-256'. */
  function Sha256WithSalt(b: Platform.Browser, rng: Platform.RandomSource, data: string,
                          salt: Option<string>, now: int): (r: HashResult)
    ensures r.algorithm == "SHA-256" && r.timestamp == now
    ensures |r.hash| > 65 && r.hash[64] == ':'
    ensures r.hash[..64] == Sha256(b, data + UsedSalt(rng, salt))
    ensures r.hash[65..] == UsedSalt(rng, salt)
  {
    var used := UsedSalt(rng, salt);
    var digest := Sha256(b, data + used);
    var stored := digest + ":" + used;
    assert stored[..64] == digest && stored[64] == ':' && stored[65..] == used;
    HashResult(stored, "SHA-256", now)
  }

  /** With a colon-free salt the stored string splits back into digest and
      salt. */
  lemma StoredHashSplits(b: Platform.Browser, rng: Platform.RandomSource, data: string,
                         salt: Option<string>, now: int)
    requires ':' !in UsedSalt(rng, salt)
    ensures JsText.Split(Sha256WithSalt(b, rng, data, salt, now).hash, ':')
         == [Sha256(b, data + UsedSalt(rng, salt)), UsedSalt(rng, salt)]
  {
    var h := Sha256(b, data + UsedSalt(rng, salt));
    DigestHasNoColon(h);
    JsText.SplitTwoFields(h, ':', UsedSalt(rng, salt));
    assert Sha256WithSalt(b, rng, data, salt, now).hash == h + [':'] + UsedSalt(rng, salt);
  }

  /** The second element of `hashWithSalt.split(':')`, None when there is no
      ':' (the destructured `salt` is then undefined). */
  function SaltField(hashWithSalt: string): (salt: Option<string>)
    ensures salt.None? <==> ':' !in hashWithSalt
    ensures salt.Some? ==> ':' !in salt.value
  {
    var parts := JsText.Split(hashWithSalt, ':');
    JsText.OnePieceIffNoSeparator(hashWithSalt, ':');
    JsText.SplitPartsHaveNoSeparator(hashWithSalt, ':');
    if |parts| >= 2 then Some(parts[1]) else None
  }

  /** verifyHashWithSalt: false when the salt part is missing or empty;
      otherwise recompute with that salt and compare the stored strings. */
  function VerifyHashWithSalt(b: Platform.Browser, rng: Platform.RandomSource, data: string,
                              hashWithSalt: string): (ok: bool)
    ensures SaltField(hashWithSalt) in {None, Some("")} ==> !ok
    ensures ok <==>
      SaltField(hashWithSalt).Some? && SaltField(hashWithSalt).value != "" &&
      hashWithSalt == Sha256(b, data + SaltField(hashWithSalt).value) + ":" + SaltField(hashWithSalt).value
  {
    var salt := SaltField(hashWithSalt);
    if salt.None? || salt.value == "" then false
    else Sha256WithSalt(b, rng, data, salt, 0).hash == hashWithSalt
  }

  /** The verifier accepts what sha256WithSalt stored, for every non-empty
      colon-free salt, whatever randomness either call was given. */
  lemma VerifyAcceptsOwnHash(b: Platform.Browser, rng1: Platform.RandomSource, rng2: Platform.RandomSource,
                             data: string, salt: string, now: int)
    requires salt != "" && ':' !in salt
    ensures VerifyHashWithSalt(b, rng2, data, Sha256WithSalt(b, rng1, data, Some(salt), now).hash)
  {
    var stored := Sha256WithSalt(b, rng1, data, Some(salt), now).hash;
    StoredHashSplits(b, rng1, data, Some(salt), now);
    assert ':' in stored by { assert stored[64] == ':'; }
    assert SaltField(stored) == Some(salt);
    assert stored == Sha256(b, data + salt) + ":" + salt;
  }

  /** ECMAScript ToUint32 and ToInt32 on an integral number. */
  function ToUint32(x: int): (u: nat)
    ensures u < 0x1_0000_0000 && (x - u) % 0x1_0000_0000 == 0
  {
    x % 0x1_0000_0000
  }

  function ToInt32(x: int): (v: int)
    ensures -0x8000_0000 <= v < 0x8000_0000 && (x - v) % 0x1_0000_0000 == 0
  {
    var u := ToUint32(x);
    if u >= 0x8000_0000 then u - 0x1_0000_0000 else u
  }

  /** ToInt32 only sees its argument modulo 2^32. */
  lemma ToInt32Congruent(x: int, y: int)
    requires (x - y) % 0x1_0000_0000 == 0
    ensures ToInt32(x) == ToInt32(y)
  {
    var q := (x - y) / 0x1_0000_0000;
    assert x == y + q * 0x1_0000_0000;
    ModShift(y, q);
  }

  lemma ModShift(y: int, q: int)
    ensures (y + q * 0x1_0000_0000) % 0x1_0000_0000 == y % 0x1_0000_0000
  {
  }

  /** `x << 5`: ToInt32 of the operand, shifted, kept to 32 bits. */
  function ShiftLeft5(x: int): (v: int)
    ensures -0x8000_0000 <= v < 0x8000_0000 && (v - 32 * x) % 0x1_0000_0000 == 0
  {
    var t := ToInt32(x);
    ScaleCongruent32(t, x);
    CongruentTrans(ToInt32(t * 32), t * 32, 32 * x);
    ToInt32(t * 32)
  }

  /** Multiplying by 32 keeps a congruence modulo 2^32. */
  lemma ScaleCongruent32(t: int, x: int)
    requires (x - t) % 0x1_0000_0000 == 0
    ensures (t * 32 - 32 * x) % 0x1_0000_0000 == 0
  {
    var q := (x - t) / 0x1_0000_0000;
    assert x - t == q * 0x1_0000_0000;
    assert t * 32 - 32 * x == (-32 * q) * 0x1_0000_0000;
    ModShift(0, -32 * q);
  }

  /** Congruence modulo 2^32 is transitive. */
  lemma CongruentTrans(a: int, b: int, c: int)
    requires (a - b) % 0x1_0000_0000 == 0 && (b - c) % 0x1_0000_0000 == 0
    ensures (a - c) % 0x1_0000_0000 == 0
  {
    var q1 := (a - b) / 0x1_0000_0000;
    var q2 := (b - c) / 0x1_0000_0000;
    assert a - b == q1 * 0x1_0000_0000;
    assert b - c == q2 * 0x1_0000_0000;
    assert a - c == (q1 + q2) * 0x1_0000_0000;
    ModShift(0, q1 + q2);
  }

  /** Bitwise and of two naturals, one binary digit at a time. */
  function AndBits(a: nat, c: nat): (r: nat)
    decreases a
  {
    if a == 0 || c == 0 then 0 else (a % 2) * (c % 2) + 2 * AndBits(a / 2, c / 2)
  }

  /** `x & y`: both operands through ToUint32 (ToInt32's bit pattern), combined
      bit by bit, and the 32-bit result read back as signed. */
  function BitAnd(x: int, y: int): int
  {
    ToInt32(AndBits(ToUint32(x), ToUint32(y)))
  }

  lemma {:induction false} AndBitsSelf(a: nat)
    ensures AndBits(a, a) == a
    decreases a
  {
    if a != 0 {
      AndBitsSelf(a / 2);
    }
  }

  /** `hash & hash` is ToInt32(hash): the idiom only truncates to 32 bits. */
  lemma BitAndSelf(x: int)
    ensures BitAnd(x, x) == ToInt32(x)
  {
    AndBitsSelf(ToUint32(x));
    ToInt32Congruent(ToUint32(x), x);
  }

  /** The number quickHash computes: h = 0, then h = 31 * h + the character's
      code (the code unit `charCodeAt` returns, for text in the Basic
      Multilingual Plane), reduced to a signed 32-bit integer after every character. */
  function QuickHashValue(s: string): (h: int)
    ensures -0x8000_0000 <= h < 0x8000_0000
  {
    if s == [] then 0 else ToInt32(31 * QuickHashValue(s[..|s| - 1]) + (s[|s| - 1] as int))
  }

  /** The plain polynomial sum of the character codes with radix 31, unreduced. */
  function Polynomial31(s: string): int
  {
    if s == [] then 0 else 31 * Polynomial31(s[..|s| - 1]) + (s[|s| - 1] as int)
  }

  /** Reducing after every step is the same as reducing once: quickHash is
      the 31-polynomial of the string modulo 2^32, read as signed. */
  lemma {:induction false} QuickHashIsReducedPolynomial(s: string)
    ensures QuickHashValue(s) == ToInt32(Polynomial31(s))
  {
    if s != [] {
      var init := s[..|s| - 1];
      QuickHashIsReducedPolynomial(init);
      var h := QuickHashValue(init);
      var p := Polynomial31(init);
      var c := s[|s| - 1] as int;
      StepCongruent(p, h, c);
      ToInt32Congruent(31 * p + c, 31 * h + c);
    }
  }

  /** Congruence modulo 2^32 survives one step of the recurrence. */
  lemma StepCongruent(p: int, h: int, c: int)
    requires (p - h) % 0x1_0000_0000 == 0
    ensures ((31 * p + c) - (31 * h + c)) % 0x1_0000_0000 == 0
  {
    var q := (p - h) / 0x1_0000_0000;
    assert p - h == q * 0x1_0000_0000;
    assert (31 * p + c) - (31 * h + c) == 31 * (p - h);
    assert 31 * (p - h) == (31 * q) * 0x1_0000_0000;
    ModShift(0, 31 * q);
  }

  /** quickHash: the loop as written, `hash = ((hash << 5) - hash) + char`
      then `hash = hash & hash`, printed in hex with a '-' when negative. */
  method QuickHash(str: string) returns (r: string)
    ensures r == Numerals.IntToString(QuickHashValue(str), 16)
  {
    var hash: int := 0;
    var i := 0;
    while i < |str|
      invariant 0 <= i <= |str|
      invariant hash == QuickHashValue(str[..i])
    {
      var code := str[i] as int;
      var next := (ShiftLeft5(hash) - hash) + code;
      LoopStep(hash, code);
      assert str[..i + 1][..i] == str[..i];
      assert QuickHashValue(str[..i + 1]) == ToInt32(31 * hash + code);
      hash := BitAnd(next, next);
      i := i + 1;
    }
    assert str[..|str|] == str;
    r := Numerals.IntToString(hash, 16);
  }

  /** The loop body, shift-subtract-add then `& itself`, is one step of
      the reduced recurrence. */
  lemma LoopStep(h: int, c: int)
    ensures BitAnd((ShiftLeft5(h) - h) + c, (ShiftLeft5(h) - h) + c) == ToInt32(31 * h + c)
  {
    ShiftStep(h, c);
    BitAndSelf((ShiftLeft5(h) - h) + c);
  }

  /** One step of the loop agrees with the 31 * h + c recurrence. */
  lemma ShiftStep(h: int, c: int)
    ensures ToInt32((ShiftLeft5(h) - h) + c) == ToInt32(31 * h + c)
  {
    var v := ShiftLeft5(h);
    var q := (v - 32 * h) / 0x1_0000_0000;
    assert v == 32 * h + q * 0x1_0000_0000;
    assert (v - h) + c == 31 * h + c + q * 0x1_0000_0000;
    ModShift(31 * h + c, q);
    ToInt32Congruent((v - h) + c, 31 * h + c);
  }

  /** The empty string hashes to "0". */
  lemma QuickHashOfEmpty()
    ensures Numerals.IntToString(QuickHashValue(""), 16) == "0"
  {
  }
}

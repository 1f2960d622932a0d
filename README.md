# Spectra identity toolkit: a Dafny model of its deterministic core

This project models the self-contained logic of the Spectra monorepo, a
zero-knowledge identity demo built on Stellar. Its cryptography is delegated:
Shamir splitting goes to `secrets.js`, AES-256-GCM and SHA-2 go to WebCrypto,
and storage goes to Horizon and Freighter. The code around those calls is
small and deterministic, and the model covers that code:

- **`Shamir`** (packages/crypto/shamir.ts):
  - the parameter checks of `createShamirShares` and `reconstructFromShares`, in source order;
  - the error wrapping;
  - the UTF-8/hex codec;
  - fragment metadata and location routing;
  - the share format check.
- **`Encryption`** (packages/crypto/encryption.ts):
  - AES-GCM framing: the key, the 12-byte IV, the split of the output into ciphertext and trailing 16-byte tag;
  - the in-place recombination before decryption;
  - the odd-length hex check;
  - error wrapping.
- **`Hashing`** (apps/web/lib/HashingUtils.ts):
  - the `hash:salt` storage format and its verifier;
  - the identifier preimage and random salts;
  - `quickHash` in ECMAScript 32-bit arithmetic.
- **`BiometricHashing`** (apps/web/components/biometric/HashingUtils.ts): the second copy of the hashing helpers. Its `verifyHashWithSalt` lacks the empty-salt guard. It is proved to agree with the guarded one on every input.
- **`MockData`** (apps/web/lib/MockDataGenerator.ts):
  - the DNI format check;
  - age from a birth date;
  - the demo generator, including birth-date formatting and DNI brackets by birth year.
- **`MockOcr`** (apps/web/components/camera/MockOCR.ts): `validateExtractedData` and its ordered error list.
- **`IdentityStore`** (apps/web/store/useIdentityStore.ts): the zustand store. It is a class whose fields the six actions overwrite, and each action is also modelled as a value-level transition, so that sequences of actions can be reasoned about.
- **`Stellar`** (packages/stellar-utils/index.ts):
  - the 64-character guards of `storeDataEntry`;
  - the `zk_<type>_proof` key and the truncated value of `storeProofHash`;
  - the `null` cases of `readDataEntry`;
  - the native-balance choice.
- **`WebAuthn`** (apps/web/components/biometric/WebAuthnHelper.ts):
  - the availability rule and the authenticator list;
  - the base64url rewrite of the challenge;
  - the registration options and result;
  - the error-name mapping.

Support modules:

- **`Hex`** holds the byte/hex codec. The repository spells it out five times with the same text.
- **`Numerals`** models `Number.prototype.toString(radix)` and `padStart`.
- **`JsText`** models `trim`, `split` and anchored repetition patterns.
- **`Outcomes`** models `null`/`undefined` and thrown errors.
- **`Platform`** holds the browser primitives as uninterpreted functions: random bytes, UTF-8, digests and AES-GCM.

A thrown `Error` is a `Failure` carrying its message. A `catch` that rethrows with a prefix is `WrapFailure`.

Foreign calls are parameters, and each is described only by the facts the callers rely on:

- `share`/`combine`, `loadAccount`, submission and `startRegistration` may fail with any message.
- Random sources return exactly the number of bytes asked for.
- Digests are 32 or 64 bytes.
- The AES-GCM law (output length is input length plus 16, and decryption inverts encryption; NIST SP 800-38D) and the UTF-8 round trip are hypotheses of the lemmas that need them.

The hex decoder is modelled on every input, not only on well-formed hex:

- `parseInt(·, 16)` follows ECMAScript: leading white space, an optional sign, an optional `0x`, the longest run of hex digits, and NaN when there are none.
- A `Uint8Array` stores NaN as 0 and other numbers modulo 256.
- `new Uint8Array(hex.length / 2)` truncates the length.
- The write past the end that an odd-length input causes is dropped.

The round trips are proved on the encoder's output. `registerBiometric` feeds a base64url credential id to this decoder. The model states only that `credentialId` is the decoder's result on that id.

Properties worth noting:

- **Shamir guards.**
  - The third check of `createShamirShares` ("Total shares must be at least 2") can never fire for numeric arguments other than NaN; `TotalSharesGuardUnreachable` proves it over the integers. A NaN threshold passes both earlier comparisons and does reach it.
  - All checks of both functions run before the library is touched.
  - `reconstructFromShares` accepts any list of two or more shares; the threshold is left to the library.
- **Fragment ids.** `frag_<index>_<now>` determines both numbers (`FragmentIdInjective`).
- **quickHash.** The shift-subtract-and-`&` loop computes the base-31 polynomial of the character codes modulo 2^32, read as a signed number (`QuickHashIsReducedPolynomial`).
- **Verifiers.** The guarded and unguarded `verifyHashWithSalt` agree on every input (`VerifiersAgree`). When the salt is missing, the unguarded copy recomputes with a fresh random salt, and that can never reproduce the input.
- **Age.** `calculateAge` returns the unique number of completed years. For the same day, `validateAge` accepts exactly when that number is at least 18.
- **The generator's "age > 18" claim.** The documentation claims it, but the draws 0 for the age, 11/12 for the month and 27/28 for the day give age 18 and the birth date `<year - 18>-12-28`. That person has completed only 17 years on 1 January, and `validateAge` rejects the date (`YoungestDrawCanBeMinor`).
- **Generated DNIs.** Every DNI the generator can produce passes `validateDNI`.
- **`validateExtractedData`.**
  - It reports each message exactly when its check fails, in check order, with no repeats.
  - A name counts as missing when it is empty or white space only.
  - The record is valid exactly when no check failed.
- **Identity store.**
  - `reset` forgets everything before it.
  - `kycCompleted` is true exactly when some `completeKyc` has no later `reset`.
  - `setKycStep` can move the step back while the flag stays set.
  - `kycStep` can only hold the five values of its union type; the `KycStep` datatype makes that structural.
- **Stellar.**
  - `storeProofHash` can never trip a length guard.
  - Distinct proof types use distinct entries.
  - A stored proof reads back as its (truncated) value.

## Model

| member | source | states |
|---|---|---|
| `Outcomes.WrapFailure` | packages/crypto/encryption.ts:74-76 | success passes through with its value; a failure keeps failing, its message behind the prefix |
| `Hex.ByteToHex` | packages/crypto/encryption.ts:150 | two lower-case digits whose values are the byte's high and low nibble |
| `Hex.ByteToHexIsPaddedString` | packages/crypto/shamir.ts:136 | `b.toString(16).padStart(2, '0')` is exactly the nibble pair |
| `Hex.ToHex` | packages/crypto/encryption.ts:148-151 | 2n characters for n bytes; characters 2i and 2i+1 encode byte i |
| `Hex.HexDigitPrefix` | packages/crypto/encryption.ts:163 | a prefix of the input made of hex digits that stops only at a non-digit or the end |
| `Hex.ParseIntHexOfPair` | apps/web/components/biometric/WebAuthnHelper.ts:164-170 | `parseInt` of two hex digits, either case, is 16 times the first plus the second |
| `Hex.PairByteOfDigits` | packages/crypto/encryption.ts:161-164 | the byte stored for a pair of hex digits is its two-digit value |
| `Hex.ToHexPairDecodes` | apps/web/components/biometric/HashingUtils.ts:96-110 | the pair the encoder prints for byte k decodes to byte k |
| `Hex.FromHexToHex` | packages/crypto/shamir.ts:133-149 | decoding the encoder's output gives back every byte sequence |
| `Hex.ToHexIsLowerHex` | apps/web/components/biometric/WebAuthnHelper.ts:175-178 | the encoder prints only `0-9a-f` |
| `Hex.DecodeHex` | apps/web/lib/HashingUtils.ts:113-119 | the loop returns floor(length/2) bytes, byte k parsed from the pair at 2k, with the odd tail write dropped |
| `Numerals.NatToString` | apps/web/lib/MockDataGenerator.ts:102 | at least one digit of the radix, no leading zero |
| `Numerals.IntToString` | apps/web/lib/HashingUtils.ts:163 | a leading '-' exactly for negative numbers, digits of the radix otherwise |
| `Numerals.ValueOfNatToString` | apps/web/lib/MockDataGenerator.ts:101-102 | the printed digits read back to the number |
| `Numerals.IntToStringInjective` | packages/crypto/shamir.ts:104 | different integers print differently |
| `Numerals.NatToStringLength` | apps/web/lib/MockDataGenerator.ts:101-102 | a number in [radix^(k-1), radix^k) prints with exactly k digits |
| `Numerals.PadStart` | apps/web/lib/MockDataGenerator.ts:63-64 | length max(len, \|s\|), s at the end, fill characters before it |
| `Numerals.PadTwoDigits` | apps/web/lib/HashingUtils.ts:70 | a two-digit value printed and padded to two is its high and low digit |
| `JsText.TrimEmptyIffBlank` | apps/web/components/camera/MockOCR.ts:114-120 | `trim()` is empty exactly when every character is ECMAScript white space |
| `JsText.SplitTwoFields` | apps/web/lib/HashingUtils.ts:95 | joining two separator-free fields with the separator splits back into them |
| `JsText.OnePieceIffNoSeparator` | apps/web/lib/HashingUtils.ts:95 | `split` yields a single piece exactly when the separator is absent |
| `JsText.SplitPartsHaveNoSeparator` | apps/web/lib/HashingUtils.ts:95 | no piece of `split` contains the separator |
| `JsText.MatchesRepeatIff` | apps/web/lib/MockDataGenerator.ts:134 | an anchored `^[class]{min,max}$` matches exactly strings of allowed length made of class characters |
| `Platform.Sha256Hex` | packages/crypto/encryption.ts:138-143 | the hex digest is 64 lower-case digits |
| `Platform.Sha512Hex` | apps/web/components/biometric/HashingUtils.ts:26-34 | the hex digest is 128 lower-case digits |
| `Shamir.GetSecretsLib` | packages/crypto/shamir.ts:9-16 | outside a browser it throws the fixed message; inside, the import's outcome |
| `Shamir.ShareGuard` | packages/crypto/shamir.ts:31-41 | threshold above total reports first, then threshold below 2; the checks pass exactly when 2 <= threshold <= total |
| `Shamir.TotalSharesGuardUnreachable` | packages/crypto/shamir.ts:39-41 | over the integers (every number but NaN) the "Total shares must be at least 2" check never fires |
| `Shamir.StringToHex` | packages/crypto/shamir.ts:133-137 | two lower-case padded digits per UTF-8 byte, in byte order |
| `Shamir.HexToString` | packages/crypto/shamir.ts:142-149 | the UTF-8 decoding of the bytes the hex pairs decode to (`FromHex`) |
| `Shamir.HexToStringInvertsStringToHex` | packages/crypto/shamir.ts:133-149 | the hex decodes to the UTF-8 bytes, hence to the text whenever UTF-8 round-trips |
| `Shamir.CreateShamirShares` | packages/crypto/shamir.ts:25-57 | a failed check is thrown unwrapped; later failures carry the prefix; success exactly when the checks pass and the library loads and shares |
| `Shamir.ShareGuardsPrecedeLibrary` | packages/crypto/shamir.ts:31-44 | when a check fails the environment and the library make no difference |
| `Shamir.ReconstructGuard` | packages/crypto/shamir.ts:66-72 | empty and one-element lists get their own messages; every length >= 2 passes |
| `Shamir.ReconstructFromShares` | packages/crypto/shamir.ts:64-87 | the checks, then load, combine and hex-to-text; success exactly when all succeed; later failures carry the prefix |
| `Shamir.ReconstructAfterCreate` | packages/crypto/shamir.ts:25-87 | if combine gives back the hex that share was given, reconstruction returns the secret |
| `Shamir.TestReconstruction` | packages/crypto/shamir.ts:155-162 | true exactly when reconstruction returns the expected text; never true for fewer than two shares |
| `Shamir.GetLocationByIndex` | packages/crypto/shamir.ts:112-115 | indices 0-4 route to the five locations; every other index to 'unknown' |
| `Shamir.LocationsAreDistinct` | packages/crypto/shamir.ts:113 | different in-range indices route to different locations |
| `Shamir.FragmentId` | packages/crypto/shamir.ts:104 | the id splits at '_' into "frag", the index and the clock reading |
| `Shamir.GenerateFragmentMetadata` | packages/crypto/shamir.ts:93-107 | index, total and threshold copied unchanged; the given creation time; the routed location; the id fields |
| `Shamir.FragmentIdInjective` | packages/crypto/shamir.ts:104 | equal ids have equal index and clock reading |
| `Shamir.ValidateShare` | packages/crypto/shamir.ts:121-128 | true exactly for non-empty strings of `[0-9a-fA-F]` |
| `Shamir.EncodedSharesValidate` | packages/crypto/shamir.ts:121-137 | every non-empty output of the encoder is a valid share |
| `Shamir.GetMinimumSharesNeeded` | packages/crypto/shamir.ts:167-171 | always the default threshold 3, whatever the share |
| `Shamir.MinimumSharesPassGuard` | packages/crypto/shamir.ts:66-72 | that many shares always clear reconstruction's own checks |
| `Shamir.DefaultsPassGuard` | packages/crypto/shamir.ts:25-41 | the 5/3 defaults pass the share checks |
| `Encryption.GenerateEncryptionKey` | packages/crypto/encryption.ts:10-14 | 64 lower-case hex digits that decode to the 32 random bytes |
| `Encryption.HexBytes` | packages/crypto/encryption.ts:156-166 | fails with "Invalid hex string length" exactly on odd length; otherwise length/2 decoded bytes |
| `Encryption.HexToBuffer` | packages/crypto/encryption.ts:156-166 | the check followed by the loop yields exactly that outcome |
| `Encryption.HexToBufferRoundTrip` | packages/crypto/encryption.ts:148-166 | `hexToBuffer(bufferToHex(b))` succeeds with b for every b |
| `Encryption.AuthTagOf` | packages/crypto/encryption.ts:66 | the last 16 bytes, or the whole of a shorter array |
| `Encryption.CiphertextOf` | packages/crypto/encryption.ts:67 | everything before the last 16 bytes, empty for a shorter array |
| `Encryption.SplitRejoins` | packages/crypto/encryption.ts:63-67 | ciphertext followed by tag is the whole output, at every length |
| `Encryption.EncryptData` | packages/crypto/encryption.ts:22-77 | odd key fails first; every failure prefixed; on success the IV is 24 digits of the random IV and ciphertext ++ tag is the cipher output; under the AES-GCM law the tag is 32 digits |
| `Encryption.Combine` | packages/crypto/encryption.ts:100-103 | the fresh array holds the ciphertext followed by the tag |
| `Encryption.DecryptResult` | packages/crypto/encryption.ts:87-131 | any odd input fails; every failure prefixed; success exactly when decryption of ciphertext ++ tag succeeds, with its UTF-8 text |
| `Encryption.DecryptData` | packages/crypto/encryption.ts:93-131 | the four decodings, the in-place recombination and the decryption yield exactly that outcome |
| `Encryption.DecryptInvertsEncrypt` | packages/crypto/encryption.ts:22-131 | decrypting encryptData's payload with the same key gives the text back |
| `Hashing.Sha256` | apps/web/lib/HashingUtils.ts:17-27 | 64 lower-case digits that decode to the digest of the UTF-8 bytes |
| `Hashing.Sha512` | apps/web/lib/HashingUtils.ts:32-41 | 128 lower-case digits that decode to the SHA-512 digest |
| `Hashing.DigestHasNoColon` | apps/web/lib/HashingUtils.ts:82 | a hex digest contains no ':' |
| `Hashing.PreimageFields` | apps/web/lib/HashingUtils.ts:56 | for colon-free dni and key the preimage splits back into the three fields |
| `Hashing.PreimageDeterminesInputs` | apps/web/lib/HashingUtils.ts:50-62 | for colon-free dni and key the preimage determines dni, key and timestamp |
| `Hashing.GenerateUniqueIdentifier` | apps/web/lib/HashingUtils.ts:50-62 | 64 digits that decode to the digest of exactly that preimage |
| `Hashing.GenerateSalt` | apps/web/lib/HashingUtils.ts:67-71 | 2n lower-case digits that decode to the n random bytes |
| `Hashing.UsedSalt` | apps/web/lib/HashingUtils.ts:77 | never empty: the given salt if non-empty, else a fresh 32-byte salt |
| `Hashing.Sha256WithSalt` | apps/web/lib/HashingUtils.ts:76-86 | 'SHA-256'; the stored string is the digest of data ++ salt, ':', then the salt |
| `Hashing.StoredHashSplits` | apps/web/lib/HashingUtils.ts:82-95 | with a colon-free salt the stored string splits into digest and salt |
| `Hashing.SaltField` | apps/web/lib/HashingUtils.ts:95 | absent exactly when there is no ':'; otherwise a colon-free field |
| `Hashing.VerifyHashWithSalt` | apps/web/lib/HashingUtils.ts:91-100 | false on a missing or empty salt; true exactly when the input is the digest of data ++ salt, ':', salt |
| `Hashing.VerifyAcceptsOwnHash` | apps/web/lib/HashingUtils.ts:76-100 | the verifier accepts what sha256WithSalt stored for every non-empty colon-free salt |
| `Hashing.ToInt32` | apps/web/lib/HashingUtils.ts:161 | a signed 32-bit value congruent to its argument modulo 2^32 |
| `Hashing.ShiftLeft5` | apps/web/lib/HashingUtils.ts:160 | a signed 32-bit value congruent to 32x modulo 2^32 |
| `Hashing.BitAndSelf` | apps/web/lib/HashingUtils.ts:161 | `x & x` is ToInt32(x) |
| `Hashing.QuickHashValue` | apps/web/lib/HashingUtils.ts:157-162 | the recurrence stays within signed 32 bits |
| `Hashing.QuickHashIsReducedPolynomial` | apps/web/lib/HashingUtils.ts:156-164 | the hash is the base-31 polynomial of the character codes (the UTF-16 code units, for text in the Basic Multilingual Plane) modulo 2^32, read as signed |
| `Hashing.QuickHash` | apps/web/lib/HashingUtils.ts:156-164 | the loop returns that value printed in hex, with '-' when negative |
| `Hashing.LoopStep` | apps/web/lib/HashingUtils.ts:160-161 | one shift-subtract-add-and step is ToInt32(31h + c) |
| `Hashing.QuickHashOfEmpty` | apps/web/lib/HashingUtils.ts:157-163 | the empty string hashes to "0" |
| `BiometricHashing.VerifyHashWithSalt` | apps/web/components/biometric/HashingUtils.ts:84-91 | true exactly when the salt field is present and non-empty and the input is the digest of data ++ salt, ':', salt, although no guard checks the salt |
| `BiometricHashing.RejectsMissingOrEmptySalt` | apps/web/components/biometric/HashingUtils.ts:84-91 | with a missing or empty salt field, the recomputation with a fresh random salt never equals the input |
| `BiometricHashing.VerifiersAgree` | apps/web/components/biometric/HashingUtils.ts:84-91 | both copies of verifyHashWithSalt give the same answer on every input |
| `BiometricHashing.StoredFormHasSalt` | apps/web/components/biometric/HashingUtils.ts:69-79 | the stored string is hex digest, ':' and a non-empty salt |
| `BiometricHashing.VerifyAcceptsOwnHash` | apps/web/components/biometric/HashingUtils.ts:69-91 | the round trip holds for this copy too |
| `MockData.Pick` | apps/web/lib/MockDataGenerator.ts:37-38 | `Math.floor(r * n)` is an index below n |
| `MockData.ValidateDni` | apps/web/lib/MockDataGenerator.ts:133-135 | true exactly for strings of 7 or 8 ASCII digits |
| `MockData.CompletedYearsUnique` | apps/web/lib/MockDataGenerator.ts:156-167 | at most one number of completed years |
| `MockData.CompletedYearsClosedForm` | apps/web/lib/MockDataGenerator.ts:159-164 | completed years are the year difference, one less before the birthday |
| `MockData.CalculateAge` | apps/web/lib/MockDataGenerator.ts:156-167 | NaN exactly for an unparsable date; otherwise the completed years |
| `MockData.ValidateAge` | apps/web/lib/MockDataGenerator.ts:140-151 | true exactly when the date parses and its 18th anniversary is on or before today |
| `MockData.ValidateAgeMatchesCalculateAge` | apps/web/lib/MockDataGenerator.ts:140-167 | validateAge holds exactly when calculateAge is at least 18 |
| `MockData.AgeFromDraw` | apps/web/lib/MockDataGenerator.ts:41 | the age lies in [18, 64] |
| `MockData.YoungestDrawCanBeMinor` | apps/web/lib/MockDataGenerator.ts:31-67 | the lowest age draw and late month and day draws give age 18 and `<year - 18>-12-28`, 17 completed years on 1 January, rejected by validateAge |
| `MockData.TwoDigits` | apps/web/lib/MockDataGenerator.ts:63-64 | two ASCII digits denoting the number |
| `MockData.TwoDigitsIsPaddedString` | apps/web/lib/MockDataGenerator.ts:63-64 | `String(n).padStart(2, '0')` is those two digits |
| `MockData.GenerateBirthDate` | apps/web/lib/MockDataGenerator.ts:57-67 | birth year, '-', a month field 01-12, '-', a day field 01-28 |
| `MockData.BracketNumbersAreValidDnis` | apps/web/lib/MockDataGenerator.ts:84-102 | every number of every bracket passes validateDNI |
| `MockData.GenerateDni` | apps/web/lib/MockDataGenerator.ts:78-103 | decimal digits whose value lies in the bracket of the birth year, accepted by validateDNI |
| `MockData.Generate` | apps/web/lib/MockDataGenerator.ts:33-52 | name from the selected list, listed surname, the birth date for the first clock reading's year, a valid DNI in the bracket for the second reading's year, 'Argentina' |
| `MockOcr.ReportedInOrder` | apps/web/components/camera/MockOCR.ts:96-120 | only messages of failed checks, in strictly increasing check order, at most five |
| `MockOcr.ReportedExactly` | apps/web/components/camera/MockOCR.ts:98-120 | each message reported exactly when its check failed; empty exactly when none failed |
| `MockOcr.ValidateExtractedData` | apps/web/components/camera/MockOCR.ts:92-126 | the pushes yield the messages of the failed checks in order; valid exactly when there are none |
| `MockOcr.ValidationMeaning` | apps/web/components/camera/MockOCR.ts:92-126 | each message exactly when its condition fails (blank names), no repeats, at most five, valid exactly when all pass |
| `IdentityStore.Apply` | apps/web/store/useIdentityStore.ts:37-53 | reset yields the initial state; completeKyc sets completed and step 'completed' |
| `IdentityStore.SettersChangeOnlyTheirField` | apps/web/store/useIdentityStore.ts:37-39 | each setter sets its own field and keeps the other four |
| `IdentityStore.SetProofKeepsOtherTypes` | apps/web/store/useIdentityStore.ts:40-43 | setProof sets its type and keeps every other type and field |
| `IdentityStore.SetProofOverwrites` | apps/web/store/useIdentityStore.ts:40-43 | a later setProof of the same type overwrites the earlier |
| `IdentityStore.SetProofsCommute` | apps/web/store/useIdentityStore.ts:40-43 | proofs of different types can be set in either order |
| `IdentityStore.CompleteKycKeepsTheRest` | apps/web/store/useIdentityStore.ts:44-45 | completeKyc keeps the keys and the proofs |
| `IdentityStore.ResetForgets` | apps/web/store/useIdentityStore.ts:46-53 | whatever preceded a reset, what follows runs as from the initial state |
| `IdentityStore.ResetIdempotent` | apps/web/store/useIdentityStore.ts:46-53 | reset twice is reset once, and both are the initial state |
| `IdentityStore.KycCompletedIff` | apps/web/store/useIdentityStore.ts:44-53 | completed exactly when some completeKyc has no later reset |
| `IdentityStore.CompletedFlagOutlivesStep` | apps/web/store/useIdentityStore.ts:39-45 | after completeKyc, setKycStep('idle') leaves the flag set |
| `IdentityStore.Store.constructor` | apps/web/store/useIdentityStore.ts:30-34 | the store starts in the initial state |
| `IdentityStore.Store.SetStellarPublicKey` | apps/web/store/useIdentityStore.ts:37 | the new state is the transition of the old one |
| `IdentityStore.Store.SetBiometricId` | apps/web/store/useIdentityStore.ts:38 | the new state is the transition of the old one |
| `IdentityStore.Store.SetKycStep` | apps/web/store/useIdentityStore.ts:39 | the new state is the transition of the old one |
| `IdentityStore.Store.SetProof` | apps/web/store/useIdentityStore.ts:40-43 | the new state is the transition of the old one |
| `IdentityStore.Store.CompleteKyc` | apps/web/store/useIdentityStore.ts:44-45 | the new state is the transition of the old one |
| `IdentityStore.Store.Reset` | apps/web/store/useIdentityStore.ts:46-53 | the new state is the transition of the old one, the initial state |
| `Stellar.LoadAndSubmit` | packages/stellar-utils/index.ts:85-116 | success only when the account loaded |
| `Stellar.StoreDataEntry` | packages/stellar-utils/index.ts:69-120 | key guard, then value guard, then load and submit; every failure prefixed |
| `Stellar.GuardsPrecedeNetwork` | packages/stellar-utils/index.ts:76-85 | when a guard trips the network makes no difference and the call fails |
| `Stellar.BoundaryPassesGuards` | packages/stellar-utils/index.ts:76-82 | 64-character key and value reach the network |
| `Stellar.ProofName` | packages/stellar-utils/index.ts:161 | at most 11 characters, no '_' |
| `Stellar.ProofKey` | packages/stellar-utils/index.ts:166 | 12 to 20 characters, starts "zk_", ends "_proof" |
| `Stellar.ProofKeyInjective` | packages/stellar-utils/index.ts:166 | equal keys have equal proof types |
| `Stellar.ProofValue` | packages/stellar-utils/index.ts:169 | the first min(64, length) characters; the hash itself when it fits |
| `Stellar.StoreProofHash` | packages/stellar-utils/index.ts:159-175 | a failure carries both prefixes |
| `Stellar.StoreProofHashPassesGuards` | packages/stellar-utils/index.ts:166-171 | never a guard failure: the network's outcome, prefixed twice on failure |
| `Stellar.ReadDataEntry` | packages/stellar-utils/index.ts:128-150 | a value exactly when the account loads, has data and a non-empty entry; then its decoding |
| `Stellar.ReadProofHash` | packages/stellar-utils/index.ts:183-189 | the same rule for the entry `zk_<type>_proof` |
| `Stellar.ProofEntriesAreSeparate` | packages/stellar-utils/index.ts:187 | different proof types use different entries |
| `Stellar.ReadBackStoredProof` | packages/stellar-utils/index.ts:159-189 | an entry holding the stored value reads back as that value, the hash itself when it fits |
| `Stellar.NativeBalance` | packages/stellar-utils/index.ts:218-222 | "0" when no entry is native |
| `Stellar.FirstNativeBalance` | packages/stellar-utils/index.ts:218-222 | the balance of the first native entry, whatever follows |
| `Stellar.GetAccountBalance` | packages/stellar-utils/index.ts:213-226 | success exactly when the account loads, with its native balance; else the prefixed error |
| `WebAuthn.DetectAuthenticatorType` | apps/web/components/biometric/WebAuthnHelper.ts:27-50 | (false, []) without WebAuthn; available exactly when types is non-empty, types only 'platform', and exactly when the platform query answers true |
| `WebAuthn.ReplaceAll` | apps/web/components/biometric/WebAuthnHelper.ts:156-158 | the replaced character survives only through the replacement; nothing new appears |
| `WebAuthn.Base64UrlRewrite` | apps/web/components/biometric/WebAuthnHelper.ts:155-158 | no '+', '/' or '=' remains |
| `WebAuthn.ChainedRewriteIsPerChar` | apps/web/components/biometric/WebAuthnHelper.ts:155-158 | the three passes equal the one-pass character rewrite |
| `WebAuthn.RewriteIsUrlSafe` | apps/web/components/biometric/WebAuthnHelper.ts:155-158 | base64 text becomes base64url text, shorter by exactly its '=' count |
| `WebAuthn.GenerateChallenge` | apps/web/components/biometric/WebAuthnHelper.ts:152-159 | no '+', '/' or '='; URL-safe alphabet whenever btoa gave base64 |
| `WebAuthn.RegistrationOptions` | apps/web/components/biometric/WebAuthnHelper.ts:70-92 | rp id the host, user id and names as given, ES256 then RS256, platform, verification required |
| `WebAuthn.RegistrationErrorMessage` | apps/web/components/biometric/WebAuthnHelper.ts:107-116 | NotAllowedError and NotSupportedError get fixed messages; any other error its message behind the prefix |
| `WebAuthn.PublicKeyOrEmpty` | apps/web/components/biometric/WebAuthnHelper.ts:99 | a missing public key becomes '' |
| `WebAuthn.RegisterBiometric` | apps/web/components/biometric/WebAuthnHelper.ts:58-117 | without WebAuthn the prefixed unavailable message; success exactly when registration returns: its id, its key or '', credentialId decoded from the id, 'ES256'; every other failure mapped by name |
| `WebAuthn.RegistrationFailuresAreMapped` | apps/web/components/biometric/WebAuthnHelper.ts:107-116 | every failure message is one of the three forms |

## Left out

- The `secrets.js` library: its `share` and `combine` are uninterpreted functions that may fail. No GF(2^8) arithmetic or k-of-n threshold property is claimed. The module-level cache of the loaded library is environment plumbing and is not modelled.
- AES-GCM, SHA-256/512, `getRandomValues`, `TextEncoder` and `TextDecoder` are uninterpreted. `importKey` and `encrypt`/`decrypt` are one call each.
- `btoa`, `atob`, `encodeURIComponent`, `escape` and `Buffer.from(·, 'base64')` are parameters. `stringToBase64` and `base64ToString` are not modelled: they are only these library calls.
- `generateRandomBytes`, `hashObject` and `generateRandomKeyBase64` are not modelled. They only compose a random source, `JSON.stringify` or `btoa` with helpers that are modelled.
- `generateFingerprintHash`, `generateBatch`, `extractDNIData` and `analyzeImageQuality` are not modelled, because they depend on `Math.random`, the clock or timers.
- `verifyBiometric` is not modelled: it only relays `startAuthentication` and maps any failure to false.
- The Horizon server, Freighter signing, transaction building and submission are not modelled; one submission function stands for all of them.
- `connectWallet`, `fundTestnetAccount` and `verifyProofOnChain` (a timer, then always true) are not modelled.
- `Stellar.ReadDataEntry`: an object key such as "constructor" that JavaScript finds on the prototype is not modelled; entries are a map of the account's own data.
- The stubbed packages (crypto/index.ts, zk-circuits/index.ts), the React pages and components, and the timers are not modelled.
- `Math.random` draws are real numbers in [0, 1) passed in; floating-point rounding is not modelled.
- Dates are (year, month, day) triples as the local getters report them. `new Date(text)` is a parser parameter, and an Invalid Date is None. Time zones and `toISOString` are not modelled; the creation time is passed in already printed.
- Strings are sequences of Dafny chars, which are Unicode scalar values. A char equals one JavaScript UTF-16 code unit only for text in the Basic Multilingual Plane, and the model's lengths and character codes match the source only for such text.
- Text outside the Basic Multilingual Plane is not modelled as the source sees it. JavaScript counts such a character as two code units, and `charCodeAt` returns each surrogate separately. The model counts one char and uses its scalar value. This applies to `quickHash`, the 64-unit Stellar guards, and the lengths `trim` and `split` work with.
- Strings holding a lone surrogate cannot be represented at all.
- The Stellar guards compare `length`, which counts code units, not the bytes the network limits.
- Numbers are exact integers. `String(n)` and `toString(radix)` print in exponent form from 1e21 on; the model prints plain digits. No printed value reaches that size: fragment indices, `Date.now()` readings, the signed 32-bit hash and DNIs are all far smaller. Non-integral arguments to `quickHash`-style arithmetic, or non-integral keys and lengths, are not modelled.
- Default arguments are explicit: `timestamp = Date.now()` and `createdAt = new Date()` are required parameters, and the defaults `totalShares = 5`, `threshold = 3` and `length = 32` are constants that callers pass. Console logging (`console.error` in readDataEntry, `console.warn` in detectAuthenticatorType) is not modelled; it has no effect on results.
- `Shamir.TotalSharesGuardUnreachable`: holds for integers only. A NaN threshold passes the first two comparisons and reaches the third check, which the model's integers cannot express.
- A thrown value that is not an `Error` (reported as 'Unknown error') is not modelled; every failure carries a message.
- Promises and `await` are modelled as sequential calls.
- The hex decoders have no well-formed-hex precondition. They are modelled on every input as the code behaves, and the round trips are proved on the encoder's output.

/** packages/crypto/encryption.ts: AES-256-GCM framing. The cipher itself is
    the browser's; the model covers how keys, IVs, ciphertext and tag are
    produced, split, hex-encoded and put back together, and how errors are
    reported. */
module Encryption {
  import opened Outcomes
  import Hex
  import Platform

  type byte = Hex.byte

  /** A 256-bit key, a 96-bit IV and a 128-bit tag (NIST SP 800-38D,
      sections 5.2.1.1 and 5.2.1.2). */
  const KeyLength := 32
  const IvLength := 12
  const TagLength := 16

  /** generateEncryptionKey: 32 random bytes as 64 lower-case hex digits. */
  function GenerateEncryptionKey(rng: Platform.RandomSource): (key: string)
    ensures |key| == 2 * KeyLength
    ensures Hex.IsLowerHexString(key)
    ensures Hex.FromHex(key) == rng(KeyLength)
  {
    Hex.ToHexIsLowerHex(rng(KeyLength));
    Hex.FromHexToHex(rng(KeyLength));
    Hex.ToHex(rng(KeyLength))
  }

  const OddLength := "Invalid hex string length"

  /** What hexToBuffer returns or throws: odd-length input is refused,
      otherwise the decoder's `hex.length / 2` bytes. */
  function HexBytes(hex: string): (r: Result<seq<byte>>)
    ensures r.Failure? <==> |hex| % 2 != 0
    ensures r.Failure? ==> r.error == OddLength
    ensures r.Success? ==> |r.value| == |hex| / 2 && r.value == Hex.FromHex(hex)
  {
    if |hex| % 2 != 0 then Failure(OddLength) else Success(Hex.FromHex(hex))
  }

  /** hexToBuffer: the length check, then the decoding loop. */
  method HexToBuffer(hex: string) returns (r: Result<seq<byte>>)
    ensures r == HexBytes(hex)
  {
    if |hex| % 2 != 0 {
      return Failure(OddLength);
    }
    var bytes := Hex.DecodeHex(hex);
    r := Success(bytes);
  }

  /** hexToBuffer(bufferToHex(b)) gives b back, for every byte sequence. */
  lemma HexToBufferRoundTrip(bs: seq<byte>)
    ensures HexBytes(Hex.ToHex(bs)) == Success(bs)
  {
    Hex.FromHexToHex(bs);
  }

  /** `encryptedArray.slice(-16)`: the last 16 bytes, or all of a shorter
      array. */
  function AuthTagOf(out: seq<byte>): (tag: seq<byte>)
    ensures |tag| == if |out| >= TagLength then TagLength else |out|
    ensures tag == out[|out| - |tag|..]
  {
    if |out| >= TagLength then out[|out| - TagLength..] else out
  }

  /** `encryptedArray.slice(0, -16)`: everything but the last 16 bytes, empty
      for a shorter array. */
  function CiphertextOf(out: seq<byte>): (ct: seq<byte>)
    ensures |ct| == if |out| >= TagLength then |out| - TagLength else 0
    ensures ct == out[..|ct|]
  {
    if |out| >= TagLength then out[..|out| - TagLength] else []
  }

  /** The split loses nothing: ciphertext followed by tag is the whole
      AEAD output, at every length. */
  lemma SplitRejoins(out: seq<byte>)
    ensures CiphertextOf(out) + AuthTagOf(out) == out
  {
    if |out| >= TagLength {
      assert out[..|out| - TagLength] + out[|out| - TagLength..] == out;
    }
  }

  /** The object encryptData returns: three hex strings. */
  datatype EncryptedPayload = EncryptedPayload(encryptedData: string, iv: string, authTag: string)

  const EncryptPrefix := "Encryption failed: "

  /** encryptData. The key is decoded first (so an odd-length key fails
      before anything else), a fresh 12-byte IV is drawn, the UTF-8 text is
      encrypted, and the output is split into ciphertext and trailing tag.
      Every failure is rethrown with EncryptPrefix. */
  function EncryptData(b: Platform.Browser, rng: Platform.RandomSource, data: string, keyHex: string): (r: Result<EncryptedPayload>)
    ensures |keyHex| % 2 != 0 ==> r == Failure(EncryptPrefix + OddLength)
    ensures r.Failure? ==> EncryptPrefix <= r.error
    ensures r.Success? <==>
      |keyHex| % 2 == 0 && b.aesGcmEncrypt(Hex.FromHex(keyHex), rng(IvLength), b.utf8Encode(data)).Success?
    ensures r.Success? ==>
      |r.value.iv| == 2 * IvLength && Hex.FromHex(r.value.iv) == rng(IvLength) &&
      Hex.FromHex(r.value.encryptedData) + Hex.FromHex(r.value.authTag)
        == b.aesGcmEncrypt(Hex.FromHex(keyHex), rng(IvLength), b.utf8Encode(data)).value
    ensures r.Success? && Platform.AesGcmLaws(b) ==>
      |r.value.authTag| == 2 * TagLength && |Hex.FromHex(r.value.encryptedData)| == |b.utf8Encode(data)|
  {
    match HexBytes(keyHex)
    case Failure(e) => Failure(EncryptPrefix + e)
    case Success(key) =>
      var iv := rng(IvLength);
      match b.aesGcmEncrypt(key, iv, b.utf8Encode(data))
      case Failure(e) => Failure(EncryptPrefix + e)
      case Success(out) =>
        Hex.FromHexToHex(iv);
        Hex.FromHexToHex(CiphertextOf(out));
        Hex.FromHexToHex(AuthTagOf(out));
        SplitRejoins(out);
        Success(EncryptedPayload(Hex.ToHex(CiphertextOf(out)), Hex.ToHex(iv), Hex.ToHex(AuthTagOf(out))))
  }

  /** The recombination before decryption: a fresh array of the summed
      length, the ciphertext copied to its front and the tag right after. */
  method Combine(ciphertext: seq<byte>, tag: seq<byte>) returns (combined: seq<byte>)
    ensures combined == ciphertext + tag
  {
    var buffer := new byte[|ciphertext| + |tag|];
    var i := 0;
    while i < |ciphertext|
      invariant 0 <= i <= |ciphertext|
      invariant forall k :: 0 <= k < i ==> buffer[k] == ciphertext[k]
    {
      buffer[i] := ciphertext[i];
      i := i + 1;
    }
    var j := 0;
    while j < |tag|
      invariant 0 <= j <= |tag|
      invariant forall k :: 0 <= k < |ciphertext| ==> buffer[k] == ciphertext[k]
      invariant forall k :: 0 <= k < j ==> buffer[|ciphertext| + k] == tag[k]
    {
      buffer[|ciphertext| + j] := tag[j];
      j := j + 1;
    }
    combined := buffer[..];
  }

  const DecryptPrefix := "Decryption failed: "

  /** What decryptData returns or throws: the four hex strings decoded (an
      odd length in any of them fails), ciphertext and tag recombined, the
      result decrypted and read as UTF-8; failures wrapped with
      DecryptPrefix. */
  function DecryptResult(b: Platform.Browser, encryptedDataHex: string, keyHex: string,
                         ivHex: string, authTagHex: string): (r: Result<string>)
    ensures (|keyHex| % 2 != 0 || |ivHex| % 2 != 0 || |encryptedDataHex| % 2 != 0 || |authTagHex| % 2 != 0)
              ==> r == Failure(DecryptPrefix + OddLength)
    ensures r.Failure? ==> DecryptPrefix <= r.error
    ensures r.Success? <==>
      |keyHex| % 2 == 0 && |ivHex| % 2 == 0 && |encryptedDataHex| % 2 == 0 && |authTagHex| % 2 == 0 &&
      b.aesGcmDecrypt(Hex.FromHex(keyHex), Hex.FromHex(ivHex),
                      Hex.FromHex(encryptedDataHex) + Hex.FromHex(authTagHex)).Success?
    ensures r.Success? ==>
      r.value == b.utf8Decode(b.aesGcmDecrypt(Hex.FromHex(keyHex), Hex.FromHex(ivHex),
                                              Hex.FromHex(encryptedDataHex) + Hex.FromHex(authTagHex)).value)
  {
    match (HexBytes(keyHex), HexBytes(ivHex), HexBytes(encryptedDataHex), HexBytes(authTagHex))
    case (Success(key), Success(iv), Success(ct), Success(tag)) =>
      (match b.aesGcmDecrypt(key, iv, ct + tag)
       case Failure(e) => Failure(DecryptPrefix + e)
       case Success(pt) => Success(b.utf8Decode(pt)))
    case _ => Failure(DecryptPrefix + OddLength)
  }

  /** decryptData: the four hexToBuffer calls in source order, the in-place
      recombination, then the foreign decryption. */
  method DecryptData(b: Platform.Browser, encryptedDataHex: string, keyHex: string,
                     ivHex: string, authTagHex: string) returns (r: Result<string>)
    ensures r == DecryptResult(b, encryptedDataHex, keyHex, ivHex, authTagHex)
  {
    var key := HexToBuffer(keyHex);
    var iv := HexToBuffer(ivHex);
    var ct := HexToBuffer(encryptedDataHex);
    var tag := HexToBuffer(authTagHex);
    if key.Failure? || iv.Failure? || ct.Failure? || tag.Failure? {
      return Failure(DecryptPrefix + OddLength);
    }
    var combined := Combine(ct.value, tag.value);
    var plain := b.aesGcmDecrypt(key.value, iv.value, combined);
    if plain.Failure? {
      return Failure(DecryptPrefix + plain.error);
    }
    r := Success(b.utf8Decode(plain.value));
  }

  /** Decrypting what encryptData produced, with the same key, gives the
      text back, provided the cipher obeys the AES-GCM laws and the text
      survives UTF-8. */
  lemma DecryptInvertsEncrypt(b: Platform.Browser, rng: Platform.RandomSource, data: string, keyHex: string)
    requires Platform.AesGcmLaws(b)
    requires Platform.Utf8RoundTrips(b, data)
    requires EncryptData(b, rng, data, keyHex).Success?
    ensures var p := EncryptData(b, rng, data, keyHex).value;
            DecryptResult(b, p.encryptedData, keyHex, p.iv, p.authTag) == Success(data)
  {
    var p := EncryptData(b, rng, data, keyHex).value;
    var key := Hex.FromHex(keyHex);
    var iv := rng(IvLength);
    var out := b.aesGcmEncrypt(key, iv, b.utf8Encode(data)).value;
    assert |p.iv| % 2 == 0;
    assert |p.encryptedData| == 2 * |CiphertextOf(out)|;
    assert |p.authTag| == 2 * |AuthTagOf(out)|;
    assert b.aesGcmDecrypt(key, iv, out) == Success(b.utf8Encode(data));
  }
}

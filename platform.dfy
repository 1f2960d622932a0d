/** The browser primitives the TypeScript code calls but does not define:
    `crypto.getRandomValues`, `TextEncoder` / `TextDecoder`,
    `crypto.subtle.digest` and the AES-GCM `importKey` + `encrypt` /
    `decrypt` pairs. Each is an uninterpreted function; only the facts the
    callers rely on are stated: the number of random bytes, the digest
    lengths, and (as hypotheses of the lemmas that need them) the AES-GCM
    length law and round trip of NIST SP 800-38D and the UTF-8 round trip. */
module Platform {
  import opened Outcomes
  import Hex

  type byte = Hex.byte

  /** `crypto.getRandomValues(new Uint8Array(n))`: whatever the generator
      chooses, exactly n bytes. Every call site receives its own source. */
  type RandomSource = f: nat -> seq<byte> | forall n: nat :: |f(n)| == n
    witness (n: nat) => seq(n, _ => 0)

  /** A SHA-256 digest: 32 bytes. */
  type Digest32 = s: seq<byte> | |s| == 32 witness seq(32, _ => 0)

  /** A SHA-512 digest: 64 bytes. */
  type Digest64 = s: seq<byte> | |s| == 64 witness seq(64, _ => 0)

  /** The primitives of one browser. An AES-GCM call takes the raw key bytes,
      the IV bytes and the input; it stands for `importKey('raw', ...)`
      followed by `encrypt` or `decrypt` with a 128-bit tag, and fails with
      the message of the DOMException either step raises. */
  datatype Browser = Browser(
    utf8Encode: string -> seq<byte>,
    utf8Decode: seq<byte> -> string,
    sha256: seq<byte> -> Digest32,
    sha512: seq<byte> -> Digest64,
    aesGcmEncrypt: (seq<byte>, seq<byte>, seq<byte>) -> Result<seq<byte>>,
    aesGcmDecrypt: (seq<byte>, seq<byte>, seq<byte>) -> Result<seq<byte>>)

  /** AES-GCM with a 128-bit tag (NIST SP 800-38D, section 7): a successful
      encryption appends a 16-byte tag, and decrypting that output with the
      same key and IV gives the plaintext back. */
  ghost predicate AesGcmLaws(b: Browser)
  {
    forall key: seq<byte>, iv: seq<byte>, pt: seq<byte> {:trigger b.aesGcmEncrypt(key, iv, pt)} ::
      b.aesGcmEncrypt(key, iv, pt).Success? ==>
        |b.aesGcmEncrypt(key, iv, pt).value| == |pt| + 16 &&
        b.aesGcmDecrypt(key, iv, b.aesGcmEncrypt(key, iv, pt).value) == Success(pt)
  }

  /** The text survives a UTF-8 encode / decode round trip. A Dafny string
      holds Unicode scalar values only, so a conforming codec satisfies this
      for every string; it is a hypothesis because the codec is a parameter. */
  ghost predicate Utf8RoundTrips(b: Browser, s: string)
  {
    b.utf8Decode(b.utf8Encode(s)) == s
  }

  /** The SHA-256 digest of a string's UTF-8 bytes, printed as hex: the shape
      shared by `sha256` in both HashingUtils.ts files and `hashData` in
      encryption.ts. */
  function Sha256Hex(b: Browser, data: string): (r: string)
    ensures |r| == 64
    ensures Hex.IsLowerHexString(r)
  {
    var d := b.sha256(b.utf8Encode(data));
    Hex.ToHexIsLowerHex(d);
    Hex.ToHex(d)
  }

  /** The same for SHA-512: 128 hex characters. */
  function Sha512Hex(b: Browser, data: string): (r: string)
    ensures |r| == 128
    ensures Hex.IsLowerHexString(r)
  {
    var d := b.sha512(b.utf8Encode(data));
    Hex.ToHexIsLowerHex(d);
    Hex.ToHex(d)
  }
}

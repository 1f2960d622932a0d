/** apps/web/components/biometric/WebAuthnHelper.ts: the WebAuthn wrapper.
    The browser's credential APIs and `@simplewebauthn/browser` are
    parameters; the model covers the availability rule, the authenticator
    list, the challenge's base64url rewrite, the registration options and
    result, and the error-name mapping. Its hex helpers are the shared ones
    of module Hex. */
module WebAuthn {
  import opened Outcomes
  import Hex
  import Platform

  type byte = Hex.byte

  /** A thrown JavaScript error: its `name` and `message`. */
  datatype JsError = JsError(name: string, message: string)

  /** The outcome of a call into the WebAuthn library: a value or a thrown
      error with a name. */
  datatype Thrown<+T> = Returned(value: T) | Threw(error: JsError)

  /** The fields of `credential` the helper reads: `id` and
      `response.publicKey`, which may be missing. */
  datatype Registration = Registration(id: string, publicKey: Option<string>)

  /** `pubKeyCredParams` entries: COSE algorithm numbers (RFC 8152, section
      8.1, and RFC 8812, section 2). */
  const Es256 := -7
  const Rs256 := -257

  /** The registration options the helper builds (rp, user, algorithms,
      timeout and authenticator selection). */
  datatype CreationOptions = CreationOptions(
    challenge: string, rpName: string, rpId: string,
    userId: string, userName: string, displayName: string,
    algorithms: seq<int>, timeout: nat, attestation: string,
    authenticatorAttachment: string, requireResidentKey: bool, userVerification: string)

  /** What the page's browser offers: the three features the availability
      check tests, the platform-authenticator query (which may throw), the
      page's host name, and the library's registration ceremony. */
  datatype Browser = Browser(
    hasPublicKeyCredential: bool,
    hasCredentials: bool,
    hasCreate: bool,
    platformAuthenticatorAvailable: Thrown<bool>,
    hostname: string,
    startRegistration: CreationOptions -> Thrown<Registration>)

  /** isWebAuthnAvailable: all three of PublicKeyCredential,
      navigator.credentials and its `create` exist. */
  predicate IsWebAuthnAvailable(b: Browser)
  {
    b.hasPublicKeyCredential && b.hasCredentials && b.hasCreate
  }

  /** The object detectAuthenticatorType returns. */
  datatype AuthenticatorInfo = AuthenticatorInfo(available: bool, types: seq<string>)

  const PlatformType := "platform"

  /** detectAuthenticatorType: nothing when WebAuthn is missing; otherwise
      'platform' is pushed when the platform query answers true (a throwing
      query is swallowed), and the result is available when anything was
      pushed. */
  method DetectAuthenticatorType(b: Browser) returns (info: AuthenticatorInfo)
    ensures !IsWebAuthnAvailable(b) ==> info == AuthenticatorInfo(false, [])
    ensures info.available <==> |info.types| > 0
    ensures forall t :: t in info.types ==> t == PlatformType
    ensures info.available <==> IsWebAuthnAvailable(b) && b.platformAuthenticatorAvailable == Returned(true)
  {
    if !IsWebAuthnAvailable(b) {
      return AuthenticatorInfo(false, []);
    }
    var types: seq<string> := [];
    match b.platformAuthenticatorAvailable {
      case Returned(yes) =>
        if yes {
          types := types + [PlatformType];
        }
      case Threw(_) =>
    }
    info := AuthenticatorInfo(|types| > 0, types);
  }

  /** `s.replace(/c/g, r)`: every occurrence of the character c replaced by
      the string r. */
  function ReplaceAll(s: string, c: char, r: string): (t: string)
    ensures c !in r ==> c !in t
    ensures forall d :: d in t ==> d in r || (d in s && d != c)
    decreases |s|
  {
    if s == [] then []
    else (if s[0] == c then r else [s[0]]) + ReplaceAll(s[1..], c, r)
  }

  /** The three chained replacements of generateChallenge: base64 to the
      URL-safe alphabet without padding (RFC 4648, section 5). */
  function Base64UrlRewrite(s: string): (t: string)
    ensures '+' !in t && '/' !in t && '=' !in t
  {
    ReplaceAll(ReplaceAll(ReplaceAll(s, '+', "-"), '/', "_"), '=', "")
  }

  /** The rewrite of one character. */
  function UrlSafe(c: char): string
  {
    if c == '+' then "-" else if c == '/' then "_" else if c == '=' then "" else [c]
  }

  /** The rewrite done in one pass, character by character: the reference
      the chained replacements are compared with. */
  function RewriteEachChar(s: string): string
    decreases |s|
  {
    if s == [] then [] else UrlSafe(s[0]) + RewriteEachChar(s[1..])
  }

  /** A replacement distributes over concatenation. */
  lemma {:induction false} ReplaceAllAppend(a: string, b: string, c: char, r: string)
    ensures ReplaceAll(a + b, c, r) == ReplaceAll(a, c, r) + ReplaceAll(b, c, r)
    decreases |a|
  {
    if a != [] {
      var head := if a[0] == c then r else [a[0]];
      assert (a + b)[0] == a[0];
      assert (a + b)[1..] == a[1..] + b;
      assert ReplaceAll(a + b, c, r) == head + ReplaceAll(a[1..] + b, c, r);
      ReplaceAllAppend(a[1..], b, c, r);
    } else {
      assert a + b == b;
    }
  }

  /** The three passes agree with the one-pass rewrite, on every string. */
  lemma {:induction false} ChainedRewriteIsPerChar(s: string)
    ensures Base64UrlRewrite(s) == RewriteEachChar(s)
    decreases |s|
  {
    if s != [] {
      var head := if s[0] == '+' then "-" else [s[0]];
      var p1 := ReplaceAll(s, '+', "-");
      assert p1 == head + ReplaceAll(s[1..], '+', "-");
      var head2 := if head == "/" then "_" else head;
      ReplaceAllAppend(head, ReplaceAll(s[1..], '+', "-"), '/', "_");
      assert ReplaceAll(head, '/', "_") == head2 by {
        assert head[1..] == [];
      }
      ReplaceAllAppend(head2, ReplaceAll(ReplaceAll(s[1..], '+', "-"), '/', "_"), '=', "");
      assert ReplaceAll(head2, '=', "") == UrlSafe(s[0]) by {
        assert head2[1..] == [];
      }
      ChainedRewriteIsPerChar(s[1..]);
    }
  }

  /** The standard base64 alphabet with its padding character. */
  predicate IsBase64Char(c: char)
  {
    'A' <= c <= 'Z' || 'a' <= c <= 'z' || '0' <= c <= '9' || c == '+' || c == '/' || c == '='
  }

  /** The URL-safe base64 alphabet. */
  predicate IsBase64UrlChar(c: char)
  {
    'A' <= c <= 'Z' || 'a' <= c <= 'z' || '0' <= c <= '9' || c == '-' || c == '_'
  }

  /** The rewrite of standard base64 text uses only the URL-safe alphabet,
      keeps every letter and digit, and drops exactly the padding. */
  lemma {:induction false} RewriteIsUrlSafe(s: string)
    requires forall c :: c in s ==> IsBase64Char(c)
    ensures forall c :: c in Base64UrlRewrite(s) ==> IsBase64UrlChar(c)
    ensures |Base64UrlRewrite(s)| == |s| - multiset(s)['=']
    decreases |s|
  {
    ChainedRewriteIsPerChar(s);
    PerCharFacts(s);
  }

  lemma {:induction false} PerCharFacts(s: string)
    requires forall c :: c in s ==> IsBase64Char(c)
    ensures forall c :: c in RewriteEachChar(s) ==> IsBase64UrlChar(c)
    ensures |RewriteEachChar(s)| == |s| - multiset(s)['=']
    decreases |s|
  {
    if s != [] {
      assert s == [s[0]] + s[1..];
      assert multiset(s) == multiset([s[0]]) + multiset(s[1..]);
      PerCharFacts(s[1..]);
      assert forall c :: c in UrlSafe(s[0]) ==> IsBase64UrlChar(c) by {
        assert IsBase64Char(s[0]);
      }
    }
  }

  /** The length of `new Uint8Array(32)`. */
  const ChallengeLength := 32

  /** generateChallenge: 32 random bytes, base64-encoded by `btoa` (over
      the binary string of the bytes), then rewritten to base64url. */
  function GenerateChallenge(rng: Platform.RandomSource, btoa: seq<byte> -> string): (challenge: string)
    ensures '+' !in challenge && '/' !in challenge && '=' !in challenge
    ensures (forall c :: c in btoa(rng(ChallengeLength)) ==> IsBase64Char(c)) ==>
              forall c :: c in challenge ==> IsBase64UrlChar(c)
  {
    var encoded := btoa(rng(ChallengeLength));
    if forall c :: c in encoded ==> IsBase64Char(c) then
      RewriteIsUrlSafe(encoded);
      Base64UrlRewrite(encoded)
    else
      Base64UrlRewrite(encoded)
  }

  /** The options registerBiometric passes to startRegistration. */
  function RegistrationOptions(challenge: string, hostname: string, userId: string, userName: string): (o: CreationOptions)
    ensures o.userName == o.displayName == userName && o.userId == userId && o.rpId == hostname
    ensures o.algorithms == [Es256, Rs256]
    ensures o.authenticatorAttachment == PlatformType && o.userVerification == "required" && !o.requireResidentKey
  {
    CreationOptions(challenge, "ZK Identity Stellar", hostname, userId, userName, userName,
                    [Es256, Rs256], 60000, "none", PlatformType, false, "required")
  }

  /** The credential registerBiometric returns. */
  datatype BiometricCredential = BiometricCredential(id: string, publicKey: string, credentialId: seq<byte>, algorithm: string)

  const Unavailable := "WebAuthn is not available in this browser"
  const Cancelled := "Registration cancelled by user"
  const NotSupported := "Biometric authentication not supported on this device"
  const RegistrationPrefix := "Biometric registration error: "

  /** The catch block of registerBiometric: two error names get their own
      message, every other error is reported with its message behind
      RegistrationPrefix. */
  function RegistrationErrorMessage(e: JsError): (m: string)
    ensures e.name == "NotAllowedError" ==> m == Cancelled
    ensures e.name == "NotSupportedError" ==> m == NotSupported
    ensures e.name != "NotAllowedError" && e.name != "NotSupportedError" ==> m == RegistrationPrefix + e.message
  {
    if e.name == "NotAllowedError" then Cancelled
    else if e.name == "NotSupportedError" then NotSupported
    else RegistrationPrefix + e.message
  }

  /** `credential.response.publicKey || ''`. */
  function PublicKeyOrEmpty(p: Option<string>): (k: string)
    ensures p.None? ==> k == ""
    ensures p.Some? ==> k == p.value
  {
    match p
    case None => ""
    case Some(k) => k
  }

  /** registerBiometric. When WebAuthn is missing, the helper's own
      `new Error(...)` (name "Error") goes through the same catch block;
      otherwise the library registers with the options above and the
      response becomes a credential with algorithm 'ES256'. */
  function RegisterBiometric(b: Browser, rng: Platform.RandomSource, btoa: seq<byte> -> string,
                             userId: string, userName: string): (r: Result<BiometricCredential>)
    ensures !IsWebAuthnAvailable(b) ==> r == Failure(RegistrationPrefix + Unavailable)
    ensures r.Success? ==> r.value.algorithm == "ES256"
    ensures r.Success? <==>
      (IsWebAuthnAvailable(b) &&
       b.startRegistration(RegistrationOptions(GenerateChallenge(rng, btoa), b.hostname, userId, userName)).Returned?)
    ensures r.Success? ==>
      var reg := b.startRegistration(RegistrationOptions(GenerateChallenge(rng, btoa), b.hostname, userId, userName)).value;
      r.value.id == reg.id && r.value.publicKey == PublicKeyOrEmpty(reg.publicKey) &&
      r.value.credentialId == Hex.FromHex(reg.id)
    ensures r.Failure? && IsWebAuthnAvailable(b) ==>
      r.error == RegistrationErrorMessage(
        b.startRegistration(RegistrationOptions(GenerateChallenge(rng, btoa), b.hostname, userId, userName)).error)
  {
    if !IsWebAuthnAvailable(b) then
      Failure(RegistrationErrorMessage(JsError("Error", Unavailable)))
    else
      var options := RegistrationOptions(GenerateChallenge(rng, btoa), b.hostname, userId, userName);
      match b.startRegistration(options)
      case Threw(e) => Failure(RegistrationErrorMessage(e))
      case Returned(reg) =>
        Success(BiometricCredential(reg.id, PublicKeyOrEmpty(reg.publicKey), Hex.FromHex(reg.id), "ES256"))
  }

  /** Every registration failure message is one of the three forms. */
  lemma RegistrationFailuresAreMapped(b: Browser, rng: Platform.RandomSource, btoa: seq<byte> -> string,
                                      userId: string, userName: string)
    ensures var r := RegisterBiometric(b, rng, btoa, userId, userName);
      r.Failure? ==> r.error == Cancelled || r.error == NotSupported || RegistrationPrefix <= r.error
  {
  }
}

/** packages/crypto/shamir.ts: the validation and formatting around the
    `secrets.js` Shamir library. The library's `share` and `combine` are
    uninterpreted; what is modelled is the order of the parameter guards, the
    error wrapping, the UTF-8 <-> hex codec, fragment metadata, and the share
    format check. */
module Shamir {
  import opened Outcomes
  import Numerals
  import JsText
  import Hex
  import Platform

  /** SHAMIR_CONFIG: 3-of-5. */
  const DefaultTotalShares: int := 5
  const DefaultThreshold: int := 3

  /** The two entry points of `secrets.js-34r7h` the wrapper calls; either may
      throw, with the message carried by Failure. */
  datatype SecretsLib = SecretsLib(
    share: (string, int, int) -> Result<seq<string>>,
    combine: seq<string> -> Result<string>)

  const NotInBrowser := "Shamir secret sharing can only be used in the browser"

  /** getSecretsLib: refuses outside a browser (`window` undefined); inside
      one the dynamic import yields the library or fails. */
  function GetSecretsLib(inBrowser: bool, load: Result<SecretsLib>): (r: Result<SecretsLib>)
    ensures !inBrowser ==> r == Failure(NotInBrowser)
    ensures inBrowser ==> r == load
  {
    if !inBrowser then Failure(NotInBrowser) else load
  }

  /** The three parameter checks of createShamirShares, in source order; None
      when all pass. */
  function ShareGuard(totalShares: int, threshold: int): (g: Option<string>)
    ensures threshold > totalShares ==> g == Some("Threshold cannot be greater than total shares")
    ensures threshold <= totalShares && threshold < 2 ==> g == Some("Threshold must be at least 2")
    ensures g == None <==> 2 <= threshold <= totalShares
  {
    if threshold > totalShares then Some("Threshold cannot be greater than total shares")
    else if threshold < 2 then Some("Threshold must be at least 2")
    else if totalShares < 2 then Some("Total shares must be at least 2")
    else None
  }

  /** For integer arguments the third check can never fire: the first two
      already force totalShares >= threshold >= 2. (A NaN threshold makes
      both earlier comparisons false, so there it is reachable; integers do
      not include NaN.) */
  lemma TotalSharesGuardUnreachable(totalShares: int, threshold: int)
    ensures ShareGuard(totalShares, threshold) != Some("Total shares must be at least 2")
  {
  }

  /** stringToHex: the UTF-8 bytes of the text, two lower-case hex digits
      per byte. */
  function StringToHex(b: Platform.Browser, str: string): (r: string)
    ensures |r| == 2 * |b.utf8Encode(str)|
    ensures Hex.IsLowerHexString(r)
    ensures forall i :: 0 <= i < |b.utf8Encode(str)| ==> r[2 * i..2 * i + 2] == Hex.ByteToHex(b.utf8Encode(str)[i])
  {
    Hex.ToHexIsLowerHex(b.utf8Encode(str));
    Hex.ToHex(b.utf8Encode(str))
  }

  /** hexToString: the decoding loop, then TextDecoder. */
  method HexToString(b: Platform.Browser, hex: string) returns (str: string)
    ensures str == b.utf8Decode(Hex.FromHex(hex))
  {
    var bytes := Hex.DecodeHex(hex);
    str := b.utf8Decode(bytes);
  }

  /** hexToString undoes stringToHex on the byte level, hence on every text
      that survives UTF-8 encoding. */
  lemma HexToStringInvertsStringToHex(b: Platform.Browser, str: string)
    ensures Hex.FromHex(StringToHex(b, str)) == b.utf8Encode(str)
    ensures Platform.Utf8RoundTrips(b, str) ==> b.utf8Decode(Hex.FromHex(StringToHex(b, str))) == str
  {
    Hex.FromHexToHex(b.utf8Encode(str));
  }

  const CreatePrefix := "Failed to create Shamir shares: "

  /** createShamirShares: the guards (thrown unwrapped), then inside the
      try block the library load and `share` of the hex-encoded secret, any
      failure of which is rethrown with CreatePrefix. */
  function CreateShamirShares(b: Platform.Browser, inBrowser: bool, load: Result<SecretsLib>,
                              secret: string, totalShares: int, threshold: int): (r: Result<seq<string>>)
    ensures ShareGuard(totalShares, threshold).Some? ==> r == Failure(ShareGuard(totalShares, threshold).value)
    ensures ShareGuard(totalShares, threshold).None? && !inBrowser ==> r == Failure(CreatePrefix + NotInBrowser)
    ensures ShareGuard(totalShares, threshold).None? && r.Failure? ==> CreatePrefix <= r.error
    ensures r.Success? <==>
      2 <= threshold <= totalShares && inBrowser && load.Success? &&
      load.value.share(StringToHex(b, secret), totalShares, threshold).Success?
    ensures r.Success? ==> r == load.value.share(StringToHex(b, secret), totalShares, threshold)
  {
    match ShareGuard(totalShares, threshold)
    case Some(message) => Failure(message)
    case None =>
      var attempt :=
        match GetSecretsLib(inBrowser, load)
        case Failure(e) => Failure(e)
        case Success(lib) => lib.share(StringToHex(b, secret), totalShares, threshold);
      WrapFailure(attempt, CreatePrefix)
  }

  /** All guards run before the library is touched: when one fails, neither
      the environment nor the library matters. */
  lemma ShareGuardsPrecedeLibrary(b: Platform.Browser, inBrowser1: bool, load1: Result<SecretsLib>,
                                  inBrowser2: bool, load2: Result<SecretsLib>,
                                  secret: string, totalShares: int, threshold: int)
    requires ShareGuard(totalShares, threshold).Some?
    ensures CreateShamirShares(b, inBrowser1, load1, secret, totalShares, threshold)
         == CreateShamirShares(b, inBrowser2, load2, secret, totalShares, threshold)
  {
  }

  /** The two checks of reconstructFromShares; None when they pass. */
  function ReconstructGuard(shares: seq<string>): (g: Option<string>)
    ensures |shares| == 0 ==> g == Some("No shares provided for reconstruction")
    ensures |shares| == 1 ==> g == Some("At least 2 shares are required for reconstruction")
    ensures g == None <==> |shares| >= 2
  {
    if |shares| == 0 then Some("No shares provided for reconstruction")
    else if |shares| < 2 then Some("At least 2 shares are required for reconstruction")
    else None
  }

  const ReconstructPrefix := "Failed to reconstruct from shares: "

  /** reconstructFromShares: the guards, then the library load, `combine`, and
      hexToString of the combined hex, failures wrapped with
      ReconstructPrefix. The wrapper itself never checks the count against
      the threshold; that is left to the library. */
  function ReconstructFromShares(b: Platform.Browser, inBrowser: bool, load: Result<SecretsLib>,
                                 shares: seq<string>): (r: Result<string>)
    ensures ReconstructGuard(shares).Some? ==> r == Failure(ReconstructGuard(shares).value)
    ensures |shares| >= 2 && !inBrowser ==> r == Failure(ReconstructPrefix + NotInBrowser)
    ensures |shares| >= 2 && r.Failure? ==> ReconstructPrefix <= r.error
    ensures r.Success? <==> |shares| >= 2 && inBrowser && load.Success? && load.value.combine(shares).Success?
    ensures r.Success? ==> r.value == b.utf8Decode(Hex.FromHex(load.value.combine(shares).value))
  {
    match ReconstructGuard(shares)
    case Some(message) => Failure(message)
    case None =>
      var attempt :=
        match GetSecretsLib(inBrowser, load)
        case Failure(e) => Failure(e)
        case Success(lib) =>
          match lib.combine(shares)
          case Failure(e) => Failure(e)
          case Success(hexSecret) => Success(b.utf8Decode(Hex.FromHex(hexSecret)));
      WrapFailure(attempt, ReconstructPrefix)
  }

  /** If the library's combine returns the hex it was given by share, reconstruction
      returns the original secret whenever createShamirShares succeeded. */
  lemma ReconstructAfterCreate(b: Platform.Browser, lib: SecretsLib, secret: string,
                               totalShares: int, threshold: int, shares: seq<string>)
    requires CreateShamirShares(b, true, Success(lib), secret, totalShares, threshold) == Success(shares)
    requires |shares| >= 2
    requires lib.combine(shares) == Success(StringToHex(b, secret))
    requires Platform.Utf8RoundTrips(b, secret)
    ensures ReconstructFromShares(b, true, Success(lib), shares) == Success(secret)
  {
    HexToStringInvertsStringToHex(b, secret);
  }

  /** testReconstruction: true exactly when reconstruction succeeds with the
      expected text; every failure becomes false. */
  function TestReconstruction(b: Platform.Browser, inBrowser: bool, load: Result<SecretsLib>,
                              shares: seq<string>, originalSecret: string): (ok: bool)
    ensures ok <==> ReconstructFromShares(b, inBrowser, load, shares) == Success(originalSecret)
    ensures |shares| < 2 ==> !ok
  {
    match ReconstructFromShares(b, inBrowser, load, shares)
    case Success(s) => s == originalSecret
    case Failure(_) => false
  }

  /** The storage locations, by fragment index. */
  const Locations: seq<string> := ["local", "stellar", "supabase", "redis", "ipfs"]

  /** getLocationByIndex: the index-th location, and 'unknown' past the end
      or before the start (where `locations[index]` is undefined). */
  function GetLocationByIndex(index: int): (loc: string)
    ensures 0 <= index < |Locations| ==> loc == Locations[index]
    ensures loc == "unknown" <==> !(0 <= index < |Locations|)
  {
    if 0 <= index < |Locations| then Locations[index] else "unknown"
  }

  /** Distinct indices in range are routed to distinct locations. */
  lemma LocationsAreDistinct(i: int, j: int)
    requires 0 <= i < |Locations| && 0 <= j < |Locations| && i != j
    ensures GetLocationByIndex(i) != GetLocationByIndex(j)
  {
  }

  /** The object generateFragmentMetadata returns. */
  datatype FragmentMetadata = FragmentMetadata(
    index: int, totalFragments: int, threshold: int,
    createdAt: string, id: string, location: string)

  /** The fragment id `frag_<index>_<now>`. */
  function FragmentId(index: int, now: int): (id: string)
    ensures JsText.Split(id, '_') == ["frag", Numerals.IntToString(index, 10), Numerals.IntToString(now, 10)]
  {
    var a := Numerals.IntToString(index, 10);
    var t := Numerals.IntToString(now, 10);
    NoUnderscore(index);
    NoUnderscore(now);
    JsText.SplitAtSeparator("frag", '_', a + "_" + t);
    JsText.SplitTwoFields(a, '_', t);
    assert "frag" + "_" + a + "_" + t == "frag" + ['_'] + (a + ['_'] + t);
    "frag" + "_" + a + "_" + t
  }

  lemma NoUnderscore(i: int)
    ensures '_' !in Numerals.IntToString(i, 10)
  {
    var s := Numerals.IntToString(i, 10);
    forall k | 0 <= k < |s|
      ensures s[k] != '_'
    {
      assert s[k] == '-' || Numerals.IsDigitChar(s[k], 10);
    }
  }

  /** generateFragmentMetadata: the three numbers copied unchanged, the
      caller's creation time (already printed by toISOString), the id built
      from the index and the clock reading, and the routed location. */
  function GenerateFragmentMetadata(fragmentIndex: int, totalFragments: int, threshold: int,
                                    createdAtIso: string, now: int): (m: FragmentMetadata)
    ensures m.index == fragmentIndex && m.totalFragments == totalFragments && m.threshold == threshold
    ensures m.createdAt == createdAtIso
    ensures m.location == GetLocationByIndex(fragmentIndex)
    ensures JsText.Split(m.id, '_') == ["frag", Numerals.IntToString(fragmentIndex, 10), Numerals.IntToString(now, 10)]
  {
    FragmentMetadata(fragmentIndex, totalFragments, threshold, createdAtIso,
                     FragmentId(fragmentIndex, now), GetLocationByIndex(fragmentIndex))
  }

  /** The id determines the index and the clock reading: fragments with
      different indices never share an id. */
  lemma {:induction false} FragmentIdInjective(i1: int, t1: int, i2: int, t2: int)
    requires FragmentId(i1, t1) == FragmentId(i2, t2)
    ensures i1 == i2 && t1 == t2
  {
    var p1 := JsText.Split(FragmentId(i1, t1), '_');
    var p2 := JsText.Split(FragmentId(i2, t2), '_');
    assert p1 == p2;
    assert p1[1] == Numerals.IntToString(i1, 10) && p2[1] == Numerals.IntToString(i2, 10);
    assert p1[2] == Numerals.IntToString(t1, 10) && p2[2] == Numerals.IntToString(t2, 10);
    Numerals.IntToStringInjective(i1, i2, 10);
    Numerals.IntToStringInjective(t1, t2, 10);
  }

  /** validateShare: the empty string is falsy; otherwise the string must
      match `/^[0-9a-fA-F]+$/`. */
  function ValidateShare(share: string): (ok: bool)
    ensures ok <==> |share| > 0 && Hex.IsHexString(share)
  {
    JsText.MatchesRepeatIff(share, Hex.IsHexDigit, 1, None);
    if share == "" then false else JsText.MatchesRepeat(share, Hex.IsHexDigit, 1, None)
  }

  /** Every non-empty output of the encoder is a valid share. */
  lemma EncodedSharesValidate(bs: seq<Hex.byte>)
    requires |bs| > 0
    ensures ValidateShare(Hex.ToHex(bs))
  {
    Hex.ToHexIsLowerHex(bs);
    Hex.LowerHexIsHex(Hex.ToHex(bs));
  }

  /** getMinimumSharesNeeded ignores its argument and reports the default
      threshold. */
  function GetMinimumSharesNeeded(share: string): (n: int)
    ensures n == DefaultThreshold
  {
    3
  }

  /** That many shares always clear reconstructFromShares' own checks. */
  lemma MinimumSharesPassGuard(share: string, shares: seq<string>)
    requires |shares| == GetMinimumSharesNeeded(share)
    ensures ReconstructGuard(shares) == None
  {
  }

  /** The 3-of-5 defaults pass createShamirShares' checks. */
  lemma DefaultsPassGuard()
    ensures ShareGuard(DefaultTotalShares, DefaultThreshold) == None
  {
  }
}

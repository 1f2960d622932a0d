/** The byte/hex conversions that packages/crypto/shamir.ts,
    packages/crypto/encryption.ts, both HashingUtils.ts files and
    WebAuthnHelper.ts each spell out in the same way: every encoder prints
    each byte as two lower-case radix-16 digits, left-padded with '0', and
    joins them; every decoder allocates a byte array of half the string's
    length and stores, at index i / 2, the radix-16 parse of the
    two-character substring starting at each even index i.

    The decoder is modelled on every input, not only on well-formed hex:
    `parseInt` is modelled as ECMAScript defines it, a Uint8Array stores NaN
    as 0 and other numbers modulo 256, its length `hex.length / 2` is
    truncated, and the write past the end that an odd-length input causes is
    dropped, as typed arrays do. */
module Hex {
  import opened Outcomes
  import Numerals
  import JsText

  type byte = x: int | 0 <= x < 256

  /** The class `[0-9a-fA-F]`. */
  predicate IsHexDigit(c: char)
  {
    '0' <= c <= '9' || 'a' <= c <= 'f' || 'A' <= c <= 'F'
  }

  function HexDigitValue(c: char): (v: nat)
    requires IsHexDigit(c)
    ensures v < 16
  {
    if '0' <= c <= '9' then (c as int) - ('0' as int)
    else if 'a' <= c <= 'f' then (c as int) - ('a' as int) + 10
    else (c as int) - ('A' as int) + 10
  }

  /** The two characters `b.toString(16).padStart(2, '0')` prints: the high
      and the low nibble as lower-case digits (ByteToHexIsPaddedString shows
      the two agree). */
  function ByteToHex(b: byte): (r: string)
    ensures |r| == 2
    ensures Numerals.IsLowerDigit(r[0]) && Numerals.DigitValue(r[0]) == b / 16
    ensures Numerals.IsLowerDigit(r[1]) && Numerals.DigitValue(r[1]) == b % 16
  {
    [Numerals.DigitChar(b / 16), Numerals.DigitChar(b % 16)]
  }

  /** The JavaScript spelling: radix-16 `toString`, left-padded with '0' to
      two characters, is the nibble pair. */
  lemma ByteToHexIsPaddedString(b: byte)
    ensures Numerals.PadStart(Numerals.NatToString(b, 16), 2, '0') == ByteToHex(b)
  {
    assert b == (b / 16) * 16 + b % 16;
    Numerals.PadTwoDigits(b / 16, b % 16, 16);
  }

  /** The encoder: two lower-case, zero-padded hex digits per byte, high
      nibble first, in byte order. */
  function ToHex(bs: seq<byte>): (r: string)
    ensures |r| == 2 * |bs|
    ensures forall i :: 0 <= i < |bs| ==> r[2 * i..2 * i + 2] == ByteToHex(bs[i])
  {
    if bs == [] then ""
    else
      var head := ByteToHex(bs[0]);
      var rest := ToHex(bs[1..]);
      var r := head + rest;
      assert forall i :: 1 <= i < |bs| ==> bs[1..][i - 1] == bs[i] && r[2 * i..2 * i + 2] == rest[2 * (i - 1)..2 * (i - 1) + 2];
      r
  }

  /** The longest prefix of s made of hex digits. */
  function HexDigitPrefix(s: string): (z: string)
    ensures z <= s
    ensures forall k :: 0 <= k < |z| ==> IsHexDigit(z[k])
    ensures |z| < |s| ==> !IsHexDigit(s[|z|])
  {
    if |s| > 0 && IsHexDigit(s[0]) then [s[0]] + HexDigitPrefix(s[1..]) else []
  }

  /** The number a string of hex digits denotes. */
  function HexValue(z: string): nat
    requires forall k :: 0 <= k < |z| ==> IsHexDigit(z[k])
  {
    if z == [] then 0 else HexValue(z[..|z| - 1]) * 16 + HexDigitValue(z[|z| - 1])
  }

  /** `parseInt(s, 16)`, None standing for NaN: skip leading whitespace, take an
      optional sign, drop a `0x`/`0X` prefix, then read the longest run of hex
      digits; no digits at all is NaN. */
  function ParseIntHex(s: string): Option<int>
  {
    var t := JsText.TrimStart(s);
    var negative := |t| > 0 && t[0] == '-';
    var u := if |t| > 0 && (t[0] == '-' || t[0] == '+') then t[1..] else t;
    var w := if |u| >= 2 && u[0] == '0' && (u[1] == 'x' || u[1] == 'X') then u[2..] else u;
    var z := HexDigitPrefix(w);
    var v: int := if z == [] then 0 else HexValue(z);
    if z == [] then None else Some(if negative then -v else v)
  }

  /** What a Uint8Array element holds after being assigned a number. */
  function ToUint8(v: Option<int>): byte
  {
    match v
    case None => 0
    case Some(x) => x % 256
  }

  /** `hex.substr(i, 2)` */
  function Substr2(hex: string, i: nat): string
    requires i < |hex|
  {
    hex[i..if i + 2 <= |hex| then i + 2 else |hex|]
  }

  /** The byte the loop stores for the pair starting at index i. */
  function PairByte(hex: string, i: nat): byte
    requires i < |hex|
  {
    ToUint8(ParseIntHex(Substr2(hex, i)))
  }

  /** The bytes the decoder returns: `hex.length / 2` of them (truncated), the
      k-th parsed from the pair at 2k. */
  function FromHex(hex: string): seq<byte>
  {
    seq(|hex| / 2, k requires 0 <= k < |hex| / 2 => PairByte(hex, 2 * k))
  }

  /** On a string of hex digits the digit prefix is the whole string. */
  lemma {:induction false} HexDigitPrefixOfDigits(s: string)
    requires forall k :: 0 <= k < |s| ==> IsHexDigit(s[k])
    ensures HexDigitPrefix(s) == s
    decreases |s|
  {
    if s != [] {
      HexDigitPrefixOfDigits(s[1..]);
      assert [s[0]] + s[1..] == s;
    }
  }

  /** The value of two hex digits. */
  lemma HexValueOfPair(c: char, d: char)
    requires IsHexDigit(c) && IsHexDigit(d)
    ensures HexValue([c, d]) == 16 * HexDigitValue(c) + HexDigitValue(d)
  {
    assert [c, d][..1] == [c];
    assert [c][..0] == [];
    assert HexValue([c]) == HexDigitValue(c);
    assert HexValue([c, d]) == HexValue([c]) * 16 + HexDigitValue(d);
  }

  /** `parseInt` of two hex digits is their two-digit value. */
  lemma ParseIntHexOfPair(c: char, d: char)
    requires IsHexDigit(c) && IsHexDigit(d)
    ensures ParseIntHex([c, d]) == Some(16 * HexDigitValue(c) + HexDigitValue(d))
  {
    var s := [c, d];
    assert !JsText.IsWhitespace(s[0]);
    assert JsText.TrimStart(s) == s;
    HexDigitPrefixOfDigits(s);
    HexValueOfPair(c, d);
  }

  /** On two hex digits the parse is the two-digit value. */
  lemma PairByteOfDigits(hex: string, i: nat)
    requires i + 1 < |hex| && IsHexDigit(hex[i]) && IsHexDigit(hex[i + 1])
    ensures PairByte(hex, i) == 16 * HexDigitValue(hex[i]) + HexDigitValue(hex[i + 1])
  {
    var c, d := hex[i], hex[i + 1];
    assert Substr2(hex, i) == [c, d];
    ParseIntHexOfPair(c, d);
    StoredAsIs(16 * HexDigitValue(c) + HexDigitValue(d));
  }

  /** A number below 256 is stored unchanged. */
  lemma StoredAsIs(v: int)
    requires 0 <= v < 256
    ensures ToUint8(Some(v)) == v
  {
  }

  /** A lower-case digit is a hex digit of the same value. */
  lemma LowerDigitIsHexDigit(c: char)
    requires Numerals.IsLowerDigit(c)
    ensures IsHexDigit(c) && HexDigitValue(c) == Numerals.DigitValue(c)
  {
  }

  /** The two digits ByteToHex prints read back, as hex, to the byte. */
  lemma ByteToHexValue(b: byte)
    ensures IsHexDigit(ByteToHex(b)[0]) && IsHexDigit(ByteToHex(b)[1])
    ensures 16 * HexDigitValue(ByteToHex(b)[0]) + HexDigitValue(ByteToHex(b)[1]) == b
  {
    var pair := ByteToHex(b);
    LowerDigitIsHexDigit(pair[0]);
    LowerDigitIsHexDigit(pair[1]);
    assert 16 * (b / 16) + b % 16 == b;
  }

  /** The pair the encoder prints for byte k decodes to byte k. */
  lemma ToHexPairDecodes(bs: seq<byte>, k: nat)
    requires k < |bs|
    ensures PairByte(ToHex(bs), 2 * k) == bs[k]
  {
    ToHexAt(bs, k);
    ByteToHexValue(bs[k]);
    PairByteOfDigits(ToHex(bs), 2 * k);
  }

  /** Characters 2k and 2k + 1 of the encoding are the digits of byte k. */
  lemma ToHexAt(bs: seq<byte>, k: nat)
    requires k < |bs|
    ensures ToHex(bs)[2 * k] == ByteToHex(bs[k])[0] && ToHex(bs)[2 * k + 1] == ByteToHex(bs[k])[1]
  {
    var hex := ToHex(bs);
    assert hex[2 * k..2 * k + 2] == ByteToHex(bs[k]);
  }

  /** Decoding the encoder's output gives back the bytes. */
  lemma FromHexToHex(bs: seq<byte>)
    ensures FromHex(ToHex(bs)) == bs
  {
    var hex := ToHex(bs);
    assert |FromHex(hex)| == |bs|;
    forall k | 0 <= k < |bs|
      ensures FromHex(hex)[k] == bs[k]
    {
      ToHexPairDecodes(bs, k);
    }
  }

  /** Every character is a hex digit. */
  predicate IsHexString(s: string)
  {
    forall k :: 0 <= k < |s| ==> IsHexDigit(s[k])
  }

  /** Every character is one of `0-9a-f`. */
  predicate IsLowerHexString(s: string)
  {
    forall k :: 0 <= k < |s| ==> Numerals.IsLowerDigit(s[k])
  }

  /** Lower-case hex is hex, and contains no character outside `0-9a-f`
      (in particular no ':' and no '_'). */
  lemma LowerHexIsHex(s: string)
    requires IsLowerHexString(s)
    ensures IsHexString(s)
    ensures forall c :: c in s ==> Numerals.IsLowerDigit(c)
  {
    forall k | 0 <= k < |s|
      ensures IsHexDigit(s[k])
    {
      LowerDigitIsHexDigit(s[k]);
    }
  }

  /** The encoder prints lower-case hex digits only. */
  lemma ToHexIsLowerHex(bs: seq<byte>)
    ensures IsLowerHexString(ToHex(bs))
  {
    var hex := ToHex(bs);
    forall k | 0 <= k < |hex|
      ensures Numerals.IsLowerDigit(hex[k])
    {
      var i := k / 2;
      var pair := ByteToHex(bs[i]);
      assert hex[2 * i..2 * i + 2] == pair;
      assert hex[k] == pair[k - 2 * i];
    }
  }

  /** The decoder's loop, filling a fresh buffer two characters at a time;
      j counts the pairs read, so i is always 2 * j. */
  method DecodeHex(hex: string) returns (bytes: seq<byte>)
    ensures bytes == FromHex(hex)
  {
    var n := |hex| / 2;
    assert 2 * n <= |hex| < 2 * n + 2;
    var buffer := new byte[n];
    var i := 0;
    ghost var j := 0;
    while i < |hex|
      invariant i == 2 * j && 0 <= j <= n + 1
      invariant buffer.Length == n
      invariant forall k :: 0 <= k < n && k < j ==> buffer[k] == PairByte(hex, 2 * k)
    {
      assert i / 2 == j;
      if i / 2 < buffer.Length {
        buffer[i / 2] := PairByte(hex, i);
      }
      i := i + 2;
      j := j + 1;
    }
    assert n <= j;
    bytes := buffer[..];
    assert |bytes| == |FromHex(hex)|;
    assert forall k :: 0 <= k < n ==> bytes[k] == FromHex(hex)[k];
  }
}

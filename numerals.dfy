/** `Number.prototype.toString(radix)` on integers, `String(n)`, and
    `String.prototype.padStart`. */
module Numerals {

  /** A character of the lower-case digit alphabet `toString(radix)` prints for
      radices up to 16. */
  predicate IsLowerDigit(c: char)
  {
    '0' <= c <= '9' || 'a' <= c <= 'f'
  }

  /** The value of one digit character. */
  function DigitValue(c: char): (v: nat)
    requires IsLowerDigit(c)
    ensures v < 16
  {
    if '0' <= c <= '9' then (c as int) - ('0' as int) else (c as int) - ('a' as int) + 10
  }

  /** A digit of the given radix. */
  predicate IsDigitChar(c: char, radix: nat)
  {
    IsLowerDigit(c) && DigitValue(c) < radix
  }

  /** The character that prints digit d: the inverse of DigitValue. */
  function DigitChar(d: nat): (c: char)
    requires d < 16
    ensures IsLowerDigit(c) && DigitValue(c) == d
  {
    if d < 10 then ((('0' as int) + d) as char) else ((('a' as int) + d - 10) as char)
  }

  lemma DivMod(n: nat, radix: nat)
    requires radix >= 2
    ensures n == (n / radix) * radix + n % radix
    ensures 0 <= n % radix < radix
    ensures n >= radix ==> n / radix < n
  {
  }

  /** `n.toString(radix)` for a non-negative integer: most significant digit
      first, no leading zeros. */
  function NatToString(n: nat, radix: nat): (s: string)
    requires 2 <= radix <= 16
    ensures |s| >= 1
    ensures forall k :: 0 <= k < |s| ==> IsDigitChar(s[k], radix)
    ensures |s| > 1 ==> s[0] != '0'
    decreases n
  {
    DivMod(n, radix);
    if n < radix then [DigitChar(n)]
    else NatToString(n / radix, radix) + [DigitChar(n % radix)]
  }

  /** `i.toString(radix)` for any integer, and `String(i)` when radix is 10. */
  function IntToString(i: int, radix: nat): (s: string)
    requires 2 <= radix <= 16
    ensures |s| >= 1
    ensures s[0] == '-' <==> i < 0
    ensures forall k :: 0 <= k < |s| ==> s[k] == '-' || IsDigitChar(s[k], radix)
  {
    if i < 0 then "-" + NatToString(-i, radix) else NatToString(i, radix)
  }

  /** The number a string of digits denotes, read most significant digit first. */
  function ValueOf(s: string, radix: nat): nat
    requires 2 <= radix <= 16
    requires forall k :: 0 <= k < |s| ==> IsDigitChar(s[k], radix)
  {
    if s == [] then 0
    else
      assert IsDigitChar(s[|s| - 1], radix);
      ValueOf(s[..|s| - 1], radix) * radix + DigitValue(s[|s| - 1])
  }

  /** Reading the digits back gives the number: NatToString loses nothing. */
  lemma {:induction false} ValueOfNatToString(n: nat, radix: nat)
    requires 2 <= radix <= 16
    ensures ValueOf(NatToString(n, radix), radix) == n
    decreases n
  {
    var s := NatToString(n, radix);
    DivMod(n, radix);
    if n < radix {
      assert s[..0] == [];
    } else {
      ValueOfNatToString(n / radix, radix);
      assert s[..|s| - 1] == NatToString(n / radix, radix);
    }
  }

  /** Distinct naturals print differently. */
  lemma NatToStringInjective(a: nat, b: nat, radix: nat)
    requires 2 <= radix <= 16
    requires NatToString(a, radix) == NatToString(b, radix)
    ensures a == b
  {
    ValueOfNatToString(a, radix);
    ValueOfNatToString(b, radix);
  }

  /** Distinct integers print differently. */
  lemma IntToStringInjective(i: int, j: int, radix: nat)
    requires 2 <= radix <= 16
    requires IntToString(i, radix) == IntToString(j, radix)
    ensures i == j
  {
    var s := IntToString(i, radix);
    if i < 0 {
      assert j < 0;
      assert s[1..] == NatToString(-i, radix);
      assert s[1..] == NatToString(-j, radix);
      NatToStringInjective(-i, -j, radix);
    } else {
      assert j >= 0;
      NatToStringInjective(i, j, radix);
    }
  }

  function Pow(b: nat, k: nat): (p: nat)
    ensures b >= 1 ==> p >= 1
  {
    if k == 0 then 1 else b * Pow(b, k - 1)
  }

  lemma MulCancelLess(d: nat, a: int, b: int)
    requires d > 0 && d * a < d * b
    ensures a < b
  {
  }

  lemma MulCancelLessEq(d: nat, a: int, b: int)
    requires d > 0 && d * a <= d * b
    ensures a <= b
  {
    assert d * (b + 1) == d * b + d;
    MulCancelLess(d, a, b + 1);
  }

  lemma DivBounds(n: nat, d: nat, lo: nat, hi: nat)
    requires d >= 2 && d * lo <= n < d * hi
    ensures lo <= n / d < hi
  {
    var q := n / d;
    DivMod(n, d);
    assert d * lo < d * (q + 1);
    MulCancelLess(d, lo, q + 1);
    assert d * q <= n < d * hi;
    MulCancelLess(d, q, hi);
  }

  /** A number in [radix^(k-1), radix^k) has exactly k digits. */
  lemma {:induction false} NatToStringLength(n: nat, radix: nat, k: nat)
    requires 2 <= radix <= 16 && k >= 1
    requires Pow(radix, k - 1) <= n < Pow(radix, k)
    ensures |NatToString(n, radix)| == k
    decreases k
  {
    if k > 1 {
      var p := Pow(radix, k - 2);
      var q := Pow(radix, k - 1);
      assert q == radix * p;
      assert Pow(radix, k) == radix * q;
      MulAtLeast(p, radix);
      DivBounds(n, radix, p, q);
      NatToStringLength(n / radix, radix, k - 1);
    }
  }

  /** `s.padStart(len, fill)` with a one-character fill string. */
  function PadStart(s: string, len: nat, fill: char): (r: string)
    ensures |r| == if |s| >= len then |s| else len
    ensures r[|r| - |s|..] == s
    ensures forall k :: 0 <= k < |r| - |s| ==> r[k] == fill
  {
    if |s| >= len then s else seq(len - |s|, _ => fill) + s
  }

  /** A value below the radix prints as one digit. */
  lemma OneDigitString(v: nat, radix: nat)
    requires 2 <= radix <= 16 && v < radix
    ensures NatToString(v, radix) == [DigitChar(v)]
  {
  }

  lemma MulAtLeast(k: nat, d: nat)
    requires k >= 1
    ensures k * d >= d
  {
    var m: nat := k - 1;
    assert k * d == m * d + d;
  }

  /** A larger factor gives a product larger by at least the other factor. */
  lemma MulGap(a: nat, b: nat, d: nat)
    ensures a > b ==> a * d >= b * d + d
  {
    if a > b {
      var k: nat := a - b;
      assert a * d == k * d + b * d;
      MulAtLeast(k, d);
    }
  }

  /** Quotient and remainder are unique. */
  lemma DivModUnique(hi: nat, lo: nat, radix: nat)
    requires 2 <= radix && lo < radix
    ensures (hi * radix + lo) / radix == hi && (hi * radix + lo) % radix == lo
  {
    var v := hi * radix + lo;
    var q := v / radix;
    DivMod(v, radix);
    MulGap(q, hi, radix);
    MulGap(hi, q, radix);
  }

  /** Two digits hi, lo printed in radix and padded to two places:
      `(hi * radix + lo).toString(radix).padStart(2, '0')` is the pair. */
  lemma PadTwoDigits(hi: nat, lo: nat, radix: nat)
    requires 2 <= radix <= 16 && hi < radix && lo < radix
    ensures PadStart(NatToString(hi * radix + lo, radix), 2, '0') == [DigitChar(hi), DigitChar(lo)]
  {
    var v := hi * radix + lo;
    if hi == 0 {
      assert v == lo;
      OneDigitString(lo, radix);
      assert DigitChar(0) == '0';
      assert PadStart([DigitChar(lo)], 2, '0') == ['0', DigitChar(lo)];
    } else {
      assert v >= radix;
      DivModUnique(hi, lo, radix);
      OneDigitString(hi, radix);
      assert NatToString(v, radix) == NatToString(hi, radix) + [DigitChar(lo)];
    }
  }
}

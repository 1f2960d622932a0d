/** The pieces of JavaScript's string library the core relies on: the
    whitespace set of `trim` and `parseInt`, `trim`, `split` on one
    character, and a matcher for the one-class regular expressions
    `/^[class]{min,max}$/` and `/^[class]+$/`. A Dafny `char` is a Unicode
    scalar value, which is one UTF-16 code unit of a JavaScript string only
    for text in the Basic Multilingual Plane; the model is faithful to the
    source's lengths and character codes for such text. */
module JsText {
  import opened Outcomes

  /** WhiteSpace and LineTerminator code points (sections 12.2 and 12.3 of
      ECMA-262): TAB, VT, FF, SP, NBSP, ZWNBSP, the Zs space separators, LF,
      CR, LS and PS. */
  predicate IsWhitespace(c: char)
  {
    var u := c as int;
    u == 0x09 || u == 0x0B || u == 0x0C || u == 0x20 || u == 0xA0 || u == 0xFEFF ||
    u == 0x1680 || (0x2000 <= u <= 0x200A) || u == 0x202F || u == 0x205F || u == 0x3000 ||
    u == 0x0A || u == 0x0D || u == 0x2028 || u == 0x2029
  }

  /** Every character is whitespace (the empty string included). */
  predicate Blank(s: string)
  {
    forall k :: 0 <= k < |s| ==> IsWhitespace(s[k])
  }

  /** `s.trimStart()` */
  function TrimStart(s: string): string
  {
    if |s| > 0 && IsWhitespace(s[0]) then TrimStart(s[1..]) else s
  }

  /** `s.trimEnd()` */
  function TrimEnd(s: string): string
  {
    if |s| > 0 && IsWhitespace(s[|s| - 1]) then TrimEnd(s[..|s| - 1]) else s
  }

  /** `s.trim()` */
  function Trim(s: string): string
  {
    TrimEnd(TrimStart(s))
  }

  lemma {:induction false} TrimStartEmptyIffBlank(s: string)
    ensures TrimStart(s) == "" <==> Blank(s)
    ensures TrimStart(s) != "" ==> !IsWhitespace(TrimStart(s)[0])
    decreases |s|
  {
    if |s| > 0 && IsWhitespace(s[0]) {
      TrimStartEmptyIffBlank(s[1..]);
      assert Blank(s) <==> Blank(s[1..]) by {
        assert forall k :: 0 <= k < |s[1..]| ==> s[1..][k] == s[k + 1];
      }
    }
  }

  lemma {:induction false} TrimEndEmptyIffBlank(s: string)
    ensures TrimEnd(s) == "" <==> Blank(s)
    decreases |s|
  {
    if |s| > 0 && IsWhitespace(s[|s| - 1]) {
      var t := s[..|s| - 1];
      TrimEndEmptyIffBlank(t);
      assert Blank(s) <==> Blank(t) by {
        assert forall k :: 0 <= k < |t| ==> t[k] == s[k];
      }
    }
  }

  /** A string trims to nothing exactly when it consists of whitespace only. */
  lemma TrimEmptyIffBlank(s: string)
    ensures Trim(s) == "" <==> Blank(s)
  {
    TrimStartEmptyIffBlank(s);
    TrimEndEmptyIffBlank(TrimStart(s));
  }

  /** `s.split(sep)` for a one-character separator: the pieces between
      separators, in order; a string without one is a single piece. */
  function Split(s: string, sep: char): (parts: seq<string>)
    ensures |parts| >= 1
    decreases |s|
  {
    if s == [] then [""]
    else if s[0] == sep then [""] + Split(s[1..], sep)
    else
      var rest := Split(s[1..], sep);
      [[s[0]] + rest[0]] + rest[1..]
  }

  lemma {:induction false} SplitWithoutSeparator(s: string, sep: char)
    requires sep !in s
    ensures Split(s, sep) == [s]
    decreases |s|
  {
    if s != [] {
      SplitWithoutSeparator(s[1..], sep);
      assert [s[0]] + s[1..] == s;
    }
  }

  /** Splitting at the first separator: the text before it is the first piece. */
  lemma {:induction false} SplitAtSeparator(a: string, sep: char, b: string)
    requires sep !in a
    ensures Split(a + [sep] + b, sep) == [a] + Split(b, sep)
    decreases |a|
  {
    var s := a + [sep] + b;
    if a == [] {
      assert s[1..] == b;
    } else {
      assert s[0] == a[0] && s[1..] == a[1..] + [sep] + b;
      SplitAtSeparator(a[1..], sep, b);
      assert [a[0]] + a[1..] == a;
    }
  }

  /** `x.split(sep)` of `x = a + sep + b` is `[a, b]` when neither contains sep. */
  lemma SplitTwoFields(a: string, sep: char, b: string)
    requires sep !in a && sep !in b
    ensures Split(a + [sep] + b, sep) == [a, b]
  {
    SplitAtSeparator(a, sep, b);
    SplitWithoutSeparator(b, sep);
  }

  /** A string that contains the separator splits into at least two pieces. */
  lemma {:induction false} SeparatorSplits(s: string, sep: char)
    requires sep in s
    ensures |Split(s, sep)| >= 2
    decreases |s|
  {
    if s[0] != sep {
      assert s == [s[0]] + s[1..];
      SeparatorSplits(s[1..], sep);
    }
  }

  /** Exactly the strings without the separator come out as one piece. */
  lemma OnePieceIffNoSeparator(s: string, sep: char)
    ensures |Split(s, sep)| == 1 <==> sep !in s
  {
    if sep in s {
      SeparatorSplits(s, sep);
    } else {
      SplitWithoutSeparator(s, sep);
    }
  }

  /** No piece contains the separator. */
  lemma {:induction false} SplitPartsHaveNoSeparator(s: string, sep: char)
    ensures forall i :: 0 <= i < |Split(s, sep)| ==> sep !in Split(s, sep)[i]
    decreases |s|
  {
    if s != [] {
      SplitPartsHaveNoSeparator(s[1..], sep);
    }
  }

  /** Whether the whole of s matches `^[cls]{min,max}$`, with max None for an
      unbounded repetition (`+` is min 1, max None); matched one character at a
      time from the left. */
  predicate MatchesRepeat(s: string, cls: char -> bool, min: nat, max: Option<nat>)
    decreases |s|
  {
    if s == [] then min == 0
    else
      max != Some(0) && cls(s[0]) &&
      MatchesRepeat(s[1..], cls, if min > 0 then min - 1 else 0,
                    if max.Some? && max.value > 0 then Some(max.value - 1) else None)
  }

  /** The regular expression accepts exactly the strings of the class with a
      length in [min, max]. */
  lemma {:induction false} MatchesRepeatIff(s: string, cls: char -> bool, min: nat, max: Option<nat>)
    ensures MatchesRepeat(s, cls, min, max) <==>
            min <= |s| && (max.Some? ==> |s| <= max.value) &&
            forall k :: 0 <= k < |s| ==> cls(s[k])
    decreases |s|
  {
    if s != [] {
      var min' := if min > 0 then min - 1 else 0;
      var max' := if max.Some? && max.value > 0 then Some(max.value - 1) else None;
      MatchesRepeatIff(s[1..], cls, min', max');
      assert (forall k :: 0 <= k < |s| ==> cls(s[k])) <==>
             cls(s[0]) && forall k :: 0 <= k < |s[1..]| ==> cls(s[1..][k]) by {
        assert forall k :: 0 <= k < |s[1..]| ==> s[1..][k] == s[k + 1];
      }
    }
  }
}

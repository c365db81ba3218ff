/** The text primitives every rule engine leans on, written to behave like the
    Python built-ins the engines call: `str.strip()`, `str.lower()`, the
    substring test `needle in hay`, `sep.join(parts)` and `str(n)` of an
    integer. */
module Strings {

  /** Python's `str.isspace()`: exactly the characters `strip()` removes and the
      regular-expression class `\s` matches. */
  predicate IsSpace(c: char) {
    var n := c as int;
    || 9 <= n <= 13
    || 28 <= n <= 32
    || n == 0x85 || n == 0xA0 || n == 0x1680
    || 0x2000 <= n <= 0x200A
    || n == 0x2028 || n == 0x2029 || n == 0x202F || n == 0x205F || n == 0x3000
  }

  /** An ASCII decimal digit. */
  predicate IsDigit(c: char) {
    '0' <= c <= '9'
  }

  predicate AllDigits(s: string) {
    forall i :: 0 <= i < |s| ==> IsDigit(s[i])
  }

  /** An upper-case letter of ASCII or of Latin-1 (which holds Å, Ä, Ö and É). */
  predicate IsUpper(c: char) {
    || 'A' <= c <= 'Z'
    || ('\U{C0}' <= c <= '\U{DE}' && c != '\U{D7}')
  }

  /** `str.lower()` on one character: an upper-case letter becomes its
      lower-case partner, 32 code points further on; all else is unchanged. */
  function Lower(c: char): (d: char)
    ensures !IsUpper(d)
    ensures IsUpper(c) ==> d as int == c as int + 32
    ensures !IsUpper(c) ==> d == c
  {
    if IsUpper(c) then (c as int + 32) as char else c
  }

  /** `str.lower()`: lowers every character and keeps the length. */
  function LowerStr(s: string): (r: string)
    ensures |r| == |s|
    ensures forall i :: 0 <= i < |s| ==> r[i] == Lower(s[i])
  {
    seq(|s|, i requires 0 <= i < |s| => Lower(s[i]))
  }

  /** Drops the leading white space. */
  function TrimStart(s: string): (r: string)
    ensures |r| <= |s| && r == s[|s| - |r|..]
  {
    if |s| > 0 && IsSpace(s[0]) then TrimStart(s[1..]) else s
  }

  /** Drops the trailing white space. */
  function TrimEnd(s: string): (r: string)
    ensures |r| <= |s| && r == s[..|r|]
  {
    if |s| > 0 && IsSpace(s[|s| - 1]) then TrimEnd(s[..|s| - 1]) else s
  }

  /** What `TrimStart` removed is white space, and what it kept does not start with any. */
  lemma {:induction false} TrimStartSpec(s: string)
    ensures |TrimStart(s)| > 0 ==> !IsSpace(TrimStart(s)[0])
    ensures forall i :: 0 <= i < |s| - |TrimStart(s)| ==> IsSpace(s[i])
  {
    if |s| > 0 && IsSpace(s[0]) {
      var t := s[1..];
      TrimStartSpec(t);
      assert TrimStart(s) == TrimStart(t);
      forall i | 0 <= i < |s| - |TrimStart(s)|
        ensures IsSpace(s[i])
      {
        if i > 0 {
          assert s[i] == t[i - 1];
        }
      }
    }
  }

  /** What `TrimEnd` removed is white space, and what it kept does not end with any. */
  lemma {:induction false} TrimEndSpec(s: string)
    ensures |TrimEnd(s)| > 0 ==> !IsSpace(TrimEnd(s)[|TrimEnd(s)| - 1])
    ensures forall i :: |TrimEnd(s)| <= i < |s| ==> IsSpace(s[i])
  {
    if |s| > 0 && IsSpace(s[|s| - 1]) {
      TrimEndSpec(s[..|s| - 1]);
    }
  }

  /** `str.strip()`. */
  function Trim(s: string): string {
    TrimEnd(TrimStart(s))
  }

  /** `str(x).strip().lower()`, the normal form every engine compares text in. */
  function NormText(s: string): string {
    LowerStr(Trim(s))
  }

  /** A string that neither starts nor ends with white space is its own strip. */
  lemma TrimOfTrimmed(s: string)
    requires |s| > 0 ==> !IsSpace(s[0]) && !IsSpace(s[|s| - 1])
    ensures Trim(s) == s
  {
  }

  /** A text with no upper-case letter and no white space at either end is
      its own normal form. */
  lemma NormTextOfNormal(s: string)
    requires |s| > 0 ==> !IsSpace(s[0]) && !IsSpace(s[|s| - 1])
    requires forall i :: 0 <= i < |s| ==> !IsUpper(s[i])
    ensures NormText(s) == s
  {
    TrimOfTrimmed(s);
  }

  /** Stripping leaves nothing exactly when the text is all white space. */
  lemma TrimEmptyIff(s: string)
    ensures Trim(s) == "" <==> forall i :: 0 <= i < |s| ==> IsSpace(s[i])
  {
    if forall i :: 0 <= i < |s| ==> IsSpace(s[i]) {
      AllSpaceTrimsEmpty(s);
    } else {
      var k :| 0 <= k < |s| && !IsSpace(s[k]);
      NonSpaceSurvivesTrim(s, k);
    }
  }

  /** Stripping white space only leaves nothing. */
  lemma AllSpaceTrimsEmpty(s: string)
    requires forall i :: 0 <= i < |s| ==> IsSpace(s[i])
    ensures |Trim(s)| == 0
  {
    TrimStartKeepsFirst(s);
  }

  /** The first character `TrimStart` keeps is not white space. */
  lemma TrimStartKeepsFirst(s: string)
    ensures |TrimStart(s)| > 0 ==> !IsSpace(s[|s| - |TrimStart(s)|])
  {
    TrimStartSpec(s);
    var t := TrimStart(s);
    if |t| > 0 {
      assert t[0] == s[|s| - |t|];
    }
  }

  /** Stripping keeps every character that is not white space. */
  lemma NonSpaceSurvivesTrim(s: string, k: nat)
    requires k < |s| && !IsSpace(s[k])
    ensures |Trim(s)| > 0
  {
    var t := TrimStart(s);
    TrimStartSpec(s);
    TrimEndSpec(t);
    assert k >= |s| - |t|;
    var j := k - (|s| - |t|);
    assert t[j] == s[k];
    assert j < |TrimEnd(t)|;
  }

  /** `s.startswith(p)`. */
  predicate StartsWith(s: string, p: string) {
    |p| <= |s| && s[..|p|] == p
  }

  /** Python's `needle in hay`: some position of `hay` starts with `needle`. */
  predicate Contains(hay: string, needle: string)
    decreases |hay|
  {
    StartsWith(hay, needle) || (|hay| > 0 && Contains(hay[1..], needle))
  }

  /** Every slice of a string is contained in it. */
  lemma {:induction false} ContainsSlice(hay: string, i: nat, j: nat)
    requires i <= j <= |hay|
    ensures Contains(hay, hay[i..j])
    decreases i
  {
    if i == 0 {
      assert hay[..j - i] == hay[i..j];
    } else {
      assert hay[1..][i - 1..j - 1] == hay[i..j];
      ContainsSlice(hay[1..], i - 1, j - 1);
    }
  }

  /** `needle` occurs in `hay` starting at position `i`. */
  predicate OccursAt(hay: string, needle: string, i: nat) {
    i + |needle| <= |hay| && hay[i..i + |needle|] == needle
  }

  /** `needle in hay` holds exactly when the needle occurs at some position. */
  lemma ContainsIff(hay: string, needle: string)
    ensures Contains(hay, needle) <==> exists i: nat :: OccursAt(hay, needle, i)
  {
    if Contains(hay, needle) {
      ContainsHasOccurrence(hay, needle);
    }
    if exists i: nat :: OccursAt(hay, needle, i) {
      var i: nat :| OccursAt(hay, needle, i);
      ContainsSlice(hay, i, i + |needle|);
    }
  }

  /** A contained needle occurs at some position. */
  lemma {:induction false} ContainsHasOccurrence(hay: string, needle: string)
    requires Contains(hay, needle)
    ensures exists i: nat :: OccursAt(hay, needle, i)
    decreases |hay|
  {
    if StartsWith(hay, needle) {
      assert OccursAt(hay, needle, 0);
    } else {
      ContainsHasOccurrence(hay[1..], needle);
      var i: nat :| OccursAt(hay[1..], needle, i);
      assert hay[1..][i..i + |needle|] == hay[i + 1..i + 1 + |needle|];
      assert OccursAt(hay, needle, i + 1);
    }
  }

  /** A needle whose first character never occurs in `hay` is not found in it. */
  lemma {:induction false} NotContainsAbsentChar(hay: string, needle: string)
    requires |needle| > 0
    requires forall i :: 0 <= i < |hay| ==> hay[i] != needle[0]
    ensures !Contains(hay, needle)
    decreases |hay|
  {
    if |hay| > 0 {
      if |needle| <= |hay| {
        assert hay[..|needle|][0] != needle[0];
      }
      NotContainsAbsentChar(hay[1..], needle);
    }
  }

  /** `sep.join(parts)`. */
  function Join(parts: seq<string>, sep: string): string
    decreases |parts|
  {
    if |parts| == 0 then ""
    else if |parts| == 1 then parts[0]
    else parts[0] + sep + Join(parts[1..], sep)
  }

  function DigitChar(d: nat): (c: char)
    requires d < 10
    ensures IsDigit(c)
  {
    ('0' as int + d) as char
  }

  /** `str(n)` of a non-negative integer: its decimal digits, without leading zeros. */
  function NatToString(n: nat): (r: string)
    ensures |r| > 0 && AllDigits(r)
    ensures r[0] == '0' ==> n == 0
  {
    if n < 10 then [DigitChar(n)] else NatToString(n / 10) + [DigitChar(n % 10)]
  }

  /** `str(i)` of an integer. */
  function IntToString(i: int): (r: string)
    ensures |r| > 0
    ensures i < 0 <==> r[0] == '-'
  {
    if i < 0 then "-" + NatToString(-i) else NatToString(i)
  }

  /** `int(s)` of a run of decimal digits. */
  function DigitsValue(s: string): nat
    requires AllDigits(s)
  {
    if |s| == 0 then 0 else DigitsValue(s[..|s| - 1]) * 10 + (s[|s| - 1] as int - '0' as int)
  }

  /** Reading back the digits `str(n)` writes gives `n` again. */
  lemma {:induction false} DigitsValueOfNatToString(n: nat)
    ensures DigitsValue(NatToString(n)) == n
  {
    if n >= 10 {
      var r := NatToString(n);
      assert r[..|r| - 1] == NatToString(n / 10);
      DigitsValueOfNatToString(n / 10);
    }
  }
}

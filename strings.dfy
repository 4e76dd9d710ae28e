/** The java.lang.String operations the modelled code relies on, over
    Dafny strings. A Dafny char is a Unicode scalar value, so a character
    above U+FFFF is one char here where a Java string holds two UTF-16 code
    units; indices agree for text inside the Basic Multilingual Plane. */
module JavaStrings {

  // ---------------------------------------------------------------------
  // toUpperCase

  predicate IsAsciiLower(c: char)
  {
    'a' <= c <= 'z'
  }

  predicate IsAscii(c: char)
  {
    c < 128 as char
  }

  predicate AllAscii(s: string)
  {
    forall i :: 0 <= i < |s| ==> IsAscii(s[i])
  }

  /** The upper case of one ASCII character. */
  function AsciiUpper(c: char): (r: char)
    ensures IsAscii(c) ==> IsAscii(r)
  {
    if IsAsciiLower(c) then (c as int - 32) as char else c
  }

  /** The lower case of one ASCII character. */
  function AsciiLower(c: char): char
  {
    if 'A' <= c <= 'Z' then (c as int + 32) as char else c
  }

  /** String.toUpperCase() of one char: the ASCII letters, and every char
      whose upper case holds an ASCII letter (dotless i, long s, sharp s and
      the Latin ligatures). Any other char is kept: its true upper case is
      not ASCII either, so no comparison with an ASCII name can tell. */
  function UpperChar(c: char): (r: string)
    ensures IsAscii(c) ==> r == [AsciiUpper(c)]
  {
    if IsAscii(c) then [AsciiUpper(c)]
    else if c == 'ı' then "I"          // dotless i
    else if c == 'ſ' then "S"          // long s
    else if c == 'ß' then "SS"         // sharp s
    else if c == 'ﬀ' then "FF"
    else if c == 'ﬁ' then "FI"
    else if c == 'ﬂ' then "FL"
    else if c == 'ﬃ' then "FFI"
    else if c == 'ﬄ' then "FFL"
    else if c == 'ﬅ' || c == 'ﬆ' then "ST"
    else [c]
  }

  /** String.toUpperCase(): char by char; a char may grow into two or three. */
  function UpperCase(s: string): string
  {
    if s == [] then [] else UpperChar(s[0]) + UpperCase(s[1..])
  }

  /** On ASCII text toUpperCase keeps the length and works char by char. */
  lemma {:induction false} UpperCaseAscii(s: string)
    requires AllAscii(s)
    ensures |UpperCase(s)| == |s|
    ensures forall i :: 0 <= i < |s| ==> UpperCase(s)[i] == AsciiUpper(s[i])
  {
    if s != [] {
      assert AllAscii(s[1..]) by {
        forall i | 0 <= i < |s| - 1 ensures IsAscii(s[1..][i]) { assert s[1..][i] == s[i + 1]; }
      }
      UpperCaseAscii(s[1..]);
      forall i | 0 <= i < |s| ensures UpperCase(s)[i] == AsciiUpper(s[i]) {
        if i > 0 { assert s[1..][i - 1] == s[i]; }
      }
    }
  }

  /** ASCII letters compared without regard to case. */
  predicate EqualsIgnoreCaseAscii(s: string, t: string)
  {
    |s| == |t| && forall i :: 0 <= i < |s| ==> AsciiLower(s[i]) == AsciiLower(t[i])
  }

  /** An upper-case ASCII name is what toUpperCase gives exactly for the
      ASCII strings equal to it up to case. */
  lemma UpperCaseMatchesName(s: string, name: string)
    requires AllAscii(s)
    requires forall i :: 0 <= i < |name| ==> 'A' <= name[i] <= 'Z'
    ensures UpperCase(s) == name <==> EqualsIgnoreCaseAscii(s, name)
  {
    UpperCaseAscii(s);
    if EqualsIgnoreCaseAscii(s, name) {
      forall i | 0 <= i < |s| ensures UpperCase(s)[i] == name[i] {
        assert AsciiLower(s[i]) == AsciiLower(name[i]);
      }
    }
    if UpperCase(s) == name {
      forall i | 0 <= i < |s| ensures AsciiLower(s[i]) == AsciiLower(name[i]) {
        assert AsciiUpper(s[i]) == name[i];
      }
    }
  }

  // ---------------------------------------------------------------------
  // replace, startsWith, endsWith, contains, lastIndexOf

  /** String.replace(from, to) on chars. */
  function ReplaceChar(s: string, from: char, to: char): (r: string)
    ensures |r| == |s|
    ensures forall i :: 0 <= i < |s| ==> r[i] == (if s[i] == from then to else s[i])
  {
    seq(|s|, i requires 0 <= i < |s| => if s[i] == from then to else s[i])
  }

  predicate StartsWith(s: string, prefix: string)
  {
    |prefix| <= |s| && s[..|prefix|] == prefix
  }

  predicate EndsWith(s: string, suffix: string)
  {
    |suffix| <= |s| && s[|s| - |suffix|..] == suffix
  }

  /** sub occurs in s at offset k. */
  predicate OccursAt(s: string, sub: string, k: int)
  {
    0 <= k <= |s| - |sub| && s[k..k + |sub|] == sub
  }

  /** s.contains(sub): sub occurs at some offset. */
  predicate Contains(s: string, sub: string)
  {
    exists k :: 0 <= k <= |s| - |sub| && OccursAt(s, sub, k)
  }

  /** s.lastIndexOf(c): the last position holding c, or -1. */
  function LastIndexOf(s: string, c: char): (r: int)
    ensures -1 <= r < |s|
    ensures r >= 0 ==> s[r] == c && forall j :: r < j < |s| ==> s[j] != c
    ensures r == -1 ==> forall j :: 0 <= j < |s| ==> s[j] != c
  {
    if s == [] then -1
    else if s[|s| - 1] == c then |s| - 1
    else LastIndexOf(s[..|s| - 1], c)
  }
}

/** The .NET string operations the program relies on, stated over `seq<char>`:
    ASCII case folding (as the regular-expression engine applies it to the letters of
    `\.jpe?g`), suffix tests, ordinal `String.Replace(oldValue, "")` and `Int32.ToString()`
    for the non-negative range the quality setting uses. */
module Strings {

  // ---------------------------------------------------------------- characters

  /** Lower-case mapping of the ASCII letters; every other character maps to itself. */
  function AsciiLower(c: char): (r: char)
    ensures 'A' <= c <= 'Z' ==> 'a' <= r <= 'z' && r as int - c as int == 32
    ensures !('A' <= c <= 'Z') ==> r == c
  {
    if 'A' <= c <= 'Z' then (c as int + 32) as char else c
  }

  /** Case-insensitive comparison as the ignore-case match does it: a character folds onto a
      lower-case letter exactly when it is that letter or its upper-case form. */
  lemma AsciiLowerLetters(c: char, l: char)
    requires 'a' <= l <= 'z'
    ensures AsciiLower(c) == l <==> c == l || c as int == l as int - 32
  {
  }

  /** Number of occurrences of the character `c` in `s`. */
  function Count(s: string, c: char): nat
  {
    if s == [] then 0 else Count(s[..|s| - 1], c) + (if s[|s| - 1] == c then 1 else 0)
  }

  lemma {:induction false} CountConcat(a: string, b: string, c: char)
    ensures Count(a + b, c) == Count(a, c) + Count(b, c)
    decreases |b|
  {
    if b == [] {
      assert a + b == a;
    } else {
      assert (a + b)[..|a + b| - 1] == a + b[..|b| - 1];
      CountConcat(a, b[..|b| - 1], c);
    }
  }

  /** A character that does not occur is counted zero times, and conversely. */
  lemma {:induction false} CountZero(s: string, c: char)
    ensures Count(s, c) == 0 <==> c !in s
  {
    if s != [] {
      CountZero(s[..|s| - 1], c);
      assert s == s[..|s| - 1] + [s[|s| - 1]];
    }
  }

  // ---------------------------------------------------------------- suffixes

  predicate EndsWith(s: string, suffix: string)
  {
    |suffix| <= |s| && s[|s| - |suffix|..] == suffix
  }

  lemma EndsWithConcat(a: string, b: string)
    ensures EndsWith(a + b, b)
  {
    assert (a + b)[|a|..] == b;
  }

  /** `s` ends with `suffix` when both are folded to lower case letter by letter. */
  predicate EndsWithIgnoreCase(s: string, suffix: string)
  {
    |suffix| <= |s| &&
    forall k :: 0 <= k < |suffix| ==> AsciiLower(s[|s| - |suffix| + k]) == AsciiLower(suffix[k])
  }

  // ---------------------------------------------------------------- String.Replace(pat, "")

  /** Ordinal `s.Replace(pat, "")`: scanning from the left, every occurrence of `pat` that
      does not overlap an occurrence already removed is deleted. .NET refuses an empty
      `pat`, hence the precondition. */
  function RemoveAll(s: string, pat: string): (r: string)
    requires pat != []
    ensures |r| <= |s|
    decreases |s|
  {
    if |s| < |pat| then s
    else if s[..|pat|] == pat then RemoveAll(s[|pat|..], pat)
    else [s[0]] + RemoveAll(s[1..], pat)
  }

  /** How many occurrences `RemoveAll(s, pat)` deletes. */
  function Removed(s: string, pat: string): nat
    requires pat != []
    decreases |s|
  {
    if |s| < |pat| then 0
    else if s[..|pat|] == pat then 1 + Removed(s[|pat|..], pat)
    else Removed(s[1..], pat)
  }

  lemma MulSucc(n: nat, m: nat)
    ensures (1 + n) * m == m + n * m
  {
  }

  /** Each removal shortens the string by exactly `|pat|`. */
  lemma {:induction false} RemoveAllLength(s: string, pat: string)
    requires pat != []
    ensures |RemoveAll(s, pat)| + Removed(s, pat) * |pat| == |s|
    decreases |s|
  {
    if |s| < |pat| {
    } else if s[..|pat|] == pat {
      var n := Removed(s[|pat|..], pat);
      RemoveAllLength(s[|pat|..], pat);
      MulSucc(n, |pat|);
    } else {
      RemoveAllLength(s[1..], pat);
    }
  }

  /** Each removal deletes exactly the characters of one copy of `pat`. */
  lemma {:induction false} RemoveAllCount(s: string, pat: string, c: char)
    requires pat != []
    ensures Count(RemoveAll(s, pat), c) + Removed(s, pat) * Count(pat, c) == Count(s, c)
    decreases |s|
  {
    if |s| < |pat| {
    } else if s[..|pat|] == pat {
      var n := Removed(s[|pat|..], pat);
      RemoveAllCount(s[|pat|..], pat, c);
      MulSucc(n, Count(pat, c));
      assert s == pat + s[|pat|..];
      CountConcat(pat, s[|pat|..], c);
    } else {
      RemoveAllCount(s[1..], pat, c);
      assert s == [s[0]] + s[1..];
      CountConcat([s[0]], s[1..], c);
      CountConcat([s[0]], RemoveAll(s[1..], pat), c);
      assert Count([s[0]], c) == Count([], c) + (if s[0] == c then 1 else 0);
    }
  }

  /** An occurrence at the front is removed. */
  lemma RemoveAllDrops(pat: string, rest: string)
    requires pat != []
    ensures RemoveAll(pat + rest, pat) == RemoveAll(rest, pat)
  {
    assert (pat + rest)[..|pat|] == pat;
    assert (pat + rest)[|pat|..] == rest;
  }

  /** A front character that does not start an occurrence is kept. */
  lemma RemoveAllKeeps(c: char, rest: string, pat: string)
    requires pat != [] && |rest| + 1 >= |pat| && ([c] + rest)[..|pat|] != pat
    ensures RemoveAll([c] + rest, pat) == [c] + RemoveAll(rest, pat)
  {
    assert ([c] + rest)[1..] == rest;
  }

  /** `pat` occurs in `s` starting at index `i`. */
  predicate OccursAt(s: string, pat: string, i: nat)
  {
    i + |pat| <= |s| && s[i..i + |pat|] == pat
  }

  /** Dropping the first character of a string in which `pat` occurs only as its suffix
      keeps that property, and that character does not start an occurrence. */
  lemma OnlySuffixTail(s: string, pat: string)
    requires pat != [] && EndsWith(s, pat) && |s| > |pat|
    requires forall i :: 0 <= i < |s| - |pat| ==> !OccursAt(s, pat, i)
    ensures s[..|pat|] != pat
    ensures EndsWith(s[1..], pat)
    ensures forall i :: 0 <= i < |s[1..]| - |pat| ==> !OccursAt(s[1..], pat, i)
  {
    assert !OccursAt(s, pat, 0);
    var t := s[1..];
    assert t[|t| - |pat|..] == s[|s| - |pat|..];
    forall i | 0 <= i < |t| - |pat|
      ensures !OccursAt(t, pat, i)
    {
      assert !OccursAt(s, pat, i + 1);
      assert t[i..i + |pat|] == s[i + 1..i + 1 + |pat|];
    }
  }

  /** When `pat` occurs in `s` only as its suffix, removing every occurrence leaves exactly
      the part before that suffix. */
  lemma {:induction false} RemoveAllOnlySuffix(s: string, pat: string)
    requires pat != [] && EndsWith(s, pat)
    requires forall i :: 0 <= i < |s| - |pat| ==> !OccursAt(s, pat, i)
    ensures RemoveAll(s, pat) == s[..|s| - |pat|]
    decreases |s|
  {
    if |s| == |pat| {
      assert s[..|pat|] == pat;
      assert RemoveAll(s[|pat|..], pat) == [];
    } else {
      var t := s[1..];
      OnlySuffixTail(s, pat);
      RemoveAllOnlySuffix(t, pat);
      assert s[..|s| - |pat|] == [s[0]] + t[..|t| - |pat|];
    }
  }

  // ---------------------------------------------------------------- Int32.ToString()

  predicate IsDigit(c: char)
  {
    '0' <= c <= '9'
  }

  predicate AllDigits(s: string)
  {
    forall k :: 0 <= k < |s| ==> IsDigit(s[k])
  }

  function DigitChar(d: nat): (c: char)
    requires d < 10
    ensures IsDigit(c) && c as int - '0' as int == d
  {
    ('0' as int + d) as char
  }

  /** Decimal text of `n`, most significant digit first, without leading zeros
      (what `Int32.ToString()` produces for a non-negative value). */
  function NatToString(n: nat): (r: string)
    ensures |r| >= 1 && AllDigits(r)
    ensures |r| > 1 ==> r[0] != '0'
    decreases n
  {
    if n < 10 then [DigitChar(n)] else NatToString(n / 10) + [DigitChar(n % 10)]
  }

  /** The value of a string of decimal digits (its independent reading back). */
  function DigitsValue(s: string): nat
    requires AllDigits(s)
  {
    if s == [] then 0
    else DigitsValue(s[..|s| - 1]) * 10 + (s[|s| - 1] as int - '0' as int)
  }

  /** Reading the decimal text back gives the number. */
  lemma {:induction false} DigitsValueOfNatToString(n: nat)
    ensures DigitsValue(NatToString(n)) == n
    decreases n
  {
    if n >= 10 {
      var s := NatToString(n);
      assert s[..|s| - 1] == NatToString(n / 10);
      DigitsValueOfNatToString(n / 10);
    }
  }

  /** Different numbers have different decimal texts. */
  lemma NatToStringInjective(a: nat, b: nat)
    ensures NatToString(a) == NatToString(b) ==> a == b
  {
    DigitsValueOfNatToString(a);
    DigitsValueOfNatToString(b);
  }

  /** A decimal text holds none of the given non-digit characters. */
  lemma NatToStringHasNo(n: nat, c: char)
    requires !IsDigit(c)
    ensures Count(NatToString(n), c) == 0
  {
    CountZero(NatToString(n), c);
  }
}

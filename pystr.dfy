/** The few Python `str` operations that the core relies on, stated on
    `seq<char>` with the meaning CPython gives them. */
module PyStr {

  /** `s.endswith(suffix)`. */
  predicate EndsWith(s: string, suffix: string) {
    |suffix| <= |s| && s[|s| - |suffix|..] == suffix
  }

  /** `pat` occurs in `s` starting at index `i`. */
  predicate OccursAt(s: string, pat: string, i: int) {
    0 <= i && i + |pat| <= |s| && s[i..i + |pat|] == pat
  }

  /** `pat in s`. */
  predicate Contains(s: string, pat: string) {
    exists i :: 0 <= i <= |s| - |pat| && OccursAt(s, pat, i)
  }

  /** `s.replace(pat, "")` for a non-empty `pat`: the string is scanned left
      to right and every match is deleted, scanning resumes after the
      match, so occurrences never overlap. */
  function RemoveAll(s: string, pat: string): (r: string)
    requires pat != ""
    ensures |r| <= |s|
    decreases |s|
  {
    if |s| < |pat| then s
    else if s[..|pat|] == pat then RemoveAll(s[|pat|..], pat)
    else [s[0]] + RemoveAll(s[1..], pat)
  }

  /** Deleting a pattern that does not occur changes nothing. */
  lemma {:induction false} RemoveAllAbsent(s: string, pat: string)
    requires pat != ""
    requires !Contains(s, pat)
    ensures RemoveAll(s, pat) == s
    decreases |s|
  {
    if |s| >= |pat| {
      assert !OccursAt(s, pat, 0);
      forall i | OccursAt(s[1..], pat, i) ensures OccursAt(s, pat, i + 1) {
        assert s[1..][i..i + |pat|] == s[i + 1..i + 1 + |pat|];
      }
      RemoveAllAbsent(s[1..], pat);
      assert [s[0]] + s[1..] == s;
    }
  }

  /** Deleting a pattern that does occur makes the string strictly shorter:
      the scan cannot step over every occurrence without matching one. */
  lemma {:induction false} RemoveAllShrinks(s: string, pat: string)
    requires pat != ""
    requires Contains(s, pat)
    ensures |RemoveAll(s, pat)| < |s|
    decreases |s|
  {
    var i :| 0 <= i <= |s| - |pat| && OccursAt(s, pat, i);
    if s[..|pat|] != pat {
      assert s[0..|pat|] == s[..|pat|];
      assert i > 0;
      assert s[1..][i - 1..i - 1 + |pat|] == s[i..i + |pat|];
      assert OccursAt(s[1..], pat, i - 1);
      RemoveAllShrinks(s[1..], pat);
    }
  }

  /** `s.replace(pat, "")` returns `s` itself exactly when `pat` is not in `s`. */
  lemma RemoveAllUnchangedIff(s: string, pat: string)
    requires pat != ""
    ensures RemoveAll(s, pat) == s <==> !Contains(s, pat)
  {
    if Contains(s, pat) {
      RemoveAllShrinks(s, pat);
    } else {
      RemoveAllAbsent(s, pat);
    }
  }

  /** A string that ends with a non-empty `pat` contains it. */
  lemma EndsWithContains(s: string, pat: string)
    requires EndsWith(s, pat)
    ensures Contains(s, pat)
  {
    assert OccursAt(s, pat, |s| - |pat|);
  }

  /** `c.isspace()`: the characters CPython's `str.strip()` removes when it
      is called without arguments. */
  predicate IsSpace(c: char) {
    || c == ' ' || c == '\t' || c == '\n' || c == '\r'
    || c == '\U{0B}' || c == '\U{0C}'
    || ('\U{1C}' <= c <= '\U{1F}')
    || c == '\U{85}' || c == '\U{A0}' || c == '\U{1680}'
    || ('\U{2000}' <= c <= '\U{200A}')
    || c == '\U{2028}' || c == '\U{2029}' || c == '\U{202F}'
    || c == '\U{205F}' || c == '\U{3000}'
  }

  /** Every character of `s` from index `lo` up to `hi` is whitespace. */
  predicate SpaceBetween(s: string, lo: int, hi: int)
    requires 0 <= lo <= hi <= |s|
  {
    forall k :: lo <= k < hi ==> IsSpace(s[k])
  }

  /** Every character of `s` is whitespace. */
  predicate AllSpace(s: string) {
    SpaceBetween(s, 0, |s|)
  }

  /** How many whitespace characters `s` starts with. */
  function LeadingSpaces(s: string): (n: nat)
    ensures n <= |s| && SpaceBetween(s, 0, n)
    ensures n < |s| ==> !IsSpace(s[n])
  {
    if s != [] && IsSpace(s[0]) then
      var m := LeadingSpaces(s[1..]);
      assert forall k :: 1 <= k < 1 + m ==> s[k] == s[1..][k - 1];
      1 + m
    else 0
  }

  /** How many whitespace characters `s` ends with. */
  function TrailingSpaces(s: string): (n: nat)
    ensures n <= |s| && SpaceBetween(s, |s| - n, |s|)
    ensures n < |s| ==> !IsSpace(s[|s| - 1 - n])
  {
    if s != [] && IsSpace(s[|s| - 1]) then
      var m := TrailingSpaces(s[..|s| - 1]);
      assert forall k :: 0 <= k < |s| - 1 ==> s[k] == s[..|s| - 1][k];
      1 + m
    else 0
  }

  /** `r` is `s` with the whitespace-only prefix `s[..i]` and the
      whitespace-only rest after `r` cut off. */
  predicate StrippedAt(s: string, r: string, i: int) {
    && 0 <= i <= |s| - |r| && r == s[i..i + |r|]
    && SpaceBetween(s, 0, i) && SpaceBetween(s, i + |r|, |s|)
  }

  /** `s.strip()`: `s` with leading and trailing whitespace removed. The
      result is an infix of `s` with only whitespace around it, and it
      neither starts nor ends with whitespace. */
  function Strip(s: string): (r: string)
    ensures exists i :: StrippedAt(s, r, i)
    ensures r == [] || (!IsSpace(r[0]) && !IsSpace(r[|r| - 1]))
  {
    var i := LeadingSpaces(s);
    TrailingSpacesAfter(s, i);
    var n := TrailingSpaces(s[i..]);
    var r := s[i..|s| - n];
    assert StrippedAt(s, r, i);
    r
  }

  /** The trailing whitespace of `s[i..]`, read as positions of `s`. */
  lemma TrailingSpacesAfter(s: string, i: int)
    requires 0 <= i <= |s|
    ensures var n := TrailingSpaces(s[i..]);
            && n <= |s| - i && SpaceBetween(s, |s| - n, |s|)
            && (n < |s| - i ==> !IsSpace(s[|s| - 1 - n]))
  {
    var t := s[i..];
    var n := TrailingSpaces(t);
    forall k | |s| - n <= k < |s| ensures IsSpace(s[k]) {
      assert s[k] == t[k - i];
    }
    if n < |t| {
      assert s[|s| - 1 - n] == t[|t| - 1 - n];
    }
  }

  /** Stripping finds nothing left to strip in its own result. */
  lemma StripIdempotent(s: string)
    ensures Strip(Strip(s)) == Strip(s)
  {
    var r := Strip(s);
    assert LeadingSpaces(r) == 0;
    assert r[0..] == r;
    assert TrailingSpaces(r) == 0;
  }

  /** `s.strip()` is empty exactly when `s` is whitespace only. */
  lemma StripEmptyIff(s: string)
    ensures Strip(s) == "" <==> AllSpace(s)
  {
    var i :| StrippedAt(s, Strip(s), i);
    if AllSpace(s) {
      assert LeadingSpaces(s) == |s|;
    }
  }

  /** `c.lower()` on ASCII letters; other characters are left as they are. */
  function LowerChar(c: char): (l: char)
    ensures 'A' <= c <= 'Z' ==> l as int == c as int + 32
    ensures !('A' <= c <= 'Z') ==> l == c
  {
    if 'A' <= c <= 'Z' then (c as int + 32) as char else c
  }

  /** `s.lower()`, folding the ASCII letters only. */
  function Lower(s: string): (r: string)
    ensures |r| == |s|
    ensures forall k :: 0 <= k < |s| ==> r[k] == LowerChar(s[k])
  {
    seq(|s|, k requires 0 <= k < |s| => LowerChar(s[k]))
  }
}

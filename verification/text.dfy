/** The string operations the application relies on: `str.strip()`,
    `str.startswith`, the substring test `needle in haystack` and
    `str.replace` of one character. Strings are sequences of characters;
    there is no Unicode normalisation or case folding anywhere in the application. */
module Text {

  /** Python's `str.isspace()` for one character: the ASCII blanks and
      separators plus the Unicode space and line/paragraph separators. */
  predicate IsSpace(c: char) {
    || c == ' ' || c == '\t' || c == '\n' || c == '\r'
    || c == '\U{000B}' || c == '\U{000C}'
    || ('\U{001C}' <= c <= '\U{001F}')
    || c == '\U{0085}' || c == '\U{00A0}' || c == '\U{1680}'
    || ('\U{2000}' <= c <= '\U{200A}')
    || c == '\U{2028}' || c == '\U{2029}' || c == '\U{202F}' || c == '\U{205F}'
    || c == '\U{3000}'
  }

  ghost predicate AllSpace(s: string) {
    forall k :: 0 <= k < |s| ==> IsSpace(s[k])
  }

  /** Where `s.strip()` starts: the first position at or after `i` that does
      not hold whitespace (`|s|` when there is none). */
  function StripStart(s: string, i: nat): (k: nat)
    requires i <= |s|
    ensures i <= k <= |s|
    ensures forall t :: i <= t < k ==> IsSpace(s[t])
    ensures k < |s| ==> !IsSpace(s[k])
    decreases |s| - i
  {
    if i == |s| || !IsSpace(s[i]) then i else StripStart(s, i + 1)
  }

  /** Where `s.strip()` ends: the last position at or before `j`, and not
      below `lo`, that is not preceded by whitespace. */
  function StripEnd(s: string, lo: nat, j: nat): (k: nat)
    requires lo <= j <= |s|
    ensures lo <= k <= j
    ensures forall t :: k <= t < j ==> IsSpace(s[t])
    ensures k > lo ==> !IsSpace(s[k - 1])
  {
    if j == lo || !IsSpace(s[j - 1]) then j else StripEnd(s, lo, j - 1)
  }

  /** `r` is `s` with whitespace, and only whitespace, removed at both ends. */
  ghost predicate StrippedFrom(r: string, s: string) {
    exists i, j :: 0 <= i <= j <= |s| && r == s[i..j] && AllSpace(s[..i]) && AllSpace(s[j..])
  }

  /** Python's `s.strip()`: the slice of `s` left after removing whitespace at
      both ends; it neither starts nor ends with whitespace. */
  function Strip(s: string): (r: string)
    ensures StrippedFrom(r, s)
    ensures |r| > 0 ==> !IsSpace(r[0]) && !IsSpace(r[|r| - 1])
  {
    var i := StripStart(s, 0);
    var j := StripEnd(s, i, |s|);
    assert AllSpace(s[..i]) && AllSpace(s[j..]);
    s[i..j]
  }

  /** Stripping only removes characters. */
  lemma StripKeepsCharacters(s: string)
    ensures forall c :: c in Strip(s) ==> c in s
  {
    var i := StripStart(s, 0);
    var j := StripEnd(s, i, |s|);
    assert Strip(s) == s[i..j];
    assert forall k :: 0 <= k < j - i ==> s[i..j][k] == s[i + k];
  }

  /** Stripping twice is stripping once: a stripped name or rule is stable. */
  lemma StripIdempotent(s: string)
    ensures Strip(Strip(s)) == Strip(s)
  {
    var r := Strip(s);
    var i := StripStart(r, 0);
    if |r| > 0 {
      assert i == 0;
      var j := StripEnd(r, 0, |r|);
      assert j == |r|;
    }
  }

  /** `s.startswith(p)`. */
  predicate StartsWith(s: string, p: string) {
    |p| <= |s| && s[..|p|] == p
  }

  /** `needle` occurs in `s` starting at position `k`. */
  ghost predicate OccursAt(needle: string, s: string, k: int) {
    0 <= k && k + |needle| <= |s| && s[k..k + |needle|] == needle
  }

  /** Python's `needle in s` on strings: a case-sensitive substring test, true
      for the empty needle. */
  function Contains(s: string, needle: string): (b: bool)
    ensures b <==> exists k :: OccursAt(needle, s, k)
  {
    if |needle| > |s| then
      assert forall k :: !OccursAt(needle, s, k);
      false
    else if StartsWith(s, needle) then
      assert OccursAt(needle, s, 0);
      true
    else
      var b := Contains(s[1..], needle);
      assert forall k :: OccursAt(needle, s[1..], k) <==> OccursAt(needle, s, k + 1);
      assert !OccursAt(needle, s, 0);
      assert forall k :: OccursAt(needle, s, k) ==> k == 0 || OccursAt(needle, s[1..], k - 1);
      b
  }

  /** `s.replace(a, b)` for single characters `a` and `b`. */
  function ReplaceChar(s: string, a: char, b: char): (r: string)
    ensures |r| == |s|
    ensures forall k :: 0 <= k < |s| ==> r[k] == (if s[k] == a then b else s[k])
  {
    if |s| == 0 then [] else [if s[0] == a then b else s[0]] + ReplaceChar(s[1..], a, b)
  }
}

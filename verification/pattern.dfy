/** A fragment of Python's `re` pattern syntax, enough to read the patterns of
    the default rules: ordinary characters, backslash-escaped punctuation and
    `.`. The classifier itself takes the regex engine as a parameter; this
    fragment only gives a meaning to the concrete patterns the defaults ship. */
module Pattern {
  import opened Wrappers
  import Text

  /** One position of a pattern: a fixed character, or `.`. */
  datatype Atom = Lit(c: char) | AnyChar

  /** Characters that are not ordinary in a pattern. `.` and `\` are handled
      by `Parse`; the rest (anchors, quantifiers, groups, classes and
      alternation) lie outside the fragment. */
  predicate IsMeta(c: char) {
    c in "^$*+?{}[]|()"
  }

  /** Letters, digits and `_`: an escape of one of these is a character class
      or a back-reference, not a literal. */
  predicate IsWordChar(c: char) {
    ('a' <= c <= 'z') || ('A' <= c <= 'Z') || ('0' <= c <= '9') || c == '_'
  }

  /** The atoms of `p`, or `None` when `p` uses syntax outside the fragment. */
  function Parse(p: string): (r: Option<seq<Atom>>)
    decreases |p|
  {
    if |p| == 0 then Some([])
    else if p[0] == '\\' then
      if |p| >= 2 && !IsWordChar(p[1]) then
        match Parse(p[2..])
        case Some(rest) => Some([Lit(p[1])] + rest)
        case None => None
      else None
    else if IsMeta(p[0]) then None
    else
      match Parse(p[1..])
      case Some(rest) => Some([if p[0] == '.' then AnyChar else Lit(p[0])] + rest)
      case None => None
  }

  /** A backslash before every non-word character, so that each character of
      `s` stands for itself in the pattern. */
  function Quote(s: string): (p: string)
    ensures |p| >= |s|
  {
    if |s| == 0 then []
    else if IsWordChar(s[0]) then [s[0]] + Quote(s[1..])
    else ['\\', s[0]] + Quote(s[1..])
  }

  /** The pattern made of the characters of `s`, each standing for itself. */
  function Literal(s: string): (r: seq<Atom>)
    ensures |r| == |s| && forall i :: 0 <= i < |s| ==> r[i] == Lit(s[i])
  {
    seq(|s|, i requires 0 <= i < |s| => Lit(s[i]))
  }

  /** Quoting then parsing reads back the text literally. */
  lemma {:induction false} ParseQuote(s: string)
    ensures Parse(Quote(s)) == Some(Literal(s))
  {
    if |s| > 0 {
      ParseQuote(s[1..]);
      var q := Quote(s);
      if IsWordChar(s[0]) {
        assert q[1..] == Quote(s[1..]);
      } else {
        assert q[2..] == Quote(s[1..]);
      }
      assert Literal(s) == [Lit(s[0])] + Literal(s[1..]);
    }
  }

  /** `.` matches every character except a newline, as without `re.DOTALL`. */
  predicate AtomMatches(a: Atom, c: char) {
    match a
    case Lit(x) => c == x
    case AnyChar => c != '\n'
  }

  /** The atoms match `s` starting at position `k`. */
  predicate MatchesAt(atoms: seq<Atom>, s: string, k: nat) {
    k + |atoms| <= |s| && forall i :: 0 <= i < |atoms| ==> AtomMatches(atoms[i], s[k + i])
  }

  /** `re.search`: whether the atoms match somewhere at or after `from`. */
  function SearchFrom(atoms: seq<Atom>, s: string, from: nat): (b: bool)
    ensures b <==> exists k: nat :: from <= k && MatchesAt(atoms, s, k)
    decreases |s| - from
  {
    if from + |atoms| > |s| then false
    else if MatchesAt(atoms, s, from) then true
    else
      var b := SearchFrom(atoms, s, from + 1);
      assert forall k: nat :: from <= k && MatchesAt(atoms, s, k) ==> k == from || from + 1 <= k;
      b
  }

  /** A literal pattern is found exactly where its text occurs. */
  lemma LiteralMatchesAt(s: string, t: string, k: nat)
    ensures MatchesAt(Literal(s), t, k) <==> Text.OccursAt(s, t, k)
  {
    if k + |s| <= |t| {
      if MatchesAt(Literal(s), t, k) {
        assert forall i :: 0 <= i < |s| ==> t[k..k + |s|][i] == s[i];
      }
      if Text.OccursAt(s, t, k) {
        assert forall i :: 0 <= i < |s| ==> s[i] == t[k + i];
      }
    }
  }

  /** Searching a quoted pattern is the substring test. */
  lemma QuotedSearch(s: string, t: string)
    ensures Parse(Quote(s)).Some?
    ensures SearchFrom(Parse(Quote(s)).value, t, 0) <==> Text.Contains(t, s)
  {
    ParseQuote(s);
    if Text.Contains(t, s) {
      var k :| Text.OccursAt(s, t, k);
      LiteralMatchesAt(s, t, k);
    }
    if SearchFrom(Literal(s), t, 0) {
      var k: nat :| MatchesAt(Literal(s), t, k);
      LiteralMatchesAt(s, t, k);
    }
  }
}

/** `ClipboardHandler.categorize_content`: a first-match classifier over the
    ordered category map. Every category except "Uncategorized" is tried in map
    order; within it, the rules in stored order. A rule is a case-sensitive
    substring, or, when it starts with "regex:", a pattern searched anywhere
    in the content. A pattern that does not compile is no match. */
module Classifier {
  import opened Wrappers
  import opened OrderedDict
  import opened Categories
  import Text

  /** The regex engine, `re.search(pattern, content)`: `None` when `pattern`
      fails to compile (`re.error`), otherwise whether it matches somewhere. */
  type RegexSearch = (string, string) -> Option<bool>

  const REGEX_PREFIX: string := "regex:"

  /** Whether one rule matches `content`. */
  function MatchesRule(search: RegexSearch, rule: string, content: string): (b: bool)
    ensures !Text.StartsWith(rule, REGEX_PREFIX) ==> (b <==> exists k :: Text.OccursAt(rule, content, k))
    ensures Text.StartsWith(rule, REGEX_PREFIX) ==> (b <==> search(rule[|REGEX_PREFIX|..], content) == Some(true))
  {
    if Text.StartsWith(rule, REGEX_PREFIX) then search(rule[|REGEX_PREFIX|..], content) == Some(true)
    else Text.Contains(content, rule)
  }

  /** Whether some rule of the list matches; a failing rule does not stop the scan. */
  function AnyRuleMatches(search: RegexSearch, rules: seq<string>, content: string): (b: bool)
    ensures b <==> exists j :: 0 <= j < |rules| && MatchesRule(search, rules[j], content)
  {
    if |rules| == 0 then false
    else if MatchesRule(search, rules[0], content) then true
    else
      var b := AnyRuleMatches(search, rules[1..], content);
      assert forall j :: 1 <= j < |rules| ==> rules[j] == rules[1..][j - 1];
      b
  }

  /** Entry `i` of the map is a category that takes part and whose rules match. */
  ghost predicate Hits(search: RegexSearch, content: string, m: CategoryMap, i: int) {
    0 <= i < |m| && m[i].0 != UNCATEGORIZED && AnyRuleMatches(search, m[i].1.rules, content)
  }

  /** Entry `i` is the first entry that hits. */
  ghost predicate FirstHit(search: RegexSearch, content: string, m: CategoryMap, i: int) {
    Hits(search, content, m, i) && forall j :: 0 <= j < i ==> !Hits(search, content, m, j)
  }

  /** The category chosen for `content`: the literal "Uncategorized" or the
      name of another category of the map (even when "Uncategorized" itself is
      not in the map). */
  function Categorize(search: RegexSearch, content: string, m: CategoryMap): (r: string)
    ensures r == UNCATEGORIZED || (r != UNCATEGORIZED && r in Keys(m))
  {
    if |m| == 0 then UNCATEGORIZED
    else if m[0].0 != UNCATEGORIZED && AnyRuleMatches(search, m[0].1.rules, content) then m[0].0
    else
      assert Keys(m) == [m[0].0] + Keys(m[1..]);
      Categorize(search, content, m[1..])
  }

  /** The first hitting category is the result. */
  lemma {:induction false} FirstHitChosen(search: RegexSearch, content: string, m: CategoryMap, i: int)
    requires FirstHit(search, content, m, i)
    ensures Categorize(search, content, m) == m[i].0
  {
    if i > 0 {
      assert !Hits(search, content, m, 0);
      var t := m[1..];
      assert forall j :: 0 <= j < i - 1 ==> (Hits(search, content, m, j + 1) <==> Hits(search, content, t, j));
      assert FirstHit(search, content, t, i - 1);
      FirstHitChosen(search, content, t, i - 1);
    }
  }

  /** A result other than "Uncategorized" is the name of the first hitting category. */
  lemma {:induction false} ResultIsFirstHit(search: RegexSearch, content: string, m: CategoryMap)
    requires Categorize(search, content, m) != UNCATEGORIZED
    ensures exists i :: FirstHit(search, content, m, i) && m[i].0 == Categorize(search, content, m)
  {
    if Hits(search, content, m, 0) {
      assert FirstHit(search, content, m, 0);
    } else {
      var t := m[1..];
      assert Categorize(search, content, m) == Categorize(search, content, t);
      ResultIsFirstHit(search, content, t);
      var i :| FirstHit(search, content, t, i) && t[i].0 == Categorize(search, content, t);
      assert m[i + 1] == t[i];
      assert Hits(search, content, m, i + 1);
      forall j | 0 <= j < i + 1
        ensures !Hits(search, content, m, j)
      {
        if j > 0 {
          assert m[j] == t[j - 1];
          assert !Hits(search, content, t, j - 1);
        }
      }
      assert FirstHit(search, content, m, i + 1);
    }
  }

  /** "Uncategorized" is the result exactly when no category hits. */
  lemma {:induction false} FallbackIffNoHit(search: RegexSearch, content: string, m: CategoryMap)
    ensures Categorize(search, content, m) == UNCATEGORIZED <==>
      forall i :: 0 <= i < |m| ==> !Hits(search, content, m, i)
  {
    if |m| > 0 && !Hits(search, content, m, 0) {
      var t := m[1..];
      assert Categorize(search, content, m) == Categorize(search, content, t);
      FallbackIffNoHit(search, content, t);
      if forall i :: 0 <= i < |t| ==> !Hits(search, content, t, i) {
        forall i | 0 <= i < |m|
          ensures !Hits(search, content, m, i)
        {
          if i > 0 {
            assert m[i] == t[i - 1];
            assert !Hits(search, content, t, i - 1);
          }
        }
      } else {
        var i :| 0 <= i < |t| && Hits(search, content, t, i);
        assert m[i + 1] == t[i];
        assert Hits(search, content, m, i + 1);
      }
    }
  }

  /** First match wins: the result is the name of the first hitting category,
      and "Uncategorized" exactly when no category hits. */
  lemma CategorizeFirstMatch(search: RegexSearch, content: string, m: CategoryMap)
    ensures forall i :: FirstHit(search, content, m, i) ==> Categorize(search, content, m) == m[i].0
    ensures Categorize(search, content, m) != UNCATEGORIZED ==>
      exists i :: FirstHit(search, content, m, i) && m[i].0 == Categorize(search, content, m)
    ensures Categorize(search, content, m) == UNCATEGORIZED <==>
      forall i :: 0 <= i < |m| ==> !Hits(search, content, m, i)
  {
    forall i | FirstHit(search, content, m, i)
      ensures Categorize(search, content, m) == m[i].0
    {
      FirstHitChosen(search, content, m, i);
    }
    if Categorize(search, content, m) != UNCATEGORIZED {
      ResultIsFirstHit(search, content, m);
    }
    FallbackIffNoHit(search, content, m);
  }

  /** Two maps with the same names whose entries hit alike classify alike. */
  lemma SameHitsSameCategory(search: RegexSearch, content: string, m: CategoryMap, m': CategoryMap)
    requires Keys(m) == Keys(m')
    requires forall i :: 0 <= i < |m| ==> (Hits(search, content, m, i) <==> Hits(search, content, m', i))
    ensures Categorize(search, content, m) == Categorize(search, content, m')
  {
    CategorizeFirstMatch(search, content, m);
    CategorizeFirstMatch(search, content, m');
    if Categorize(search, content, m) != UNCATEGORIZED {
      var i :| FirstHit(search, content, m, i) && m[i].0 == Categorize(search, content, m);
      assert FirstHit(search, content, m', i);
      assert m'[i].0 == Keys(m')[i];
    }
  }

  /** The rules stored under "Uncategorized" never influence the result. */
  lemma UncategorizedRulesIgnored(search: RegexSearch, content: string, m: CategoryMap, i: int, rules: seq<string>)
    requires 0 <= i < |m| && m[i].0 == UNCATEGORIZED
    ensures Categorize(search, content, m[i := (UNCATEGORIZED, m[i].1.(rules := rules))]) == Categorize(search, content, m)
  {
    var m' := m[i := (UNCATEGORIZED, m[i].1.(rules := rules))];
    assert Keys(m) == Keys(m');
    assert forall j :: 0 <= j < |m| ==> (Hits(search, content, m, j) <==> Hits(search, content, m', j));
    SameHitsSameCategory(search, content, m, m');
  }

  /** A "regex:" rule whose pattern does not compile is inert: the result is
      the one obtained with that rule deleted, so later rules and categories
      are still evaluated. */
  lemma InvalidRegexIgnored(search: RegexSearch, content: string, m: CategoryMap, i: int, j: int)
    requires 0 <= i < |m| && 0 <= j < |m[i].1.rules|
    requires Text.StartsWith(m[i].1.rules[j], REGEX_PREFIX)
    requires search(m[i].1.rules[j][|REGEX_PREFIX|..], content).None?
    ensures
      var rules := m[i].1.rules;
      Categorize(search, content, m[i := (m[i].0, m[i].1.(rules := rules[..j] + rules[j + 1..]))])
        == Categorize(search, content, m)
  {
    var rules := m[i].1.rules;
    var rules' := rules[..j] + rules[j + 1..];
    var m' := m[i := (m[i].0, m[i].1.(rules := rules'))];
    assert !MatchesRule(search, rules[j], content);
    assert forall k :: 0 <= k < |rules'| ==> rules'[k] == rules[if k < j then k else k + 1];
    assert forall k :: 0 <= k < |rules| && k != j ==> rules[k] == rules'[if k < j then k else k - 1];
    assert AnyRuleMatches(search, rules', content) == AnyRuleMatches(search, rules, content);
    assert Keys(m) == Keys(m');
    assert forall k :: 0 <= k < |m| ==> (Hits(search, content, m, k) <==> Hits(search, content, m', k));
    SameHitsSameCategory(search, content, m, m');
  }

  /** Map order decides between two matching categories: with
      A = ["foo"] before B = ["regex:^bar"], "foobar" goes to A whatever the
      regex engine answers. */
  lemma ClassificationOrderExample(search: RegexSearch)
    ensures Categorize(search, "foobar", [("A", Category(["foo"], [], [])), ("B", Category(["regex:^bar"], [], []))]) == "A"
  {
    assert Text.OccursAt("foo", "foobar", 0);
  }

  /** Content that no rule matches falls back to "Uncategorized". */
  lemma FallbackExample(search: RegexSearch)
    ensures Categorize(search, "xyz", [("A", Category(["foo"], [], []))]) == UNCATEGORIZED
  {
    assert "xyz"[0..3][0] != "foo"[0];
    assert !Text.Contains("xyz", "foo");
  }
}

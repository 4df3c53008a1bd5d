/** Sequence helpers shared by rule lists and histories: duplicate-freedom and
    Python's `list.remove(x)`, which deletes the FIRST occurrence of `x`. */
module Seqs {

  /** No value occurs twice in `s`. */
  ghost predicate NoDup<T>(s: seq<T>) {
    forall i, j :: 0 <= i < j < |s| ==> s[i] != s[j]
  }

  /** The position of the first occurrence of `x` in `s`. */
  function FirstIndex<T(==)>(s: seq<T>, x: T): (i: nat)
    requires x in s
    ensures i < |s| && s[i] == x
    ensures x !in s[..i]
  {
    if s[0] == x then 0
    else
      var j := FirstIndex(s[1..], x);
      assert s[..j + 1] == [s[0]] + s[1..][..j];
      j + 1
  }

  /** Past a head that is not `x`, the first occurrence of `x` is one step
      further into the list than in the tail, and the parts around it are the
      tail's parts with the head in front. */
  lemma FirstIndexStep<T>(s: seq<T>, x: T)
    ensures |s| > 0 && s[0] != x && x in s ==>
      var j := FirstIndex(s[1..], x);
      && FirstIndex(s, x) == j + 1
      && s[..j + 1] == [s[0]] + s[1..][..j]
      && s[j + 2..] == s[1..][j + 1..]
  {
  }

  /** `list.remove(x)` on a list holding `x`; the identity on a list without it
      (`add_to_history`, `delete_rule` and `delete_history_item` all check
      membership before calling `remove`). */
  function RemoveFirst<T(==)>(s: seq<T>, x: T): (r: seq<T>)
    ensures x !in s ==> r == s
    ensures x in s ==> r == s[..FirstIndex(s, x)] + s[FirstIndex(s, x) + 1..]
  {
    if |s| == 0 then s
    else if s[0] == x then s[1..]
    else
      FirstIndexStep(s, x);
      [s[0]] + RemoveFirst(s[1..], x)
  }

  /** `remove` takes away exactly one copy of `x` and keeps every other value. */
  lemma {:induction false} RemoveFirstContents<T>(s: seq<T>, x: T)
    ensures multiset(RemoveFirst(s, x)) == multiset(s) - multiset{x}
  {
    if |s| > 0 {
      assert s == [s[0]] + s[1..];
      if s[0] != x {
        RemoveFirstContents(s[1..], x);
        assert RemoveFirst(s, x) == [s[0]] + RemoveFirst(s[1..], x);
      }
    }
  }

  /** Removing one element keeps a duplicate-free list duplicate-free and,
      because there was only one copy, leaves no copy behind. */
  lemma {:induction false} RemoveFirstNoDup<T>(s: seq<T>, x: T)
    ensures NoDup(s) ==> NoDup(RemoveFirst(s, x)) && x !in RemoveFirst(s, x)
  {
    if NoDup(s) && x in s {
      var i := FirstIndex(s, x);
      var r := RemoveFirst(s, x);
      assert r == s[..i] + s[i + 1..];
      forall a, b | 0 <= a < b < |r|
        ensures r[a] != r[b]
      {
        var a' := if a < i then a else a + 1;
        var b' := if b < i then b else b + 1;
        assert r[a] == s[a'] && r[b] == s[b'];
      }
      forall a | 0 <= a < |r|
        ensures r[a] != x
      {
        var a' := if a < i then a else a + 1;
        assert r[a] == s[a'] && a' != i;
      }
    }
  }

  /** `remove` only takes values away. */
  lemma RemoveFirstSubset<T>(s: seq<T>, x: T, y: T)
    requires y in RemoveFirst(s, x)
    ensures y in s
  {
    if x in s {
      var i := FirstIndex(s, x);
      var k :| 0 <= k < |RemoveFirst(s, x)| && RemoveFirst(s, x)[k] == y;
      assert s[if k < i then k else k + 1] == y;
    }
  }

  /** Appending a value the list does not hold keeps it duplicate-free. */
  lemma AppendFreshNoDup<T>(s: seq<T>, x: T)
    requires NoDup(s) && x !in s
    ensures NoDup(s + [x])
  {
  }

  /** The values of `s` in the order of their first occurrences, each once. */
  function FirstOccurrences(s: seq<string>): (r: seq<string>)
    ensures forall x :: x in r <==> x in s
    ensures NoDup(r)
  {
    if |s| == 0 then []
    else
      var d := FirstOccurrences(s[..|s| - 1]);
      assert forall x :: x in s <==> x in s[..|s| - 1] || x == s[|s| - 1];
      if s[|s| - 1] in d then d else d + [s[|s| - 1]]
  }
}

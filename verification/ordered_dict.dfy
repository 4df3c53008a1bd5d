/** Insertion-ordered dictionaries, as Python's `dict` keeps them: a sequence of
    key/value pairs whose order is the iteration order. The category map and
    every JSON object the configuration reads are dictionaries of this kind;
    all their keys are strings. */
module OrderedDict {
  import opened Wrappers
  import Seqs

  type Dict<V> = seq<(string, V)>

  /** `list(d.keys())`, in iteration order. */
  function Keys<V>(m: Dict<V>): (ks: seq<string>)
    ensures |ks| == |m|
    ensures forall i :: 0 <= i < |m| ==> ks[i] == m[i].0
  {
    seq(|m|, i requires 0 <= i < |m| => m[i].0)
  }

  /** Every key occurs once: the shape of every Python `dict`. */
  ghost predicate Distinct<V>(m: Dict<V>) {
    Seqs.NoDup(Keys(m))
  }

  /** `d.get(k)`: the value stored under `k`, or `None` when `k` is absent. */
  function Get<V>(m: Dict<V>, k: string): (r: Option<V>)
    ensures r.Some? <==> k in Keys(m)
  {
    if |m| == 0 then None
    else if m[0].0 == k then Some(m[0].1)
    else
      assert Keys(m) == [m[0].0] + Keys(m[1..]);
      Get(m[1..], k)
  }

  /** `Get` finds the value of the first entry with the key. */
  lemma {:induction false} GetFirst<V>(m: Dict<V>, k: string)
    requires k in Keys(m)
    ensures var i := Seqs.FirstIndex(Keys(m), k);
      m[i].0 == k && Get(m, k) == Some(m[i].1)
  {
    assert Keys(m) == [m[0].0] + Keys(m[1..]);
    if m[0].0 != k {
      GetFirst(m[1..], k);
    }
  }

  /** The keys of a concatenation are the concatenation of the keys. */
  lemma KeysConcat<V>(a: Dict<V>, b: Dict<V>)
    ensures Keys(a + b) == Keys(a) + Keys(b)
  {
    assert forall i :: 0 <= i < |a + b| ==> Keys(a + b)[i] == (Keys(a) + Keys(b))[i];
  }

  /** Appending a fresh key keeps the keys distinct. */
  lemma AppendFreshDistinct<V>(m: Dict<V>, k: string, v: V)
    ensures Distinct(m) && k !in Keys(m) ==> Distinct(m + [(k, v)])
  {
    KeysConcat(m, [(k, v)]);
    if Distinct(m) && k !in Keys(m) {
      Seqs.AppendFreshNoDup(Keys(m), k);
    }
  }

  /** In a dictionary the entry at any position is the one `Get` finds. */
  lemma GetAt<V>(m: Dict<V>, i: int)
    requires Distinct(m) && 0 <= i < |m|
    ensures Get(m, m[i].0) == Some(m[i].1)
  {
    var ks := Keys(m);
    assert ks[i] == m[i].0;
    var f := Seqs.FirstIndex(ks, m[i].0);
    GetFirst(m, m[i].0);
    assert f == i;
  }

  /** Looking up a key in a dictionary with one entry appended. */
  lemma {:induction false} GetAppend<V>(m: Dict<V>, k: string, v: V, k': string)
    ensures Get(m + [(k, v)], k') ==
      if k' in Keys(m) then Get(m, k') else if k' == k then Some(v) else None
  {
    if |m| > 0 {
      assert (m + [(k, v)])[1..] == m[1..] + [(k, v)];
      assert Keys(m) == [m[0].0] + Keys(m[1..]);
      GetAppend(m[1..], k, v, k');
    }
  }

  /** Overwriting the entry at `i` with a pair of the same key changes the
      lookup of that key only. */
  lemma SetAt<V>(m: Dict<V>, i: nat, v: V, k': string)
    requires i < |m|
    ensures Keys(m[i := (m[i].0, v)]) == Keys(m)
    ensures Get(m[i := (m[i].0, v)], k') ==
      if k' == m[i].0 && Seqs.FirstIndex(Keys(m), k') == i then Some(v) else Get(m, k')
  {
    var r := m[i := (m[i].0, v)];
    assert Keys(r) == Keys(m);
    if k' in Keys(m) {
      var j := Seqs.FirstIndex(Keys(m), k');
      GetFirst(m, k');
      GetFirst(r, k');
    }
  }

  /** `d[k] = v`: overwrite in place when `k` is present, append otherwise. */
  function Put<V>(m: Dict<V>, k: string, v: V): (r: Dict<V>)
    ensures k in Keys(m) ==> Keys(r) == Keys(m)
    ensures k !in Keys(m) ==> r == m + [(k, v)]
    ensures Get(r, k) == Some(v)
    ensures forall k' :: k' != k ==> Get(r, k') == Get(m, k')
    ensures Distinct(m) ==> Distinct(r)
  {
    if k in Keys(m) then
      var i := Seqs.FirstIndex(Keys(m), k);
      SetAt(m, i, v, k);
      assert forall k' :: k' != k ==> Get(m[i := (k, v)], k') == Get(m, k') by {
        forall k' | k' != k
          ensures Get(m[i := (k, v)], k') == Get(m, k')
        {
          SetAt(m, i, v, k');
        }
      }
      m[i := (k, v)]
    else
      AppendFreshDistinct(m, k, v);
      assert Get(m + [(k, v)], k) == Some(v) by {
        GetAppend(m, k, v, k);
      }
      assert forall k' :: k' != k ==> Get(m + [(k, v)], k') == Get(m, k') by {
        forall k' | k' != k
          ensures Get(m + [(k, v)], k') == Get(m, k')
        {
          GetAppend(m, k, v, k');
        }
      }
      m + [(k, v)]
  }

  /** `del d[k]` when `k` is present; the identity otherwise. */
  function Remove<V>(m: Dict<V>, k: string): (r: Dict<V>)
    ensures Keys(r) == Seqs.RemoveFirst(Keys(m), k)
    ensures forall k' :: k' != k ==> Get(r, k') == Get(m, k')
    ensures Distinct(m) ==> Distinct(r) && k !in Keys(r)
  {
    if |m| == 0 then m
    else if m[0].0 == k then
      assert Keys(m) == [k] + Keys(m[1..]);
      Seqs.RemoveFirstNoDup(Keys(m), k);
      m[1..]
    else
      var t := Remove(m[1..], k);
      assert Keys(m) == [m[0].0] + Keys(m[1..]);
      assert Keys([m[0]] + t) == [m[0].0] + Keys(t);
      assert ([m[0]] + t)[1..] == t;
      Seqs.RemoveFirstNoDup(Keys(m), k);
      [m[0]] + t
  }

  /** `if k not in d: d[k] = v`. */
  function SetDefault<V>(m: Dict<V>, k: string, v: V): (r: Dict<V>)
    ensures k in Keys(m) ==> r == m
    ensures k !in Keys(m) ==> r == m + [(k, v)]
    ensures Get(r, k) == Some(Get(m, k).GetOr(v))
    ensures forall k' :: k' != k ==> Get(r, k') == Get(m, k')
    ensures Distinct(m) ==> Distinct(r)
  {
    if k in Keys(m) then m else Put(m, k, v)
  }

  /** `{k: f(v) for k, v in d.items()}`. */
  function MapValues<V, W>(m: Dict<V>, f: V -> W): (r: Dict<W>)
    ensures Keys(r) == Keys(m)
    ensures |r| == |m| && forall i :: 0 <= i < |m| ==> r[i] == (m[i].0, f(m[i].1))
  {
    seq(|m|, i requires 0 <= i < |m| => (m[i].0, f(m[i].1)))
  }

  /** Mapping the values commutes with appending an entry. */
  lemma MapValuesAppend<V, W>(m: Dict<V>, p: (string, V), f: V -> W)
    ensures MapValues(m + [p], f) == MapValues(m, f) + [(p.0, f(p.1))]
  {
    var l, r := MapValues(m + [p], f), MapValues(m, f) + [(p.0, f(p.1))];
    assert |l| == |r|;
    forall i | 0 <= i < |l|
      ensures l[i] == r[i]
    {
      if i < |m| {
        assert (m + [p])[i] == m[i];
      }
    }
  }

  /** `dict(pairs)`: the dictionary built by assigning the pairs in order, so a
      repeated key keeps its first position and takes its last value. This is
      how `json.load` turns the members of a JSON object into a `dict`. */
  function FromPairs<V>(ps: Dict<V>): (r: Dict<V>)
    ensures Distinct(r)
  {
    if |ps| == 0 then []
    else Put(FromPairs(ps[..|ps| - 1]), ps[|ps| - 1].0, ps[|ps| - 1].1)
  }

  /** `dict(pairs)` has exactly the keys that occur among the pairs. */
  lemma {:induction false} FromPairsKeys<V>(ps: Dict<V>, k: string)
    ensures k in Keys(FromPairs(ps)) <==> k in Keys(ps)
  {
    if |ps| > 0 {
      var init := ps[..|ps| - 1];
      KeysConcat(init, [ps[|ps| - 1]]);
      assert init + [ps[|ps| - 1]] == ps;
      FromPairsKeys(init, k);
      assert Get(FromPairs(ps), k).Some? <==> k == ps[|ps| - 1].0 || Get(FromPairs(init), k).Some?;
    }
  }

  /** `dict(pairs)` keeps each key at the position of its FIRST pair: its keys
      are the keys of the pairs in order of first occurrence. */
  lemma {:induction false} FromPairsOrder<V>(ps: Dict<V>)
    ensures Keys(FromPairs(ps)) == Seqs.FirstOccurrences(Keys(ps))
  {
    if |ps| > 0 {
      var init := ps[..|ps| - 1];
      var last := ps[|ps| - 1];
      FromPairsOrder(init);
      assert Keys(ps)[..|ps| - 1] == Keys(init);
      assert Keys(ps)[|ps| - 1] == last.0;
      var d := FromPairs(init);
      if last.0 !in Keys(d) {
        KeysConcat(d, [last]);
      }
    }
  }

  /** In `dict(pairs)` a key maps to the value of its LAST pair. */
  lemma {:induction false} FromPairsLastWins<V>(ps: Dict<V>, i: int)
    requires 0 <= i < |ps|
    requires forall j :: i < j < |ps| ==> ps[j].0 != ps[i].0
    ensures Get(FromPairs(ps), ps[i].0) == Some(ps[i].1)
  {
    if i < |ps| - 1 {
      var init := ps[..|ps| - 1];
      FromPairsLastWins(init, i);
      assert ps[|ps| - 1].0 != ps[i].0;
    }
  }

  /** Building a dictionary from pairs whose keys are already distinct changes
      nothing: every key stays at its position with its value. */
  lemma {:induction false} FromPairsDistinct<V>(ps: Dict<V>)
    requires Distinct(ps)
    ensures FromPairs(ps) == ps
  {
    if |ps| > 0 {
      var init := ps[..|ps| - 1];
      KeysConcat(init, [ps[|ps| - 1]]);
      assert init + [ps[|ps| - 1]] == ps;
      assert Keys(init) == Keys(ps)[..|ps| - 1];
      assert Distinct(init);
      FromPairsDistinct(init);
      assert ps[|ps| - 1].0 !in Keys(init);
      assert init + [ps[|ps| - 1]] == ps;
    }
  }
}

/** `config_manager`: turning the parsed configuration document into the
    category map (`load_config`), the built-in defaults
    (`initialize_default_categories`) and the document written back
    (`save_config`). Reading and writing the file and `json.load`/`json.dump`
    are outside: the parsed document is an input and the saved one an output. */
module Config {
  import opened Wrappers
  import opened OrderedDict
  import opened Categories
  import Seqs
  import Editing
  import Text
  import Classifier
  import Pattern

  /** A parsed JSON value. An object keeps its members as written, in order;
      `json.load` turns them into a `dict` with `FromPairs`. */
  datatype Json =
    | JNull
    | JBool(b: bool)
    | JNumber(n: int)
    | JString(s: string)
    | JArray(items: seq<Json>)
    | JObject(members: Dict<Json>)

  /** What reading the configuration file yields: no file, a file that cannot
      be opened or decoded, or the decoded document. */
  datatype ConfigFile = Missing | Unreadable | Parsed(doc: Json)

  /** A category as `load_config` leaves it: the three field values, kept as
      they are without checking their types. */
  datatype Stored = Stored(rules: Json, history: Json, pinned: Json)

  type StoredMap = Dict<Stored>

  const EMPTY_LIST: Json := JArray([])
  const EMPTY_STORED: Stored := Stored(EMPTY_LIST, EMPTY_LIST, EMPTY_LIST)

  /** A list of strings as a JSON array. */
  function StringList(xs: seq<string>): (j: Json)
    ensures j.JArray? && |j.items| == |xs|
    ensures forall i :: 0 <= i < |xs| ==> j.items[i] == JString(xs[i])
  {
    JArray(seq(|xs|, i requires 0 <= i < |xs| => JString(xs[i])))
  }

  /** The strings of a JSON array all of whose items are strings; `None` for
      any other value. */
  function AsStrings(j: Json): (r: Option<seq<string>>)
    ensures r.Some? <==> j.JArray? && forall i :: 0 <= i < |j.items| ==> j.items[i].JString?
    ensures r.Some? ==> j == StringList(r.value)
  {
    if j.JArray? && forall i :: 0 <= i < |j.items| ==> j.items[i].JString? then
      var xs := seq(|j.items|, i requires 0 <= i < |j.items| => j.items[i].s);
      assert j.items == StringList(xs).items;
      Some(xs)
    else None
  }

  /** A string list read back from its JSON array is the same list. */
  lemma StringListRoundTrip(xs: seq<string>)
    ensures AsStrings(StringList(xs)) == Some(xs)
  {
    var r := AsStrings(StringList(xs));
    assert r.Some?;
    assert StringList(r.value).items == StringList(xs).items;
    forall i | 0 <= i < |xs|
      ensures r.value[i] == xs[i]
    {
      assert StringList(r.value).items[i] == StringList(xs).items[i];
    }
    assert |r.value| == |StringList(r.value).items| == |xs|;
    assert r.value == xs;
  }

  /** `initialize_default_categories()` as written. The second "Links" pattern
      holds two backslashes, as the raw string literal of
      `initialize_default_categories` does, so it asks for a backslash after "www". */
  function DefaultsAsWritten(): (m: CategoryMap)
    ensures Keys(m) == [UNCATEGORIZED, "Code", "Links", "Text"]
    ensures forall i :: 0 <= i < |m| ==> m[i].1.history == [] && m[i].1.pinned == []
    ensures Get(m, UNCATEGORIZED) == Some(EMPTY_CATEGORY)
    ensures Distinct(m)
  {
    [ (UNCATEGORIZED, EMPTY_CATEGORY),
      ("Code", Category(["def ", "class ", "import ", "function(", "=>", "{", "}"], [], [])),
      ("Links", Category(["regex:https?://", "regex:www\\\\."], [], [])),
      ("Text", EMPTY_CATEGORY) ]
  }

  /** The written "Links" domain rule never matches a bare domain such as
      "www.x", but does match the text "www\\x". */
  lemma WrittenDomainRuleMissesDomains()
    ensures var rule := DefaultsAsWritten()[2].1.rules[1];
      && Text.StartsWith(rule, Classifier.REGEX_PREFIX)
      && var p := Pattern.Parse(rule[|Classifier.REGEX_PREFIX|..]);
      && p == Some([Pattern.Lit('w'), Pattern.Lit('w'), Pattern.Lit('w'), Pattern.Lit('\\'), Pattern.AnyChar])
      && !Pattern.SearchFrom(p.value, "www.x", 0)
      && Pattern.SearchFrom(p.value, "www\\x", 0)
  {
    var atoms := [Pattern.Lit('w'), Pattern.Lit('w'), Pattern.Lit('w'), Pattern.Lit('\\'), Pattern.AnyChar];
    assert DefaultsAsWritten()[2].1.rules[1][6..] == "www\\\\.";
    WrittenDomainPattern();
    assert !Pattern.MatchesAt(atoms, "www.x", 0) by {
      assert !Pattern.AtomMatches(atoms[3], "www.x"[3]);
    }
    assert Pattern.MatchesAt(atoms, "www\\x", 0);
  }

  /** The atoms of the written domain pattern `www\\.`. */
  lemma WrittenDomainPattern()
    ensures Pattern.Parse("www\\\\.") == Some([Pattern.Lit('w'), Pattern.Lit('w'), Pattern.Lit('w'), Pattern.Lit('\\'), Pattern.AnyChar])
  {
    var atoms := [Pattern.Lit('w'), Pattern.Lit('w'), Pattern.Lit('w'), Pattern.Lit('\\'), Pattern.AnyChar];
    var p := "www\\\\.";
    assert Pattern.Parse(p[5..]) == Some(atoms[4..]) by {
      assert p[5..][0] == '.' && !Pattern.IsMeta('.');
      assert p[5..][1..] == [] && Pattern.Parse([]) == Some([]);
      assert [Pattern.AnyChar] + [] == atoms[4..];
    }
    assert Pattern.Parse(p[3..]) == Some(atoms[3..]) by {
      assert p[3..][0] == '\\' && !Pattern.IsWordChar(p[3..][1]);
      assert p[3..][2..] == p[5..];
      assert [Pattern.Lit('\\')] + atoms[4..] == atoms[3..];
    }
    assert Pattern.Parse(p[2..]) == Some(atoms[2..]) by {
      assert p[2..][0] == 'w' && !Pattern.IsMeta('w');
      assert p[2..][1..] == p[3..];
      assert [Pattern.Lit('w')] + atoms[3..] == atoms[2..];
    }
    assert Pattern.Parse(p[1..]) == Some(atoms[1..]) by {
      assert p[1..][0] == 'w' && !Pattern.IsMeta('w');
      assert p[1..][1..] == p[2..];
      assert [Pattern.Lit('w')] + atoms[2..] == atoms[1..];
    }
    assert Pattern.Parse(p) == Some(atoms) by {
      assert p[0] == 'w' && !Pattern.IsMeta('w');
      assert [Pattern.Lit('w')] + atoms[1..] == atoms;
    }
  }

  /** `initialize_default_categories()` with the "Links" domain pattern as
      evidently intended: `www\.`, an escaped dot. */
  function Defaults(): (m: CategoryMap)
    ensures Keys(m) == [UNCATEGORIZED, "Code", "Links", "Text"]
    ensures forall i :: 0 <= i < |m| ==> m[i].1.history == [] && m[i].1.pinned == []
    ensures Get(m, UNCATEGORIZED) == Some(EMPTY_CATEGORY)
    ensures Distinct(m)
  {
    [ (UNCATEGORIZED, EMPTY_CATEGORY),
      ("Code", Category(["def ", "class ", "import ", "function(", "=>", "{", "}"], [], [])),
      ("Links", Category(["regex:https?://", "regex:www\\."], [], [])),
      ("Text", EMPTY_CATEGORY) ]
  }

  /** Both default maps satisfy the invariant the operations keep: four
      distinct names including "Uncategorized", and no rule list or history
      with a duplicate. */
  lemma DefaultsWellFormed()
    ensures WellFormed(Defaults())
    ensures WellFormed(DefaultsAsWritten())
  {
    DefaultsWellFormedAt(Defaults());
    DefaultsWellFormedAt(DefaultsAsWritten());
  }

  /** A map with the default names, empty histories and duplicate-free rule
      lists is well formed. */
  lemma DefaultsWellFormedAt(m: CategoryMap)
    requires Keys(m) == [UNCATEGORIZED, "Code", "Links", "Text"] && Distinct(m)
    requires forall i :: 0 <= i < |m| ==> m[i].1.history == [] && Seqs.NoDup(m[i].1.rules)
    ensures WellFormed(m)
  {
    forall k | k in Keys(m)
      ensures Seqs.NoDup(Get(m, k).value.rules) && Seqs.NoDup(Get(m, k).value.history)
    {
      var i :| 0 <= i < |m| && Keys(m)[i] == k;
      GetAt(m, i);
    }
  }

  /** The corrected "Links" domain rule is exactly the substring test for
      "www.": it catches every bare domain. */
  lemma DomainRuleIsSubstringTest(t: string)
    ensures var rule := Defaults()[2].1.rules[1];
      && Text.StartsWith(rule, Classifier.REGEX_PREFIX)
      && var p := Pattern.Parse(rule[|Classifier.REGEX_PREFIX|..]);
      && p.Some?
      && (Pattern.SearchFrom(p.value, t, 0) <==> Text.Contains(t, "www."))
  {
    assert Defaults()[2].1.rules[1][6..] == Pattern.Quote("www.");
    Pattern.QuotedSearch("www.", t);
  }

  /** A typed category in the shape `load_config` keeps it. */
  function EncodeCategory(c: Category): Stored {
    Stored(StringList(c.rules), StringList(c.history), StringList(c.pinned))
  }

  /** A typed category map in the shape `load_config` returns. */
  function Encode(m: CategoryMap): (s: StoredMap)
    ensures Keys(s) == Keys(m)
  {
    MapValues(m, EncodeCategory)
  }

  /** `data.get(field, [])` on a category object. */
  function Field(members: Dict<Json>, field: string): Json {
    Get(FromPairs(members), field).GetOr(EMPTY_LIST)
  }

  /** One entry of the loop in `load_config`: an object keeps its three fields
      (`[]` for a missing one) and drops every other member; anything else is
      reset to three empty lists. */
  function SanitizeEntry(v: Json): (e: Stored)
    ensures v.JObject? ==>
      && (e.rules == if "rules" in Keys(FromPairs(v.members)) then Get(FromPairs(v.members), "rules").value else EMPTY_LIST)
      && (e.history == if "history" in Keys(FromPairs(v.members)) then Get(FromPairs(v.members), "history").value else EMPTY_LIST)
      && (e.pinned == if "pinned_history" in Keys(FromPairs(v.members)) then Get(FromPairs(v.members), "pinned_history").value else EMPTY_LIST)
    ensures !v.JObject? ==> e == EMPTY_STORED
  {
    match v
    case JObject(members) =>
      Stored(Field(members, "rules"), Field(members, "history"), Field(members, "pinned_history"))
    case _ => EMPTY_STORED
  }

  /** The validation loop of `load_config` on a decoded object, followed by
      the "Uncategorized" injection: every entry sanitised in document order,
      and an empty "Uncategorized" appended when the document lacks it. */
  function Sanitize(members: Dict<Json>): (r: StoredMap)
    ensures Distinct(r) && UNCATEGORIZED in Keys(r)
    ensures var d := FromPairs(members);
      && (forall k :: k in Keys(d) ==> Get(r, k) == Some(SanitizeEntry(Get(d, k).value)))
      && (UNCATEGORIZED in Keys(d) ==> Keys(r) == Keys(d))
      && (UNCATEGORIZED !in Keys(d) ==> Keys(r) == Keys(d) + [UNCATEGORIZED] && Get(r, UNCATEGORIZED) == Some(EMPTY_STORED))
  {
    var d := FromPairs(members);
    var loaded := MapValues(d, SanitizeEntry);
    var r := SetDefault(loaded, UNCATEGORIZED, EMPTY_STORED);
    SanitizeFacts(d, loaded, r);
    r
  }

  /** What the loop and the injection do, stated per key. */
  lemma SanitizeFacts(d: Dict<Json>, loaded: StoredMap, r: StoredMap)
    requires Distinct(d) && loaded == MapValues(d, SanitizeEntry)
    requires r == SetDefault(loaded, UNCATEGORIZED, EMPTY_STORED)
    ensures Distinct(r) && UNCATEGORIZED in Keys(r)
    ensures forall k :: k in Keys(d) ==> Get(r, k) == Some(SanitizeEntry(Get(d, k).value))
    ensures UNCATEGORIZED in Keys(d) ==> Keys(r) == Keys(d)
    ensures UNCATEGORIZED !in Keys(d) ==> Keys(r) == Keys(d) + [UNCATEGORIZED] && Get(r, UNCATEGORIZED) == Some(EMPTY_STORED)
  {
    LoadedValues(d, loaded);
    KeysConcat(loaded, [(UNCATEGORIZED, EMPTY_STORED)]);
    forall k | k in Keys(d)
      ensures Get(r, k) == Get(loaded, k)
    {
      if k == UNCATEGORIZED {
        assert r == loaded;
      }
    }
  }

  /** `load_config()` without the file access: the defaults when there is no
      file, it cannot be read, or its top level is not an object. */
  function LoadConfig(f: ConfigFile): (r: StoredMap)
    ensures Distinct(r) && UNCATEGORIZED in Keys(r)
    ensures !(f.Parsed? && f.doc.JObject?) ==> r == Encode(Defaults())
    ensures f.Parsed? && f.doc.JObject? ==> r == Sanitize(f.doc.members)
  {
    if f.Parsed? && f.doc.JObject? then Sanitize(f.doc.members)
    else
      var m := Defaults();
      assert Keys(Encode(m)) == Keys(m);
      Encode(m)
  }

  /** Without a usable file the application starts from the defaults, which
      read back as a typed map that satisfies the invariant. */
  lemma FallbackStartsWellFormed(f: ConfigFile)
    requires !(f.Parsed? && f.doc.JObject?)
    ensures var d := Decode(LoadConfig(f));
      d == Some(Defaults()) && WellFormed(d.value)
  {
    DecodeEncode(Defaults());
    DefaultsWellFormed();
  }

  /** Looking up a key of the sanitised dictionary finds the sanitised value. */
  lemma LoadedValues(d: Dict<Json>, loaded: StoredMap)
    requires Distinct(d) && loaded == MapValues(d, SanitizeEntry)
    ensures Distinct(loaded)
    ensures forall k :: k in Keys(d) ==> Get(loaded, k) == Some(SanitizeEntry(Get(d, k).value))
  {
    forall k | k in Keys(d)
      ensures Get(loaded, k) == Some(SanitizeEntry(Get(d, k).value))
    {
      var i := Seqs.FirstIndex(Keys(d), k);
      GetAt(d, i);
      GetAt(loaded, i);
    }
  }

  /** A category's three fields read back as string lists, or `None` when a
      field holds anything else. */
  function DecodeCategory(e: Stored): (r: Option<Category>)
    ensures r.Some? ==> EncodeCategory(r.value) == e
  {
    match (AsStrings(e.rules), AsStrings(e.history), AsStrings(e.pinned))
    case (Some(rules), Some(history), Some(pinned)) => Some(Category(rules, history, pinned))
    case _ => None
  }

  /** The typed category map a loaded map stands for, when every field of every
      entry is a list of strings. */
  function Decode(s: StoredMap): (r: Option<CategoryMap>)
    ensures r.Some? <==> forall i :: 0 <= i < |s| ==> DecodeCategory(s[i].1).Some?
    ensures r.Some? ==> Encode(r.value) == s
  {
    if |s| == 0 then Some([])
    else
      match (DecodeCategory(s[0].1), Decode(s[1..]))
      case (Some(c), Some(rest)) =>
        var m := [(s[0].0, c)] + rest;
        assert Encode(m) == [s[0]] + Encode(rest);
        assert s == [s[0]] + s[1..];
        Some(m)
      case (None, _) => None
      case (_, None) =>
        assert forall i :: 1 <= i < |s| ==> s[i] == s[1..][i - 1];
        None
  }

  /** Decoding undoes encoding. */
  lemma {:induction false} DecodeEncode(m: CategoryMap)
    ensures Decode(Encode(m)) == Some(m)
  {
    if |m| > 0 {
      DecodeEncodeCategory(m[0].1);
      DecodeEncode(m[1..]);
      assert Encode(m)[0] == (m[0].0, EncodeCategory(m[0].1));
      assert Encode(m)[1..] == Encode(m[1..]);
      assert m == [m[0]] + m[1..];
    }
  }

  /** Decoding undoes encoding, for one category. */
  lemma DecodeEncodeCategory(c: Category)
    ensures DecodeCategory(EncodeCategory(c)) == Some(c)
  {
    StringListRoundTrip(c.rules);
    StringListRoundTrip(c.history);
    StringListRoundTrip(c.pinned);
  }

  /** The object `save_config` writes for one category: exactly the three
      fields. */
  function SaveEntry(c: Category): Json {
    JObject([("rules", StringList(c.rules)), ("history", StringList(c.history)), ("pinned_history", StringList(c.pinned))])
  }

  /** `save_config(categories)` without the file access: the document to write,
      with the same keys in the same order and, for each, exactly the three
      fields. */
  function SaveConfig(m: CategoryMap): (j: Json)
    ensures j.JObject? && Keys(j.members) == Keys(m)
    ensures forall i :: 0 <= i < |m| ==>
      j.members[i].1 == JObject([("rules", StringList(m[i].1.rules)),
                                 ("history", StringList(m[i].1.history)),
                                 ("pinned_history", StringList(m[i].1.pinned))])
  {
    JObject(MapValues(m, SaveEntry))
  }

  /** Loading what was saved gives back each category's fields. */
  lemma SanitizeSaved(c: Category)
    ensures SanitizeEntry(SaveEntry(c)) == EncodeCategory(c)
  {
    var ms := SaveEntry(c).members;
    assert Keys(ms) == ["rules", "history", "pinned_history"];
    assert Distinct(ms);
    FromPairsDistinct(ms);
    GetAt(ms, 0);
    GetAt(ms, 1);
    GetAt(ms, 2);
  }

  /** Sanitising the saved document yields the encoded map. */
  lemma {:induction false} SanitizeSavedMap(m: CategoryMap)
    requires Distinct(m)
    ensures MapValues(FromPairs(SaveConfig(m).members), SanitizeEntry) == Encode(m)
  {
    var members := SaveConfig(m).members;
    assert Keys(members) == Keys(m);
    FromPairsDistinct(members);
    var loaded := MapValues(members, SanitizeEntry);
    forall i | 0 <= i < |m|
      ensures loaded[i] == Encode(m)[i]
    {
      SanitizeSaved(m[i].1);
    }
  }

  /** Injecting "Uncategorized" commutes with encoding. */
  lemma EncodeEnsureUncategorized(m: CategoryMap)
    ensures SetDefault(Encode(m), UNCATEGORIZED, EMPTY_STORED) == Encode(Editing.EnsureUncategorized(m))
  {
    var e := Editing.EnsureUncategorized(m);
    assert e == SetDefault(m, UNCATEGORIZED, EMPTY_CATEGORY);
    if UNCATEGORIZED !in Keys(m) {
      MapValuesAppend(m, (UNCATEGORIZED, EMPTY_CATEGORY), EncodeCategory);
    }
  }

  /** Round trip: loading the saved document of a category map gives back the
      map itself, with "Uncategorized" added when it was missing. */
  lemma SaveLoadRoundTrip(m: CategoryMap)
    requires Distinct(m)
    ensures LoadConfig(Parsed(SaveConfig(m))) == Encode(Editing.EnsureUncategorized(m))
    ensures Decode(LoadConfig(Parsed(SaveConfig(m)))) == Some(Editing.EnsureUncategorized(m))
  {
    var j := SaveConfig(m);
    assert LoadConfig(Parsed(j)) == Sanitize(j.members);
    assert Sanitize(j.members) == SetDefault(MapValues(FromPairs(j.members), SanitizeEntry), UNCATEGORIZED, EMPTY_STORED);
    SanitizeSavedMap(m);
    EncodeEnsureUncategorized(m);
    DecodeEncode(Editing.EnsureUncategorized(m));
  }

  /** After a save and a load, every category has the rules, history and
      pinned history it had before. */
  lemma SaveLoadKeepsFields(m: CategoryMap, k: string)
    requires Distinct(m) && k in Keys(m)
    ensures var d := Decode(LoadConfig(Parsed(SaveConfig(m))));
      d.Some? && Get(d.value, k) == Get(m, k)
  {
    SaveLoadRoundTrip(m);
    var e := Editing.EnsureUncategorized(m);
    if k == UNCATEGORIZED {
      assert Get(e, k) == Some(Get(m, k).GetOr(EMPTY_CATEGORY));
    } else {
      assert Get(e, k) == Get(m, k);
    }
  }
}

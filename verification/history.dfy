/** The per-category history of `ClipboardManagerApp`: adding an item
    (`add_to_history`), deleting one (`delete_history_item`), the pipeline that
    classifies new clipboard content and files it (`process_clipboard_content`),
    and the one-line text each history entry is shown with. */
module History {
  import opened Wrappers
  import opened OrderedDict
  import opened Categories
  import Seqs
  import Text
  import Classifier

  /** `HISTORY_LIMIT_PER_CATEGORY`. */
  const HISTORY_LIMIT: nat := 50

  /** The list edit `add_to_history` performs on a history: nothing when `item`
      is already at the head; otherwise `item` moves (or is inserted) to the
      head and the list is cut back to the limit. */
  function PushFront(h: seq<string>, item: string): (r: seq<string>)
    ensures |h| > 0 && h[0] == item ==> r == h
    ensures !(|h| > 0 && h[0] == item) ==>
      && |r| > 0 && r[0] == item
      && |r| <= HISTORY_LIMIT
      && r[1..] <= Seqs.RemoveFirst(h, item)
      && |r| == if 1 + |Seqs.RemoveFirst(h, item)| > HISTORY_LIMIT then HISTORY_LIMIT else 1 + |Seqs.RemoveFirst(h, item)|
  {
    if |h| > 0 && h[0] == item then h
    else
      var moved := [item] + Seqs.RemoveFirst(h, item);
      if |moved| > HISTORY_LIMIT then moved[..HISTORY_LIMIT] else moved
  }

  /** On a duplicate-free history, the item ends up exactly once in the result,
      which is again duplicate-free and holds nothing that was not there before
      apart from the item. */
  lemma PushFrontNoDup(h: seq<string>, item: string)
    requires Seqs.NoDup(h)
    ensures item in PushFront(h, item) && Seqs.NoDup(PushFront(h, item))
    ensures forall x :: x in PushFront(h, item) ==> x == item || x in h
  {
    if !(|h| > 0 && h[0] == item) {
      var rest := Seqs.RemoveFirst(h, item);
      Seqs.RemoveFirstNoDup(h, item);
      var moved := [item] + rest;
      assert Seqs.NoDup(moved) by {
        assert forall k :: 0 < k < |moved| ==> moved[k] == rest[k - 1];
      }
      var r := PushFront(h, item);
      assert r == moved[..|r|];
      assert forall k :: 0 <= k < |r| ==> r[k] == moved[k];
      forall x | x in r
        ensures x == item || x in h
      {
        if x != item {
          assert x in moved;
          Seqs.RemoveFirstSubset(h, item, x);
        }
      }
    }
  }

  /** `add_to_history(category_name, item)`: only the named category's history
      changes; a name not in the map changes nothing. */
  function AddToHistory(m: CategoryMap, name: string, item: string): (r: CategoryMap)
    ensures name !in Keys(m) ==> r == m
    ensures Keys(r) == Keys(m)
    ensures forall k :: k != name ==> Get(r, k) == Get(m, k)
    ensures name in Keys(m) ==>
      var before := Get(m, name).value;
      var after := Get(r, name).value;
      && after.history == PushFront(before.history, item)
      && after.rules == before.rules
      && after.pinned == before.pinned
    ensures Distinct(m) ==> Distinct(r)
  {
    match Get(m, name)
    case None => m
    case Some(c) => Put(m, name, c.(history := PushFront(c.history, item)))
  }

  /** The capacity bound and the head position: after adding, the item heads
      the category's history, which has at most `HISTORY_LIMIT` entries (a
      history loaded longer than the limit that already starts with the item
      is left as it is). */
  lemma AddToHistoryHead(m: CategoryMap, name: string, item: string)
    requires name in Keys(m)
    ensures var h := Get(AddToHistory(m, name, item), name).value.history;
      && |h| > 0 && h[0] == item
      && (|h| <= HISTORY_LIMIT || h == Get(m, name).value.history)
  {
  }

  /** `delete_history_item(category_name, item)`: removes the first occurrence
      of the item from the category's history; reports it missing otherwise. */
  function DeleteHistoryItem(m: CategoryMap, name: string, item: string): (r: Update)
    ensures (name in Keys(m) && item in Get(m, name).value.history) <==> r.status == ItemDeleted(name)
    ensures r.status != ItemDeleted(name) ==> r == Update(m, ItemNotFound)
    ensures Keys(r.categories) == Keys(m)
    ensures forall k :: k != name ==> Get(r.categories, k) == Get(m, k)
    ensures r.status == ItemDeleted(name) ==>
      var before := Get(m, name).value;
      var after := Get(r.categories, name).value;
      && after.history == Seqs.RemoveFirst(before.history, item)
      && |after.history| == |before.history| - 1
      && after.rules == before.rules
      && after.pinned == before.pinned
    ensures Distinct(m) ==> Distinct(r.categories)
  {
    match Get(m, name)
    case Some(c) =>
      if item in c.history then
        Update(Put(m, name, c.(history := Seqs.RemoveFirst(c.history, item))), ItemDeleted(name))
      else Update(m, ItemNotFound)
    case None => Update(m, ItemNotFound)
  }

  /** Longest text shown for one history entry (`max_len`). */
  const DISPLAY_LIMIT: nat := 80

  /** The label text of a history entry: newlines become spaces, surrounding
      whitespace is stripped, and text longer than 80 characters is cut to 77
      characters followed by "...". */
  function DisplayText(item: string): (r: string)
    ensures '\n' !in r
    ensures |r| <= DISPLAY_LIMIT
    ensures var t := Text.Strip(Text.ReplaceChar(item, '\n', ' '));
      && (|t| <= DISPLAY_LIMIT ==> r == t)
      && (|t| > DISPLAY_LIMIT ==> r == t[..DISPLAY_LIMIT - 3] + "...")
  {
    var t := Text.Strip(Text.ReplaceChar(item, '\n', ' '));
    DisplayHasNoNewline(item);
    if |t| > DISPLAY_LIMIT then t[..DISPLAY_LIMIT - 3] + "..." else t
  }

  /** Stripping the newline-free text keeps it newline-free. */
  lemma DisplayHasNoNewline(item: string)
    ensures '\n' !in Text.Strip(Text.ReplaceChar(item, '\n', ' '))
  {
    var s := Text.ReplaceChar(item, '\n', ' ');
    assert '\n' !in s;
    Text.StripKeepsCharacters(s);
  }

  /** `process_clipboard_content(content)`: classify the content and put it at
      the head of the chosen category's history. A chosen name of "" adds
      nothing and leaves the status label alone. Any other name is reported
      as added, even one missing from the map (the map may lack
      "Uncategorized"): `add_to_history` then only warns, and
      `update_history_display` returns early for a category without a tab. */
  function ProcessClipboardContent(search: Classifier.RegexSearch, m: CategoryMap, content: string): (r: Update)
    ensures var name := Classifier.Categorize(search, content, m);
      && (r.status == ItemAdded(name) <==> name != "")
      && (name == "" ==> r == Update(m, Silent))
      && (name !in Keys(m) ==> r.categories == m)
      && Keys(r.categories) == Keys(m)
      && (forall k :: k != name ==> Get(r.categories, k) == Get(m, k))
      && (name in Keys(m) && name != "" ==>
            var before := Get(m, name).value;
            var after := Get(r.categories, name).value;
            && after.history == PushFront(before.history, content)
            && |after.history| > 0 && after.history[0] == content
            && (|after.history| <= HISTORY_LIMIT || after.history == before.history)
            && after.rules == before.rules
            && after.pinned == before.pinned)
    ensures Distinct(m) ==> Distinct(r.categories)
  {
    var name := Classifier.Categorize(search, content, m);
    if name == "" then Update(m, Silent)
    else Update(AddToHistory(m, name, content), ItemAdded(name))
  }

  /** Deleting a history entry keeps the invariant. */
  lemma DeleteHistoryItemKeeps(m: CategoryMap, name: string, item: string)
    requires WellFormed(m)
    ensures WellFormed(DeleteHistoryItem(m, name, item).categories)
  {
    if name in Keys(m) {
      Seqs.RemoveFirstNoDup(Get(m, name).value.history, item);
    }
    ChangeOneKeeps(m, DeleteHistoryItem(m, name, item).categories, name);
  }

  /** Recording clipboard content keeps the invariant: the history it lands in
      stays duplicate-free. */
  lemma ProcessKeeps(search: Classifier.RegexSearch, m: CategoryMap, content: string)
    requires WellFormed(m)
    ensures WellFormed(ProcessClipboardContent(search, m, content).categories)
  {
    var name := Classifier.Categorize(search, content, m);
    if name in Keys(m) {
      PushFrontNoDup(Get(m, name).value.history, content);
    }
    ChangeOneKeeps(m, ProcessClipboardContent(search, m, content).categories, name);
  }

  /** Re-adding an item moves it to the head without duplicating it:
      adding "x", then "y", then "x" to an empty history gives ["x", "y"]. */
  lemma DedupOnAddExample()
    ensures PushFront(PushFront(PushFront([], "x"), "y"), "x") == ["x", "y"]
  {
    assert PushFront([], "x") == ["x"];
    assert PushFront(["x"], "y") == ["y", "x"];
    assert Seqs.RemoveFirst(["y", "x"], "x") == ["y"];
  }

  /** Content no rule matches goes to "Uncategorized"; on a map without that
      category nothing is recorded, yet the item is still reported as added. */
  lemma ProcessMissingCategoryExample(search: Classifier.RegexSearch)
    ensures ProcessClipboardContent(search, [], "x") == Update([], ItemAdded(UNCATEGORIZED))
  {
  }

  /** At capacity, a new item evicts exactly the oldest entry. */
  lemma EvictsOldest(h: seq<string>, item: string)
    requires |h| == HISTORY_LIMIT && item !in h
    ensures PushFront(h, item) == [item] + h[..HISTORY_LIMIT - 1]
  {
  }
}

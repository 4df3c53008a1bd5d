# Clipboard manager: categoriser, poller step, history store and configuration

A model of the deterministic core of a desktop clipboard manager. A background
loop polls the system clipboard and reports each new piece of text. A
first-match classifier chooses a category for the text from ordered
substring and `regex:` rules. The text is then placed at the head of that
category's bounded, duplicate-free history. The user edits the categories
and their rules. The category map is loaded from a JSON configuration and
saved back to it.

The model is functional:

- The category map is an insertion-ordered dictionary, a sequence of
  name/category pairs with Python `dict` semantics (module `OrderedDict`).
- Every operation is a pure function from the map to a new map, plus the
  status message the application shows.
- The regex engine is a function parameter that answers `None` when a
  pattern does not compile.
- One iteration of the polling loop is a step function that takes what the
  clipboard returned.

Modules:

- `Wrappers`: `Option`.
- `Seqs`: duplicate-freedom and `list.remove`.
- `Text`: `str.isspace`, `strip`, `in` on strings and `replace`.
- `Pattern`: a fragment of Python's regex syntax, used for the default rules.
- `OrderedDict`: the dictionary.
- `Categories`: the category data and the invariant.
- `Classifier`: `categorize_content`.
- `Poller`: `_monitor_loop` and `_get_initial_clipboard`.
- `History`: `add_to_history`, `delete_history_item`,
  `process_clipboard_content` and the label text of a history entry.
- `Editing`: category and rule editing.
- `Config`: `config_manager`.
- `App`: commands replayed on the map.

The invariant `Categories.WellFormed` says that names are unique, that
"Uncategorized" is present, and that no rule list or history holds a
duplicate. Every command keeps it (`App.Replay`).

Three behaviours of the code are worth knowing:

- A poller error other than `ClipboardEmpty` re-reads the clipboard and
  stores the value it reads, or "" when that read fails or is not text.
- `add_to_history` does nothing when the item is already at the head of the
  history, and it never touches `pinned_history`.
- The classifier returns "Uncategorized" even when the map has no such key.
  `process_clipboard_content` then adds nothing, but the status label still
  reports the item as added, because `update_history_display` returns early
  for a category without a tab.

The invariant holds for both default maps (`Config.DefaultsWellFormed`), so
it holds whenever the application starts without a usable configuration
file. A loaded file is another matter. `load_config` does not remove
duplicate rules or history entries, and it does not check field types. So a
hand-edited file can start the application from a map that is not well
formed, and then `App.Replay` promises nothing.

## Model

| member | source | states |
|---|---|---|
| Poller.InitialValue | clipboard_handler.py:17-24 | the initial read is the pasted text, or "" when the value is not text or the paste raised |
| Poller.Step | clipboard_handler.py:49-73 | an event happens exactly when the read is a non-empty string different from `recent_value`, and the event carries that string, which becomes `recent_value`; a non-text read changes nothing; `ClipboardEmpty` sets `recent_value` to ""; any other error replaces it with the re-fetched initial value |
| Poller.RepeatedSampleSilent | clipboard_handler.py:58-61 | reading the same outcome twice in a row gives no second event and leaves `recent_value` where the first read put it |
| Poller.Run | clipboard_handler.py:49-61 | over any run of iterations the loop emits at most one event per iteration and never emits "" |
| Poller.ValueReadsNeverRepeat | clipboard_handler.py:51-61 | while every read returns a value, consecutive events always differ, the first differs from the starting `recent_value`, and `recent_value` is the last event |
| Poller.ValueReadsKeepRecent | clipboard_handler.py:54-58 | value reads that emit nothing leave `recent_value` unchanged |
| Text.Strip | app_gui.py:288 | `strip()` removes whitespace, and only whitespace, from both ends; a non-empty result neither starts nor ends with whitespace |
| Text.StripIdempotent | app_gui.py:377 | stripping a stripped name or rule changes nothing |
| Text.StripKeepsCharacters | app_gui.py:489 | stripping introduces no character |
| Text.Contains | clipboard_handler.py:97 | `rule in content` holds exactly when the rule occurs at some position of the content |
| Text.ReplaceChar | app_gui.py:489 | `replace('\n', ' ')` keeps the length and changes exactly the newline characters |
| Seqs.RemoveFirst | app_gui.py:458 | `list.remove(x)` deletes the first occurrence of `x`, keeping the rest in order, and is the identity when `x` is absent |
| Seqs.RemoveFirstContents | app_gui.py:511 | `remove` takes away exactly one copy of the value and keeps every other value |
| Seqs.RemoveFirstNoDup | app_gui.py:400 | removing from a duplicate-free list leaves it duplicate-free and without the removed value |
| Seqs.RemoveFirstSubset | app_gui.py:458 | `remove` only takes values away |
| Seqs.AppendFreshNoDup | app_gui.py:384-385 | appending a value the list lacks keeps it duplicate-free |
| OrderedDict.Get | app_gui.py:452 | a lookup succeeds exactly for the keys of the dictionary |
| OrderedDict.GetFirst | app_gui.py:452 | a lookup finds the value of the first entry with the key |
| OrderedDict.Put | app_gui.py:290 | assignment overwrites in place when the key is present and appends otherwise; afterwards the key maps to the new value, every other key keeps its value, and the keys stay distinct |
| OrderedDict.Remove | app_gui.py:314 | `del` removes the first entry with the key and nothing else; on distinct keys the key is gone afterwards |
| OrderedDict.SetDefault | config_manager.py:53-54 | a present key leaves the dictionary unchanged; a missing key is appended at the end with the default value |
| OrderedDict.MapValues | config_manager.py:73-79 | rebuilding each value keeps the keys and their order |
| OrderedDict.FromPairs | config_manager.py:24 | the dictionary `json.load` builds from an object's members has distinct keys |
| OrderedDict.FromPairsKeys | config_manager.py:24 | its keys are exactly the keys among the members |
| OrderedDict.FromPairsOrder | config_manager.py:24 | its keys are the keys of the members in order of first occurrence: a repeated key keeps its first position |
| Seqs.FirstOccurrences | config_manager.py:24 | the first occurrences hold exactly the values of the list, each once |
| OrderedDict.FromPairsLastWins | config_manager.py:24 | a key repeated among the members takes the value of its last occurrence |
| OrderedDict.FromPairsDistinct | config_manager.py:24 | members with distinct keys become the dictionary unchanged |
| Classifier.MatchesRule | clipboard_handler.py:93-98 | a rule without the "regex:" prefix matches exactly when it is a case-sensitive substring of the content; a "regex:" rule matches exactly when the search with the text after the six-character prefix reports a match, so a pattern that does not compile matches nothing |
| Classifier.AnyRuleMatches | clipboard_handler.py:90-105 | a category's rules match exactly when one of them matches; a failing rule does not stop the scan |
| Classifier.Categorize | clipboard_handler.py:85-108 | the result is the literal "Uncategorized" or the name of another category of the map |
| Classifier.FirstHitChosen | clipboard_handler.py:89-98 | when a category other than "Uncategorized" is the first whose rules match, it is the result |
| Classifier.ResultIsFirstHit | clipboard_handler.py:89-98 | any result other than "Uncategorized" is the first matching category in map order |
| Classifier.FallbackIffNoHit | clipboard_handler.py:89-108 | the result is "Uncategorized" exactly when no other category's rules match |
| Classifier.CategorizeFirstMatch | clipboard_handler.py:85-108 | first match wins, and the fallback is taken exactly when nothing matches |
| Classifier.SameHitsSameCategory | clipboard_handler.py:85-98 | two maps with the same names whose entries match alike classify alike |
| Classifier.UncategorizedRulesIgnored | clipboard_handler.py:85-87 | replacing the rules stored under "Uncategorized" never changes the result |
| Classifier.InvalidRegexIgnored | clipboard_handler.py:92-102 | a "regex:" rule whose pattern does not compile can be deleted without changing the result; later rules and categories are still tried |
| Classifier.ClassificationOrderExample | clipboard_handler.py:89-96 | with two categories that both match, the earlier one wins whatever the regex engine answers |
| Classifier.FallbackExample | clipboard_handler.py:107-108 | content no rule matches goes to "Uncategorized" |
| History.PushFront | app_gui.py:456-463 | an item already at the head leaves the history unchanged; otherwise the item heads the result, whose tail is a prefix of the old history with the item removed, of length at most 50 |
| History.PushFrontNoDup | app_gui.py:456-460 | on a duplicate-free history the item occurs in the result, the result is duplicate-free, and it holds nothing new apart from the item |
| History.EvictsOldest | app_gui.py:460-463 | a full history without the item loses its oldest entry |
| History.DedupOnAddExample | app_gui.py:456-460 | adding "x", "y", "x" gives the history ["x", "y"] |
| History.AddToHistory | app_gui.py:449-467 | only the named category's history changes, into the edited history; its rules and pinned history are kept; an unknown name changes nothing |
| History.AddToHistoryHead | app_gui.py:456-463 | after adding, the item heads the history, which holds at most 50 entries unless it was left untouched |
| History.DeleteHistoryItem | app_gui.py:506-517 | the item is deleted exactly when the category exists and its history holds the item; then the first occurrence goes and everything else stays; otherwise nothing changes and "item not found" is reported |
| History.DisplayText | app_gui.py:488-491 | the label holds no newline and at most 80 characters; it is the stripped, newline-free text, or its first 77 characters followed by "..." when that is longer than 80 |
| History.DisplayHasNoNewline | app_gui.py:489 | replacing newlines and then stripping leaves no newline |
| History.ProcessClipboardContent | app_gui.py:436-445 | the status names the category exactly when the classifier chooses a non-empty name, and "" changes nothing; a chosen name missing from the map leaves the map unchanged; for a present name that category's history becomes `History.PushFront` of the old one (the content moved to the head, the older entries kept in order and cut at 50 entries), and its rules and pinned history are kept; every other category is untouched and the names stay the same |
| History.ProcessMissingCategoryExample | app_gui.py:440-443 | on a map without "Uncategorized", unmatched content is recorded nowhere yet reported as added to "Uncategorized" |
| History.DeleteHistoryItemKeeps | app_gui.py:506-511 | deleting a history entry keeps the invariant |
| History.ProcessKeeps | app_gui.py:436-460 | recording clipboard content keeps the invariant |
| Editing.AddCategory | app_gui.py:286-301 | the stripped name is appended with no rules and no history exactly when it is non-empty and new; an empty or taken name leaves the map unchanged with the matching message |
| Editing.AddedNameIsStripped | app_gui.py:288-290 | an added category name is non-empty and has no surrounding whitespace |
| Editing.AddCategoryKeeps | app_gui.py:286-290 | adding a category keeps the invariant |
| Editing.DeleteCategory | app_gui.py:303-314 | "" and "Uncategorized" are refused; an unconfirmed deletion changes nothing; a confirmed one removes that key only |
| Editing.DeleteCategoryKeeps | app_gui.py:303-314 | deleting a category keeps the invariant, so "Uncategorized" is never lost |
| Editing.AddRule | app_gui.py:374-393 | the stripped rule is appended exactly when the selection and the rule are non-empty, the category exists and the rule is new; otherwise the map is unchanged and the message says why |
| Editing.AddRuleNoDup | app_gui.py:384-385 | rule lists stay duplicate-free |
| Editing.AddRuleKeeps | app_gui.py:374-385 | adding a rule keeps the invariant |
| Editing.DeleteRule | app_gui.py:395-406 | the rule's first occurrence is removed exactly when the category has it, keeping the history and pinned history; otherwise nothing changes |
| Editing.DeleteRuleKeeps | app_gui.py:395-400 | deleting a rule keeps the invariant |
| Editing.EnsureUncategorized | app_gui.py:280-283 | afterwards "Uncategorized" exists, keeping its data when it was there and appended empty otherwise; no other category changes |
| Categories.ChangeOneKeeps | app_gui.py:449-463 | an edit confined to one category whose lists stay duplicate-free keeps the invariant |
| Pattern.ParseQuote | config_manager.py:64 | an escaped text reads back as the literal text |
| Pattern.SearchFrom | clipboard_handler.py:95 | a search succeeds exactly when the pattern matches at some position |
| Pattern.QuotedSearch | clipboard_handler.py:95 | searching for an escaped text is the substring test |
| Config.StringListRoundTrip | config_manager.py:76-78 | a list of strings written as JSON reads back as the same list |
| Config.AsStrings | config_manager.py:35-37 | a JSON value reads as a string list exactly when it is an array of strings, and then it is that list written out |
| Config.DefaultsAsWritten | config_manager.py:58-66 | the defaults as written are "Uncategorized", "Code", "Links" and "Text" in that order, with empty histories and pinned histories, an empty "Uncategorized" and distinct names |
| Config.DefaultsWellFormed | config_manager.py:58-66 | both default maps satisfy the invariant: distinct names, "Uncategorized" present, no duplicate rule or history entry |
| Config.WrittenDomainRuleMissesDomains | config_manager.py:64 | the domain rule as written parses to "www", a backslash and any character, so it does not match "www.x" but does match the text "www\x" |
| Config.Defaults | config_manager.py:58-66 | the defaults are "Uncategorized", "Code", "Links" and "Text" in that order, with empty histories and an empty "Uncategorized" |
| Config.DomainRuleIsSubstringTest | config_manager.py:64 | the corrected domain rule matches exactly the texts that contain "www." |
| Config.SanitizeEntry | config_manager.py:33-41 | an object entry keeps its "rules", "history" and "pinned_history", with `[]` for a missing field, and drops every other member; anything else becomes three empty lists |
| Config.Sanitize | config_manager.py:31-54 | every entry of the document is sanitised in document order, and an empty "Uncategorized" is appended exactly when the document lacks it |
| Config.LoadedValues | config_manager.py:32-41 | each loaded key holds its sanitised entry |
| Config.LoadConfig | config_manager.py:14-56 | no file, an unreadable file or a top level that is not an object yields the (corrected) defaults; otherwise the sanitised document, which always holds "Uncategorized" and distinct names |
| Config.FallbackStartsWellFormed | config_manager.py:18-28 | without a usable file the loaded map reads back as the defaults, which satisfy the invariant |
| Config.Decode | config_manager.py:34-38 | the loaded map reads as a typed category map exactly when every field is a list of strings, and encoding that map gives back the loaded one |
| Config.DecodeEncode | config_manager.py:34-38 | decoding undoes encoding |
| Config.DecodeEncodeCategory | config_manager.py:34-38 | decoding undoes encoding, for one category |
| Config.SaveConfig | config_manager.py:72-79 | the saved document has the same keys in the same order and, under each, exactly the three fields |
| Config.SanitizeSaved | config_manager.py:75-79 | sanitising a saved entry gives its three lists back |
| Config.SanitizeSavedMap | config_manager.py:73-79 | sanitising the saved document's entries gives back the encoded map |
| Config.EncodeEnsureUncategorized | config_manager.py:53-54 | injecting "Uncategorized" on load matches `_ensure_uncategorized_exists` on the typed map |
| Config.SaveLoadRoundTrip | config_manager.py:34-38 | loading what was saved gives back the map, with "Uncategorized" added when it was missing |
| Config.SaveLoadKeepsFields | config_manager.py:75-79 | after a save and a load every category has its rules, history and pinned history in the same order |
| App.ApplyKeeps | app_gui.py:303-307 | every command keeps the invariant |
| App.Next | app_gui.py:286-517 | the map after one command still satisfies the invariant |
| App.Replay | app_gui.py:303-307 | after any sequence of commands names are still unique, "Uncategorized" still exists and no rule list or history holds a duplicate |

## Left out

- Threads, timing and the callback hand-off are not modelled. This covers `start_monitoring`, `stop`, `join`, the 0.5 s sleeps and `self.after`. One loop iteration is a pure step function, and each read is an input.
- `clipboard.paste` is a foreign call. Its outcomes are a datatype: a text value, a non-text value, `ClipboardEmpty`, or another error together with the re-fetch outcome.
- `re.search` is a foreign call. It is the parameter `Classifier.RegexSearch`. Only the fragment in `Pattern` is given a meaning, and only so that the default rules can be read.
- File existence, `open`, `json.load` and `json.dump` are left out. A parsed document (`Config.Json`) is the input and output. A JSON number is an integer, because the fields only hold strings and lists.
- `save_config`'s boolean result is left out. It reports file-system success.
- Exceptions that `process_callback` might raise are left out.
- The log messages printed on each path are left out.
- The user interface is left out: widgets, tabs, dropdown, help overlay, tray icon, window handling, `resource_path`, the confirmation dialog and `copy_item_to_clipboard`. The confirmation is a boolean input of `Editing.DeleteCategory`. The status label texts are the `Status` datatype.
- Pinning, unpinning, moving items between categories, search and batch operations are not modelled. No code for them exists. `pinned_history` is only carried through load and save.
- The `isinstance` guards are left out: non-string content, a history that is not a list, and non-string history items. With typed strings and lists these branches cannot happen.
- Config.SanitizeEntry: field values are kept as raw JSON, as the code keeps them. The typed category map cannot hold a field that is not a list of strings, so for such a document `Config.Decode` answers `None`, and the model does not follow the application any further. The application carries on with most such values:
  - A string under "rules" is iterated character by character, so each character acts as a substring rule. An object under "rules" acts through its keys.
  - A rule item that is not a string raises inside the `try` of `categorize_content` and is skipped.
  - A "history" that is not a list is reset to `[]` by `add_to_history`.
  - "pinned_history" is never read.
  - Only a number, a boolean or null under "rules" makes `categorize_content` raise, because the iteration happens outside the `try`.
- Python `str.strip()` is modelled with the full `str.isspace` character set. Unicode case rules and normalisation play no part.
- Config.LoadConfig: with no file, an unreadable file or a top level that is not an object, it returns the corrected defaults (`Config.Defaults`). `initialize_default_categories` returns the defaults as written (`Config.DefaultsAsWritten`). The two maps differ only in the "Links" domain pattern.
- Config.Defaults: uses the corrected "Links" domain pattern, as explained under Findings. `Config.DefaultsAsWritten` keeps the literal as written.

## Findings

| source | as written | input that shows it | evidently intended | confidence | as-written member | corrected member |
|---|---|---|---|---|---|---|
| config_manager.py:64 | the raw string `r"regex:www\\."` yields the pattern `www\\.`, which needs a backslash after "www" | "www.x" (any bare domain) is not matched; "www\x" is | the pattern `www\.`, an escaped dot, matching every text containing "www." | high; not executed | Config.WrittenDomainRuleMissesDomains | Config.DomainRuleIsSubstringTest |

/** How `ClipboardManagerApp` drives the operations: each button, each
    delete button of a rule or history entry, and each clipboard event handed
    over from the poller runs one operation on `self.categories`, one at a time. */
module App {
  import opened OrderedDict
  import opened Categories
  import Classifier
  import History
  import Editing

  datatype Command =
    | AddCategory(entry: string)
    | DeleteSelectedCategory(selected: string, confirmed: bool)
    | AddRule(selected: string, entry: string)
    | DeleteRule(category: string, rule: string)
    | DeleteHistoryItem(category: string, item: string)
    | ProcessClipboardContent(content: string)

  /** The operation a command triggers. */
  function Apply(search: Classifier.RegexSearch, m: CategoryMap, cmd: Command): Update {
    match cmd
    case AddCategory(entry) => Editing.AddCategory(m, entry)
    case DeleteSelectedCategory(selected, confirmed) => Editing.DeleteCategory(m, selected, confirmed)
    case AddRule(selected, entry) => Editing.AddRule(m, selected, entry)
    case DeleteRule(category, rule) => Editing.DeleteRule(m, category, rule)
    case DeleteHistoryItem(category, item) => History.DeleteHistoryItem(m, category, item)
    case ProcessClipboardContent(content) => History.ProcessClipboardContent(search, m, content)
  }

  /** Every command keeps the invariant; each case is the operation's own
      preservation lemma. */
  lemma ApplyKeeps(search: Classifier.RegexSearch, m: CategoryMap, cmd: Command)
    ensures WellFormed(m) ==> WellFormed(Apply(search, m, cmd).categories)
  {
    if WellFormed(m) {
      match cmd
      case AddCategory(entry) => Editing.AddCategoryKeeps(m, entry);
      case DeleteSelectedCategory(selected, confirmed) => Editing.DeleteCategoryKeeps(m, selected, confirmed);
      case AddRule(selected, entry) => Editing.AddRuleKeeps(m, selected, entry);
      case DeleteRule(category, rule) => Editing.DeleteRuleKeeps(m, category, rule);
      case DeleteHistoryItem(category, item) => History.DeleteHistoryItemKeeps(m, category, item);
      case ProcessClipboardContent(content) => History.ProcessKeeps(search, m, content);
    }
  }

  /** The category map after one command; the invariant carries over. */
  function Next(search: Classifier.RegexSearch, m: CategoryMap, cmd: Command): (r: CategoryMap)
    ensures WellFormed(m) ==> WellFormed(r)
  {
    ApplyKeeps(search, m, cmd);
    Apply(search, m, cmd).categories
  }

  /** The category map after handling `cmds` in order. Whatever the commands,
      the invariant survives: names stay unique, "Uncategorized" is never lost,
      and no rule list or history gains a duplicate. */
  function Replay(search: Classifier.RegexSearch, m: CategoryMap, cmds: seq<Command>): (r: CategoryMap)
    ensures WellFormed(m) ==> WellFormed(r)
    decreases |cmds|
  {
    if |cmds| == 0 then m
    else Replay(search, Next(search, m, cmds[0]), cmds[1..])
  }
}

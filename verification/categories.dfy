/** The in-memory category map the application keeps in `self.categories`:
    category name -> {rules, history, pinned_history}, in insertion order. */
module Categories {
  import opened OrderedDict
  import Seqs

  /** The fallback category: never rule-matched and never deletable. */
  const UNCATEGORIZED: string := "Uncategorized"

  /** One category's data. A field the application's dictionary lacks (a category made
      by `add_category` has no `pinned_history`) is the empty list here, which is
      how every reader of the dictionary treats it (`.get(field, [])`). */
  datatype Category = Category(rules: seq<string>, history: seq<string>, pinned: seq<string>)

  /** A freshly created category: no rules and empty histories. */
  const EMPTY_CATEGORY: Category := Category([], [], [])

  type CategoryMap = Dict<Category>

  /** The invariant the operations keep: unique names, an "Uncategorized"
      category, and rule lists and histories without duplicates. */
  ghost predicate WellFormed(m: CategoryMap) {
    && Distinct(m)
    && UNCATEGORIZED in Keys(m)
    && forall k :: k in Keys(m) ==> Seqs.NoDup(Get(m, k).value.rules) && Seqs.NoDup(Get(m, k).value.history)
  }

  /** A change confined to one category keeps the invariant when the changed
      category's lists stay duplicate-free. */
  lemma ChangeOneKeeps(m: CategoryMap, r: CategoryMap, name: string)
    requires WellFormed(m) && Keys(r) == Keys(m) && Distinct(r)
    requires forall k :: k != name ==> Get(r, k) == Get(m, k)
    requires name in Keys(m) ==> Seqs.NoDup(Get(r, name).value.rules) && Seqs.NoDup(Get(r, name).value.history)
    ensures WellFormed(r)
  {
  }

  /** The text the status label shows after an operation; `Silent` when the
      operation leaves the label as it was. */
  datatype Status =
    | Silent
    | CategoryAdded(name: string)
    | CategoryNameEmpty
    | CategoryExists(name: string)
    | CannotDelete
    | CategoryDeleted(name: string)
    | RuleInputMissing
    | RuleAdded(category: string)
    | RuleExists
    | SelectedCategoryError
    | RuleDeleted(category: string)
    | RuleNotFound
    | ItemDeleted(category: string)
    | ItemNotFound
    | ItemAdded(category: string)

  /** The category map after an operation, with the status it reports. */
  datatype Update = Update(categories: CategoryMap, status: Status)
}

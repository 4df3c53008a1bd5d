/** The data part of the category and rule management of `ClipboardManagerApp`:
    `add_category`, `delete_selected_category`, `add_rule`, `delete_rule` and
    `_ensure_uncategorized_exists`. Entry fields, the dropdown selection and the
    confirmation dialog are inputs. */
module Editing {
  import opened Wrappers
  import opened OrderedDict
  import opened Categories
  import Seqs
  import Text

  /** `add_category()`: the stripped entry text becomes a new category with no
      rules and an empty history, appended after the existing ones, unless it
      is empty or already taken. */
  function AddCategory(m: CategoryMap, entry: string): (r: Update)
    ensures var name := Text.Strip(entry);
      && (r.status.CategoryAdded? <==> name != "" && name !in Keys(m))
      && (r.status.CategoryAdded? ==> r == Update(m + [(name, EMPTY_CATEGORY)], CategoryAdded(name)))
      && (name == "" ==> r == Update(m, CategoryNameEmpty))
      && (name != "" && name in Keys(m) ==> r == Update(m, CategoryExists(name)))
    ensures Distinct(m) ==> Distinct(r.categories)
  {
    var name := Text.Strip(entry);
    if name != "" && name !in Keys(m) then Update(Put(m, name, EMPTY_CATEGORY), CategoryAdded(name))
    else if name == "" then Update(m, CategoryNameEmpty)
    else Update(m, CategoryExists(name))
  }

  /** A category added through the entry field never has a name with
      surrounding whitespace. */
  lemma AddedNameIsStripped(m: CategoryMap, entry: string)
    requires AddCategory(m, entry).status.CategoryAdded?
    ensures var name := AddCategory(m, entry).status.name;
      |name| > 0 && !Text.IsSpace(name[0]) && !Text.IsSpace(name[|name| - 1])
  {
  }

  /** `delete_selected_category()`: "" and "Uncategorized" are refused; an
      unconfirmed deletion does nothing; a confirmed one removes that key only. */
  function DeleteCategory(m: CategoryMap, selected: string, confirmed: bool): (r: Update)
    ensures selected == "" || selected == UNCATEGORIZED ==> r == Update(m, CannotDelete)
    ensures selected != "" && selected != UNCATEGORIZED && !confirmed ==> r == Update(m, Silent)
    ensures selected != "" && selected != UNCATEGORIZED && confirmed ==>
      && r.status == CategoryDeleted(selected)
      && Keys(r.categories) == Seqs.RemoveFirst(Keys(m), selected)
    ensures forall k :: k != selected ==> Get(r.categories, k) == Get(m, k)
    ensures UNCATEGORIZED in Keys(m) ==> UNCATEGORIZED in Keys(r.categories)
    ensures Distinct(m) ==> Distinct(r.categories)
    ensures Distinct(m) && r.status.CategoryDeleted? ==> selected !in Keys(r.categories)
  {
    if selected == "" || selected == UNCATEGORIZED then Update(m, CannotDelete)
    else if !confirmed then Update(m, Silent)
    else Update(Remove(m, selected), CategoryDeleted(selected))
  }

  /** `add_rule()`: append the stripped rule to the selected category unless
      the selection or the rule is empty, the category is unknown, or the rule
      is already there. */
  function AddRule(m: CategoryMap, selected: string, entry: string): (r: Update)
    ensures var rule := Text.Strip(entry);
      && (selected == "" || rule == "" ==> r == Update(m, RuleInputMissing))
      && (selected != "" && rule != "" && selected !in Keys(m) ==> r == Update(m, SelectedCategoryError))
      && (selected != "" && rule != "" && selected in Keys(m) && rule in Get(m, selected).value.rules ==>
            r == Update(m, RuleExists))
      && (r.status == RuleAdded(selected) <==>
            selected != "" && rule != "" && selected in Keys(m) && rule !in Get(m, selected).value.rules)
      && (r.status == RuleAdded(selected) ==>
            var before := Get(m, selected).value;
            Get(r.categories, selected) == Some(before.(rules := before.rules + [rule])))
    ensures Keys(r.categories) == Keys(m)
    ensures forall k :: k != selected ==> Get(r.categories, k) == Get(m, k)
    ensures Distinct(m) ==> Distinct(r.categories)
  {
    var rule := Text.Strip(entry);
    if selected == "" || rule == "" then Update(m, RuleInputMissing)
    else
      match Get(m, selected)
      case None => Update(m, SelectedCategoryError)
      case Some(c) =>
        if rule !in c.rules then Update(Put(m, selected, c.(rules := c.rules + [rule])), RuleAdded(selected))
        else Update(m, RuleExists)
  }

  /** Rule lists stay duplicate-free under `add_rule`. */
  lemma AddRuleNoDup(m: CategoryMap, selected: string, entry: string)
    requires selected in Keys(m) && Seqs.NoDup(Get(m, selected).value.rules)
    ensures Seqs.NoDup(Get(AddRule(m, selected, entry).categories, selected).value.rules)
  {
    var rule := Text.Strip(entry);
    var rules := Get(m, selected).value.rules;
    if AddRule(m, selected, entry).status == RuleAdded(selected) {
      Seqs.AppendFreshNoDup(rules, rule);
    }
  }

  /** `delete_rule(category_name, rule)`: remove the rule when the category has
      it; otherwise report it missing and change nothing. */
  function DeleteRule(m: CategoryMap, name: string, rule: string): (r: Update)
    ensures (name in Keys(m) && rule in Get(m, name).value.rules) <==> r.status == RuleDeleted(name)
    ensures r.status != RuleDeleted(name) ==> r == Update(m, RuleNotFound)
    ensures Keys(r.categories) == Keys(m)
    ensures forall k :: k != name ==> Get(r.categories, k) == Get(m, k)
    ensures Distinct(m) ==> Distinct(r.categories)
    ensures r.status == RuleDeleted(name) ==>
      var before := Get(m, name).value;
      var after := Get(r.categories, name).value;
      && after.rules == Seqs.RemoveFirst(before.rules, rule)
      && after.history == before.history
      && after.pinned == before.pinned
  {
    match Get(m, name)
    case Some(c) =>
      if rule in c.rules then
        var c' := c.(rules := Seqs.RemoveFirst(c.rules, rule));
        var m' := Put(m, name, c');
        assert Get(m', name) == Some(c');
        Update(m', RuleDeleted(name))
      else Update(m, RuleNotFound)
    case None => Update(m, RuleNotFound)
  }

  /** Adding a category keeps the invariant. */
  lemma AddCategoryKeeps(m: CategoryMap, entry: string)
    requires WellFormed(m)
    ensures WellFormed(AddCategory(m, entry).categories)
  {
    var r := AddCategory(m, entry).categories;
    if r != m {
      var name := Text.Strip(entry);
      assert r == m + [(name, EMPTY_CATEGORY)];
      KeysConcat(m, [(name, EMPTY_CATEGORY)]);
      forall k | k in Keys(r)
        ensures Seqs.NoDup(Get(r, k).value.rules) && Seqs.NoDup(Get(r, k).value.history)
      {
        if k != name { assert k in Keys(m); }
      }
    }
  }

  /** Deleting a category keeps the invariant; in particular "Uncategorized"
      survives. */
  lemma DeleteCategoryKeeps(m: CategoryMap, selected: string, confirmed: bool)
    requires WellFormed(m)
    ensures WellFormed(DeleteCategory(m, selected, confirmed).categories)
  {
    var r := DeleteCategory(m, selected, confirmed).categories;
    forall k | k in Keys(r)
      ensures Seqs.NoDup(Get(r, k).value.rules) && Seqs.NoDup(Get(r, k).value.history)
    {
      if r != m {
        Seqs.RemoveFirstSubset(Keys(m), selected, k);
      }
    }
  }

  /** Adding a rule keeps the invariant. */
  lemma AddRuleKeeps(m: CategoryMap, selected: string, entry: string)
    requires WellFormed(m)
    ensures WellFormed(AddRule(m, selected, entry).categories)
  {
    if selected in Keys(m) {
      AddRuleNoDup(m, selected, entry);
    }
    ChangeOneKeeps(m, AddRule(m, selected, entry).categories, selected);
  }

  /** Deleting a rule keeps the invariant. */
  lemma DeleteRuleKeeps(m: CategoryMap, name: string, rule: string)
    requires WellFormed(m)
    ensures WellFormed(DeleteRule(m, name, rule).categories)
  {
    if name in Keys(m) {
      Seqs.RemoveFirstNoDup(Get(m, name).value.rules, rule);
    }
    ChangeOneKeeps(m, DeleteRule(m, name, rule).categories, name);
  }

  /** `_ensure_uncategorized_exists()`: append an empty "Uncategorized" when it
      is missing; a map that has it is returned as it is. */
  function EnsureUncategorized(m: CategoryMap): (r: CategoryMap)
    ensures UNCATEGORIZED in Keys(r)
    ensures Get(r, UNCATEGORIZED) == Some(Get(m, UNCATEGORIZED).GetOr(EMPTY_CATEGORY))
    ensures forall k :: k != UNCATEGORIZED ==> Get(r, k) == Get(m, k)
    ensures Keys(r) == Keys(m) || Keys(r) == Keys(m) + [UNCATEGORIZED]
    ensures Distinct(m) ==> Distinct(r)
  {
    KeysConcat(m, [(UNCATEGORIZED, EMPTY_CATEGORY)]);
    SetDefault(m, UNCATEGORIZED, EMPTY_CATEGORY)
  }
}

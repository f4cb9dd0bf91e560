/** The column filter dropdown (src/components/FilterDropdown.tsx) and the category filter
    dropdown of the example application (example/src/components/FilterDropdown.tsx). */
module FilterDropdown {
  import opened Common

  /** A filter option: its value (`string | number`) and its caption. */
  datatype FilterOption = FilterOption(value: Id, caption: string)

  /** A JavaScript `Set` of option values, held by reference. */
  class ValueSet {
    var elems: set<Id>

    /** `new Set(source)`: a fresh set with the same elements. */
    constructor Copy(source: ValueSet)
      ensures elems == source.elems
    {
      elems := source.elems;
    }

    method Has(v: Id) returns (b: bool)
      ensures b <==> v in elems
    {
      b := v in elems;
    }

    method Delete(v: Id)
      modifies this
      ensures elems == old(elems) - {v}
    {
      elems := elems - {v};
    }

    method Add(v: Id)
      modifies this
      ensures elems == old(elems) + {v}
    {
      elems := elems + {v};
    }
  }

  /** `handleOptionChange(value)`: copies the selection, flips `value` in the copy and hands
      the copy to `onFilterChange` (the one set returned here). The caller's set is not
      changed. */
  method HandleOptionChange(selectedValues: ValueSet, value: Id) returns (sent: ValueSet)
    ensures fresh(sent)
    ensures sent.elems == Flip(selectedValues.elems, value)
  {
    var newValues := new ValueSet.Copy(selectedValues);
    var present := newValues.Has(value);
    if present {
      newValues.Delete(value);
    } else {
      newValues.Add(value);
    }
    sent := newValues;
  }

  /** The checkbox of each option: checked exactly when its value is selected. */
  function CheckedBoxes(options: seq<FilterOption>, selected: set<Id>): (r: seq<bool>)
    ensures |r| == |options|
    ensures forall i :: 0 <= i < |r| ==> (r[i] <==> options[i].value in selected)
  {
    if options == [] then [] else [options[0].value in selected] + CheckedBoxes(options[1..], selected)
  }

  /** An option change toggles the boxes of the changed value and no other box. */
  lemma OptionChangeTogglesOneValue(options: seq<FilterOption>, selected: set<Id>, value: Id)
    ensures forall i :: 0 <= i < |options| ==>
      var before := CheckedBoxes(options, selected)[i];
      CheckedBoxes(options, Flip(selected, value))[i] == (if options[i].value == value then !before else before)
  {
  }

  // The category filter dropdown of the example application.

  /** The "Select All" checkbox is checked when as many values are selected as there are
      options, which includes nothing selected among no options. */
  predicate IsAllSelected(selectedCount: nat, optionCount: nat)
  {
    selectedCount == optionCount
  }

  /** The "Select All" checkbox is indeterminate when some but fewer values than options
      are selected. */
  predicate IsIndeterminate(selectedCount: nat, optionCount: nat)
  {
    selectedCount > 0 && selectedCount < optionCount
  }

  /** The "Select All" box is never checked and indeterminate at once. It is clear exactly
      when nothing is selected among some options, or when more values are selected than
      there are options (the pending set and the option list are separate props). */
  lemma SelectAllBoxStates(selectedCount: nat, optionCount: nat)
    ensures IsAllSelected(selectedCount, optionCount) ==> !IsIndeterminate(selectedCount, optionCount)
    ensures !IsAllSelected(selectedCount, optionCount) && !IsIndeterminate(selectedCount, optionCount)
      <==> (selectedCount == 0 && optionCount > 0) || selectedCount > optionCount
  {
  }

  /** A selection of values drawn from the options is all-selected exactly when it
      contains every option's value (the options' values being distinct). */
  lemma AllSelectedMeansEveryOption(options: seq<FilterOption>, selected: set<Id>)
    requires forall i, j :: 0 <= i < j < |options| ==> options[i].value != options[j].value
    requires selected <= OptionValues(options)
    ensures IsAllSelected(|selected|, |options|) <==> forall i :: 0 <= i < |options| ==> options[i].value in selected
  {
    OptionValuesCount(options);
    if forall i :: 0 <= i < |options| ==> options[i].value in selected {
      EveryOptionSelected(options, selected);
    } else {
      var i :| 0 <= i < |options| && options[i].value !in selected;
      SomeOptionMissing(options, selected, i);
    }
  }

  lemma EveryOptionSelected(options: seq<FilterOption>, selected: set<Id>)
    requires selected <= OptionValues(options)
    requires forall i :: 0 <= i < |options| ==> options[i].value in selected
    ensures selected == OptionValues(options)
  {
    forall v | v in OptionValues(options)
      ensures v in selected
    {
      var i :| 0 <= i < |options| && options[i].value == v;
    }
  }

  lemma SomeOptionMissing(options: seq<FilterOption>, selected: set<Id>, i: nat)
    requires selected <= OptionValues(options)
    requires i < |options| && options[i].value !in selected
    ensures |selected| < |OptionValues(options)|
  {
    var values := OptionValues(options);
    var rest := values - selected;
    assert options[i].value in rest;
    assert values == selected + rest && selected !! rest;
    assert |values| == |selected| + |rest|;
  }

  function OptionValues(options: seq<FilterOption>): (r: set<Id>)
    ensures forall v :: v in r <==> exists i :: 0 <= i < |options| && options[i].value == v
  {
    if options == [] then {}
    else
      var n := |options| - 1;
      assert forall i :: 0 <= i < n ==> options[..n][i] == options[i];
      OptionValues(options[..n]) + {options[n].value}
  }

  lemma {:induction false} OptionValuesCount(options: seq<FilterOption>)
    requires forall i, j :: 0 <= i < j < |options| ==> options[i].value != options[j].value
    ensures |OptionValues(options)| == |options|
  {
    if options != [] {
      var n := |options| - 1;
      var front := options[..n];
      assert forall i, j :: 0 <= i < j < |front| ==> front[i].value != front[j].value;
      OptionValuesCount(front);
      forall i | 0 <= i < |front|
        ensures front[i].value != options[n].value
      {
        assert front[i] == options[i];
      }
      assert options[n].value !in OptionValues(front);
      assert OptionValues(options) == OptionValues(front) + {options[n].value};
    }
  }

  /** The optional callbacks given to the dropdown. */
  datatype Handlers = Handlers(hasApply: bool, hasCancel: bool, hasReset: bool, hasClose: bool)

  /** A callback call, in the order made. */
  datatype Call = OnApply(values: set<Id>) | OnCancel | OnReset | OnClose

  /** `handleApply`: `onApply` with the pending selection, then `onClose`. */
  function HandleApply(h: Handlers, tempSelectedValues: set<Id>): (r: seq<Call>)
    ensures OnApply(tempSelectedValues) in r <==> h.hasApply
    ensures h.hasClose <==> |r| > 0 && r[|r| - 1] == OnClose
    ensures h.hasApply ==> r[0] == OnApply(tempSelectedValues)
    ensures forall c :: c in r ==> c == OnApply(tempSelectedValues) || c == OnClose
  {
    (if h.hasApply then [OnApply(tempSelectedValues)] else []) + (if h.hasClose then [OnClose] else [])
  }

  /** `handleCancel`: `onCancel`, then `onClose`. */
  function HandleCancel(h: Handlers): (r: seq<Call>)
    ensures OnCancel in r <==> h.hasCancel
    ensures h.hasClose <==> |r| > 0 && r[|r| - 1] == OnClose
    ensures h.hasCancel ==> r[0] == OnCancel
    ensures forall c :: c in r ==> c == OnCancel || c == OnClose
  {
    (if h.hasCancel then [OnCancel] else []) + (if h.hasClose then [OnClose] else [])
  }

  /** `handleResetFilters`: `onReset` only; the dropdown stays open. */
  function HandleResetFilters(h: Handlers): (r: seq<Call>)
    ensures OnClose !in r
    ensures OnReset in r <==> h.hasReset
  {
    if h.hasReset then [OnReset] else []
  }

  /** The "Selected" badge with the count is shown only when asked for (the default) and
      something is selected. */
  predicate ShowBadge(showSelectedCount: bool, selectedCount: nat)
  {
    showSelectedCount && selectedCount > 0
  }

  /** With the count enabled, the badge is shown exactly when the "Select All" box is
      checked or indeterminate, with two exceptions: nothing selected among no options (the
      default empty option list) checks the box without a badge, and a selection larger
      than the option list shows the badge beside a clear box. With the count disabled no
      badge is shown. */
  lemma BadgeMatchesSelectAllBox(selectedCount: nat, optionCount: nat)
    ensures selectedCount <= optionCount && optionCount > 0 ==>
      (ShowBadge(true, selectedCount) <==> IsAllSelected(selectedCount, optionCount) || IsIndeterminate(selectedCount, optionCount))
    ensures selectedCount == 0 && optionCount == 0 ==>
      IsAllSelected(selectedCount, optionCount) && !ShowBadge(true, selectedCount)
    ensures selectedCount > optionCount ==>
      ShowBadge(true, selectedCount) && !IsAllSelected(selectedCount, optionCount) && !IsIndeterminate(selectedCount, optionCount)
    ensures !ShowBadge(false, selectedCount)
  {
    SelectAllBoxStates(selectedCount, optionCount);
  }

  /** A category of the left-hand list. */
  datatype Category = Category(key: string, title: string, count: int)

  /** Which categories are highlighted: those whose key is the selected category's. */
  function HighlightedCategories(categories: seq<Category>, selectedCategory: Option<string>): (r: seq<bool>)
    ensures |r| == |categories|
    ensures forall i :: 0 <= i < |r| ==> (r[i] <==> selectedCategory == Some(categories[i].key))
  {
    if categories == [] then []
    else [selectedCategory == Some(categories[0].key)] + HighlightedCategories(categories[1..], selectedCategory)
  }

  /** With distinct keys at most one category is highlighted, and none without a
      selected category. */
  lemma AtMostOneHighlighted(categories: seq<Category>, selectedCategory: Option<string>)
    requires forall i, j :: 0 <= i < j < |categories| ==> categories[i].key != categories[j].key
    ensures forall i, j :: 0 <= i < j < |categories| ==>
      !(HighlightedCategories(categories, selectedCategory)[i] && HighlightedCategories(categories, selectedCategory)[j])
    ensures selectedCategory.None? ==> forall i :: 0 <= i < |categories| ==> !HighlightedCategories(categories, selectedCategory)[i]
  {
  }
}

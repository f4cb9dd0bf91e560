/** The toolbar button group (src/components/ButtonGroup.tsx): which callback a click or a
    dropdown's close makes, and which dropdowns are drawn. The open dropdowns are owned by
    the caller and passed in. */
module ButtonGroup {
  import opened Common
  import opened App

  /** The optional callbacks given to the group. */
  datatype Handlers = Handlers(hasDropdownToggle: bool, hasDropdownClose: bool, hasButtonClick: bool)

  /** A callback call made by the group. */
  datatype Call =
    | DropdownToggleCall(buttonId: string, isOpen: bool)
    | DropdownCloseCall(buttonId: string)
    | ButtonClickCall(buttonId: string)
    | OwnOnClick(buttonId: string)

  /** `toggleDropdown(id)`: asks for the opposite of the dropdown's current state, or does
      nothing without an `onDropdownToggle`. */
  function ToggleDropdownCalls(h: Handlers, openDropdowns: set<string>, buttonId: string): (r: seq<Call>)
    ensures h.hasDropdownToggle ==> r == [DropdownToggleCall(buttonId, buttonId !in openDropdowns)]
    ensures !h.hasDropdownToggle ==> r == []
  {
    if h.hasDropdownToggle then [DropdownToggleCall(buttonId, !(buttonId in openDropdowns))] else []
  }

  /** `closeDropdown(id)`: `onDropdownClose(id)` when given. */
  function CloseDropdownCalls(h: Handlers, buttonId: string): (r: seq<Call>)
    ensures |r| <= 1
    ensures r == [DropdownCloseCall(buttonId)] <==> h.hasDropdownClose
  {
    if h.hasDropdownClose then [DropdownCloseCall(buttonId)] else []
  }

  /** `handleButtonClick`: the caller's `onButtonClick` takes precedence; without it a
      dropdown button toggles its dropdown and any other button runs its own `onClick`. */
  function ButtonClickCalls(h: Handlers, openDropdowns: set<string>, button: ButtonConfig): (r: seq<Call>)
    ensures |r| <= 1
    ensures h.hasButtonClick ==> r == [ButtonClickCall(button.id)]
    ensures !h.hasButtonClick && button.hasDropdown ==> r == ToggleDropdownCalls(h, openDropdowns, button.id)
    ensures !h.hasButtonClick && !button.hasDropdown ==> (r == [OwnOnClick(button.id)] <==> button.hasOnClick)
    ensures !h.hasButtonClick && !button.hasDropdown ==> (r == [] <==> !button.hasOnClick)
  {
    if h.hasButtonClick then [ButtonClickCall(button.id)]
    else if button.hasDropdown then ToggleDropdownCalls(h, openDropdowns, button.id)
    else if button.hasOnClick then [OwnOnClick(button.id)]
    else []
  }

  /** `renderDropdown`: a button's dropdown is drawn exactly when it has one and its id is
      among the open dropdowns. */
  predicate DropdownShown(button: ButtonConfig, openDropdowns: set<string>)
  {
    button.hasDropdown && button.id in openDropdowns
  }

  /** The dropdowns drawn, one flag per button. */
  function ShownDropdowns(buttons: seq<ButtonConfig>, openDropdowns: set<string>): (r: seq<bool>)
    ensures |r| == |buttons|
    ensures forall i :: 0 <= i < |r| ==> (r[i] <==> buttons[i].hasDropdown && buttons[i].id in openDropdowns)
  {
    if buttons == [] then [] else [DropdownShown(buttons[0], openDropdowns)] + ShownDropdowns(buttons[1..], openDropdowns)
  }

  /** With the default, empty, set of open dropdowns nothing is drawn. */
  lemma NoDropdownByDefault(buttons: seq<ButtonConfig>)
    ensures forall i :: 0 <= i < |buttons| ==> !ShownDropdowns(buttons, {})[i]
  {
  }

  /** Applying a toggle call with the host's `handleDropdownToggle` flips exactly the
      clicked button's dropdown, and a second click closes what the first opened. */
  lemma ToggleFlipsDropdown(h: Handlers, openDropdowns: set<string>, button: ButtonConfig)
    requires h.hasDropdownToggle && !h.hasButtonClick && button.hasDropdown
    ensures var c := ButtonClickCalls(h, openDropdowns, button)[0];
      DropdownToggle(openDropdowns, c.buttonId, c.isOpen) == Flip(openDropdowns, button.id)
    ensures var c := ButtonClickCalls(h, openDropdowns, button)[0];
      DropdownShown(button, DropdownToggle(openDropdowns, c.buttonId, c.isOpen)) <==> !DropdownShown(button, openDropdowns)
  {
    var c := ButtonClickCalls(h, openDropdowns, button)[0];
    assert c == DropdownToggleCall(button.id, button.id !in openDropdowns);
    var after := DropdownToggle(openDropdowns, c.buttonId, c.isOpen);
    assert after - {button.id} == openDropdowns - {button.id};
    assert button.id in after <==> button.id !in openDropdowns;
  }

  /** A dropdown drawn open, once closed through the host's `handleDropdownClose`, is no
      longer drawn. */
  lemma CloseHidesDropdown(h: Handlers, openDropdowns: set<string>, button: ButtonConfig)
    requires h.hasDropdownClose && DropdownShown(button, openDropdowns)
    ensures var c := CloseDropdownCalls(h, button.id)[0];
      !DropdownShown(button, DropdownClose(openDropdowns, c.buttonId))
  {
  }
}

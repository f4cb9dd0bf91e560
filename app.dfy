/** The demo host application (src/App.tsx): the state it keeps for the table
    (selected, expanded and open-dropdown ids, the single and bulk delete popups) and the
    handlers it passes down, each of which replaces one piece of state. */
module App {
  import opened Common
  import opened Tree

  /** `deletePopup`: `itemId` is `null` (None) when no item is pending. */
  datatype DeletePopup = DeletePopup(isOpen: bool, itemId: Option<Id>, itemName: string)

  datatype BulkDeletePopup = BulkDeletePopup(isOpen: bool, selectedCount: nat)

  /** `itemToDelete` of the standalone confirmation popup. */
  datatype PendingItem = PendingItem(id: Id, name: string)

  /** A toolbar button: its id, whether it has a dropdown, whether it has an `onClick`. */
  datatype ButtonConfig = ButtonConfig(id: string, hasDropdown: bool, hasOnClick: bool)

  /** What `handleButtonClick` does. */
  datatype ButtonEffect = ToggleDropdown(buttonId: string, open: bool) | RunOnClick | NoEffect

  /** Every piece of host state, for stating what a handler leaves alone. */
  datatype HostState = HostState(
    selectedRows: set<Id>,
    expandedRows: set<Id>,
    openDropdowns: set<string>,
    deletePopup: DeletePopup,
    bulkDeletePopup: BulkDeletePopup,
    showDeletePopup: bool,
    itemToDelete: Option<PendingItem>)

  const ClosedDeletePopup := DeletePopup(false, None, "")
  const ClosedBulkDeletePopup := BulkDeletePopup(false, 0)

  /** The ids of the top-level records, the ones `data.forEach` visits. */
  function TopIds(data: seq<Node>): (r: set<Id>)
    ensures forall i :: 0 <= i < |data| ==> data[i].id in r
  {
    if data == [] then {} else TopIds(data[..|data| - 1]) + {data[|data| - 1].id}
  }

  /** Every id in `TopIds(data)` is the id of a top-level record. */
  lemma {:induction false} TopIdsOnlyTop(data: seq<Node>)
    ensures forall x :: x in TopIds(data) ==> exists i :: 0 <= i < |data| && data[i].id == x
  {
    if data != [] {
      var front := data[..|data| - 1];
      TopIdsOnlyTop(front);
      forall x | x in TopIds(data)
        ensures exists i :: 0 <= i < |data| && data[i].id == x
      {
        if x != data[|data| - 1].id {
          assert x in TopIds(front);
          var i :| 0 <= i < |front| && front[i].id == x;
          assert data[i].id == x;
        }
      }
    }
  }

  predicate DistinctTopIds(data: seq<Node>)
  {
    forall i, j :: 0 <= i < j < |data| ==> data[i].id != data[j].id
  }

  /** With distinct top-level ids there are as many ids as records. */
  lemma {:induction false} TopIdsCount(data: seq<Node>)
    requires DistinctTopIds(data)
    ensures |TopIds(data)| == |data|
  {
    if data != [] {
      var front := data[..|data| - 1];
      TopIdsCount(front);
      TopIdsOnlyTop(front);
      forall x | x in TopIds(front)
        ensures x != data[|data| - 1].id
      {
        var i :| 0 <= i < |front| && front[i].id == x;
        assert data[i] == front[i];
      }
    }
  }

  /** The header checkbox state passed to the table: `isAllSelected`. */
  predicate IsAllSelected(selectedRows: set<Id>, data: seq<Node>)
  {
    |selectedRows| == |data| && |data| > 0
  }

  /** The selection `handleSelectAll` installs: when the selection is not the size of the
      data, every top-level id; otherwise none. */
  function SelectAll(selectedRows: set<Id>, data: seq<Node>): set<Id>
  {
    if |selectedRows| != |data| then TopIds(data) else {}
  }

  /** Select-all holds only top-level ids, never an id found only below them. */
  lemma SelectAllTopOnly(selectedRows: set<Id>, data: seq<Node>)
    ensures SelectAll(selectedRows, data) <= TopIds(data)
  {
  }

  /** With distinct top-level ids and some data, a select-all that selects makes the
      header checkbox checked. */
  lemma SelectAllChecks(selectedRows: set<Id>, data: seq<Node>)
    requires DistinctTopIds(data) && |data| > 0
    requires |selectedRows| != |data|
    ensures IsAllSelected(SelectAll(selectedRows, data), data)
  {
    TopIdsCount(data);
  }

  /** A selection with as many ids as there are records, whichever ids they are, is
      cleared by select-all, and the checkbox is then unchecked. */
  lemma SelectAllClearsSameSize(selectedRows: set<Id>, data: seq<Node>)
    requires |selectedRows| == |data|
    ensures SelectAll(selectedRows, data) == {}
    ensures !IsAllSelected(SelectAll(selectedRows, data), data)
  {
  }

  /** With a repeated top-level id, select-all can never check the header checkbox: it
      selects fewer ids than there are records, so every further click selects again. */
  lemma DuplicateTopIdsNeverAllSelected(selectedRows: set<Id>, data: seq<Node>, i: nat, j: nat)
    requires i < j < |data| && data[i].id == data[j].id
    ensures |TopIds(data)| < |data|
    ensures !IsAllSelected(SelectAll(selectedRows, data), data)
  {
    TopIdsBound(data);
    TopIdsRepeat(data, i, j);
  }

  lemma {:induction false} TopIdsBound(data: seq<Node>)
    ensures |TopIds(data)| <= |data|
  {
    if data != [] {
      TopIdsBound(data[..|data| - 1]);
    }
  }

  lemma {:induction false} TopIdsRepeat(data: seq<Node>, i: nat, j: nat)
    requires i < j < |data| && data[i].id == data[j].id
    ensures |TopIds(data)| < |data|
  {
    var front := data[..|data| - 1];
    var last := data[|data| - 1].id;
    assert TopIds(data) == TopIds(front) + {last};
    if j == |data| - 1 {
      assert front[i] == data[i];
      assert last in TopIds(front);
      assert TopIds(data) == TopIds(front);
      TopIdsBound(front);
    } else {
      assert front[i] == data[i] && front[j] == data[j];
      TopIdsRepeat(front, i, j);
      CardAddOne(TopIds(front), last);
    }
  }

  lemma CardAddOne(s: set<Id>, x: Id)
    ensures |s + {x}| <= |s| + 1
  {
  }

  /** `handleButtonClick`: a dropdown button toggles its dropdown to the opposite of its
      current state; otherwise the button's own `onClick` runs, if it has one. */
  function ButtonClick(button: ButtonConfig, openDropdowns: set<string>): (e: ButtonEffect)
    ensures button.hasDropdown ==> e == ToggleDropdown(button.id, button.id !in openDropdowns)
    ensures !button.hasDropdown ==> (e == RunOnClick <==> button.hasOnClick) && !e.ToggleDropdown?
  {
    if button.hasDropdown then ToggleDropdown(button.id, !(button.id in openDropdowns))
    else if button.hasOnClick then RunOnClick
    else NoEffect
  }

  /** `handleDropdownToggle(id, isOpen)`: the id is open exactly when asked to be. */
  function DropdownToggle(openDropdowns: set<string>, buttonId: string, isOpen: bool): (r: set<string>)
    ensures buttonId in r <==> isOpen
    ensures r - {buttonId} == openDropdowns - {buttonId}
  {
    if isOpen then openDropdowns + {buttonId} else openDropdowns - {buttonId}
  }

  /** `handleDropdownClose(id)`: the id is closed whatever its state, and every other
      id keeps its state. */
  function DropdownClose(openDropdowns: set<string>, buttonId: string): (r: set<string>)
    ensures buttonId !in r
    ensures r - {buttonId} == openDropdowns - {buttonId}
  {
    openDropdowns - {buttonId}
  }

  /** Clicking a dropdown button twice leaves the open dropdowns as they were. */
  lemma DropdownClickTwice(button: ButtonConfig, openDropdowns: set<string>)
    requires button.hasDropdown
    ensures var e1 := ButtonClick(button, openDropdowns);
      var once := DropdownToggle(openDropdowns, e1.buttonId, e1.open);
      var e2 := ButtonClick(button, once);
      DropdownToggle(once, e2.buttonId, e2.open) == openDropdowns
  {
    var e1 := ButtonClick(button, openDropdowns);
    var once := DropdownToggle(openDropdowns, e1.buttonId, e1.open);
    assert button.id in once <==> button.id !in openDropdowns;
  }

  /** `handleDeleteConfirm`: the popup is reset only when its pending id is truthy; an
      id of `0` or `""` leaves it as it is. */
  function DeleteConfirm(p: DeletePopup): (r: DeletePopup)
    ensures (p.itemId.Some? && IdTruthy(p.itemId.value)) ==> r == ClosedDeletePopup
    ensures !(p.itemId.Some? && IdTruthy(p.itemId.value)) ==> r == p
  {
    match p.itemId
    case Some(id) => if IdTruthy(id) then ClosedDeletePopup else p
    case None => p
  }

  /** Opening the popup for an item and confirming closes it again exactly when the
      item's id is truthy: an item with id 0 can never be confirmed away. */
  lemma DeleteFlow(itemId: Id, itemName: string)
    ensures DeleteConfirm(DeletePopup(true, Some(itemId), itemName)).isOpen <==> !IdTruthy(itemId)
    ensures IdTruthy(itemId) ==> DeleteConfirm(DeletePopup(true, Some(itemId), itemName)) == ClosedDeletePopup
  {
  }

  /** `ActionsCell` renders only for a record whose `showActionButtons` is truthy. */
  predicate ActionsShown(item: Node)
  {
    Truthy(Field(item, "showActionButtons"))
  }

  /** The icons of the action cell. */
  datatype ActionIcon = EditIcon | DeleteIcon

  /** What a click on an action icon does: the host's edit or delete handler with its
      arguments, or only a console message when that handler is not given. */
  datatype ActionCall = OnEditClick(item: Node) | OnDeleteClick(itemId: Id, itemName: string) | LogOnly

  /** The icons `ActionsCell` draws: the edit icon then the delete icon, or nothing (the
      component returns `null`). */
  function ActionsCell(item: Node): (r: seq<ActionIcon>)
    ensures r != [] <==> ActionsShown(item)
    ensures r != [] ==> r == [EditIcon, DeleteIcon]
  {
    if ActionsShown(item) then [EditIcon, DeleteIcon] else []
  }

  /** A click on `icon` in the action cell of `item`: None when the icon is not drawn;
      otherwise `onEditClick(item)` or `onDeleteClick(item.id, name)` when the handler is
      given, and a console message when it is not. */
  function ActionsCellClick(item: Node, icon: ActionIcon, hasEditHandler: bool, hasDeleteHandler: bool): (r: Option<ActionCall>)
    ensures r.Some? <==> icon in ActionsCell(item)
    ensures r.Some? && icon == EditIcon ==> r.value == if hasEditHandler then OnEditClick(item) else LogOnly
    ensures r.Some? && icon == DeleteIcon ==>
      r.value == if hasDeleteHandler then OnDeleteClick(item.id, DeleteName(item)) else LogOnly
  {
    if icon !in ActionsCell(item) then None
    else match icon
      case EditIcon => Some(if hasEditHandler then OnEditClick(item) else LogOnly)
      case DeleteIcon => Some(if hasDeleteHandler then OnDeleteClick(item.id, DeleteName(item)) else LogOnly)
  }

  /** A record without `showActionButtons`, or with a falsy one, has no action cell, and no
      click can reach the edit or delete handler for it; with a truthy flag both icons
      are drawn and a delete click with a handler offers the record under its delete
      name. */
  lemma ActionsNeedFlag(item: Node, hasEditHandler: bool, hasDeleteHandler: bool)
    ensures !ActionsShown(item) ==>
      && ActionsCell(item) == []
      && ActionsCellClick(item, EditIcon, hasEditHandler, hasDeleteHandler).None?
      && ActionsCellClick(item, DeleteIcon, hasEditHandler, hasDeleteHandler).None?
    ensures "showActionButtons" !in item.fields ==> ActionsCell(item) == []
    ensures ActionsShown(item) && hasDeleteHandler ==>
      ActionsCellClick(item, DeleteIcon, hasEditHandler, hasDeleteHandler) == Some(OnDeleteClick(item.id, DeleteName(item)))
  {
  }

  /** The name passed on delete: `item.name || \`Item ${item.id}\``. */
  function DeleteName(item: Node): (r: string)
    ensures Field(item, "name").Str? && Field(item, "name").s != "" ==> r == Field(item, "name").s
    ensures Truthy(Field(item, "name")) ==> r == JsString(Field(item, "name"))
    ensures !Truthy(Field(item, "name")) ==> r == "Item " + JsString(IdValue(item.id))
  {
    var name := Field(item, "name");
    if Truthy(name) then JsString(name) else "Item " + JsString(IdValue(item.id))
  }

  /** A record with no usable name is still offered for deletion under a name that
      starts with "Item " and, when its id is truthy, goes on with that id. */
  lemma UnnamedDeleteName(item: Node)
    requires !Truthy(Field(item, "name"))
    ensures |DeleteName(item)| >= 5 && DeleteName(item)[..5] == "Item "
    ensures IdTruthy(item.id) ==> |DeleteName(item)| > 5
  {
    var idText := JsString(IdValue(item.id));
    assert DeleteName(item) == "Item " + idText;
    if item.id.NumId? {
      var n := item.id.n;
      assert |NatText(if n < 0 then -n else n)| >= 1;
    }
  }

  /** The host component's state. */
  class Host {
    const data: seq<Node>
    var selectedRows: set<Id>
    var expandedRows: set<Id>
    var openDropdowns: set<string>
    var deletePopup: DeletePopup
    var bulkDeletePopup: BulkDeletePopup
    var showDeletePopup: bool
    var itemToDelete: Option<PendingItem>

    function State(): HostState
      reads this
    {
      HostState(selectedRows, expandedRows, openDropdowns, deletePopup, bulkDeletePopup,
        showDeletePopup, itemToDelete)
    }

    constructor (data: seq<Node>)
      ensures this.data == data
      ensures State() == HostState({}, {}, {}, ClosedDeletePopup, ClosedBulkDeletePopup, false, None)
    {
      this.data := data;
      selectedRows := {};
      expandedRows := {};
      openDropdowns := {};
      deletePopup := ClosedDeletePopup;
      bulkDeletePopup := ClosedBulkDeletePopup;
      showDeletePopup := false;
      itemToDelete := None;
    }

    /** `handleRowToggle`: flips exactly `rowId` in the expanded set. */
    method HandleRowToggle(rowId: Id)
      modifies this
      ensures State() == old(State()).(expandedRows := Flip(old(expandedRows), rowId))
    {
      var newSet := expandedRows;
      if rowId in newSet {
        newSet := newSet - {rowId};
      } else {
        newSet := newSet + {rowId};
      }
      expandedRows := newSet;
    }

    /** `handleRowSelect`: flips exactly `rowId` in the selection. */
    method HandleRowSelect(rowId: Id)
      modifies this
      ensures State() == old(State()).(selectedRows := Flip(old(selectedRows), rowId))
    {
      var newSet := selectedRows;
      if rowId in newSet {
        newSet := newSet - {rowId};
      } else {
        newSet := newSet + {rowId};
      }
      selectedRows := newSet;
    }

    /** `handleSelectAll`: a fresh set, filled with every top-level id when the selection
        is not the size of the data. */
    method HandleSelectAll()
      modifies this
      ensures State() == old(State()).(selectedRows := SelectAll(old(selectedRows), data))
    {
      var newIsAllSelected := |selectedRows| != |data|;
      var newSelectedRows: set<Id> := {};
      if newIsAllSelected {
        var i := 0;
        while i < |data|
          invariant 0 <= i <= |data|
          invariant newSelectedRows == TopIds(data[..i])
        {
          assert data[..i + 1][..i] == data[..i];
          newSelectedRows := newSelectedRows + {data[i].id};
          i := i + 1;
        }
        assert data[..i] == data;
      }
      selectedRows := newSelectedRows;
    }

    /** `handleDropdownToggle`. */
    method HandleDropdownToggle(buttonId: string, isOpen: bool)
      modifies this
      ensures State() == old(State()).(openDropdowns := DropdownToggle(old(openDropdowns), buttonId, isOpen))
    {
      var newSet := openDropdowns;
      if isOpen {
        newSet := newSet + {buttonId};
      } else {
        newSet := newSet - {buttonId};
      }
      openDropdowns := newSet;
    }

    /** `handleDropdownClose`: the id is closed whatever its state. */
    method HandleDropdownClose(buttonId: string)
      modifies this
      ensures State() == old(State()).(openDropdowns := DropdownClose(old(openDropdowns), buttonId))
    {
      openDropdowns := openDropdowns - {buttonId};
    }

    /** `handleButtonClick`; `ranOnClick` reports that the button's own callback ran. */
    method HandleButtonClick(button: ButtonConfig) returns (ranOnClick: bool)
      modifies this
      ensures ranOnClick <==> ButtonClick(button, old(openDropdowns)) == RunOnClick
      ensures State() == old(State()).(openDropdowns :=
        if button.hasDropdown then Flip(old(openDropdowns), button.id) else old(openDropdowns))
    {
      ranOnClick := false;
      if button.hasDropdown {
        HandleDropdownToggle(button.id, !(button.id in openDropdowns));
      } else if button.hasOnClick {
        ranOnClick := true;
      }
    }

    /** `handleDeleteClick`: opens the popup for the item. */
    method HandleDeleteClick(itemId: Id, itemName: string)
      modifies this
      ensures State() == old(State()).(deletePopup := DeletePopup(true, Some(itemId), itemName))
    {
      deletePopup := DeletePopup(true, Some(itemId), itemName);
    }

    /** `handleDeleteConfirm`. */
    method HandleDeleteConfirm()
      modifies this
      ensures State() == old(State()).(deletePopup := DeleteConfirm(old(deletePopup)))
    {
      if deletePopup.itemId.Some? && IdTruthy(deletePopup.itemId.value) {
        deletePopup := ClosedDeletePopup;
      }
    }

    /** `handleDeleteCancel`: always resets the popup. */
    method HandleDeleteCancel()
      modifies this
      ensures State() == old(State()).(deletePopup := ClosedDeletePopup)
    {
      deletePopup := ClosedDeletePopup;
    }

    /** `handleBulkDeleteClick`: opens the bulk popup with the current selection size. */
    method HandleBulkDeleteClick()
      modifies this
      ensures State() == old(State()).(bulkDeletePopup := BulkDeletePopup(true, |old(selectedRows)|))
    {
      bulkDeletePopup := BulkDeletePopup(true, |selectedRows|);
    }

    /** `handleBulkDeleteConfirm`: clears the selection and resets the bulk popup. */
    method HandleBulkDeleteConfirm()
      modifies this
      ensures State() == old(State()).(selectedRows := {}, bulkDeletePopup := ClosedBulkDeletePopup)
    {
      selectedRows := {};
      bulkDeletePopup := ClosedBulkDeletePopup;
    }

    /** `handleBulkDeleteCancel`: resets the bulk popup, keeping the selection. */
    method HandleBulkDeleteCancel()
      modifies this
      ensures State() == old(State()).(bulkDeletePopup := ClosedBulkDeletePopup)
    {
      bulkDeletePopup := ClosedBulkDeletePopup;
    }

    /** `handleConfirmDelete`: closes the standalone popup only when an item is pending. */
    method HandleConfirmDelete()
      modifies this
      ensures old(itemToDelete).Some? ==> State() == old(State()).(showDeletePopup := false, itemToDelete := None)
      ensures old(itemToDelete).None? ==> State() == old(State())
    {
      if itemToDelete.Some? {
        showDeletePopup := false;
        itemToDelete := None;
      }
    }

    /** `handleCancelDelete`. */
    method HandleCancelDelete()
      modifies this
      ensures State() == old(State()).(showDeletePopup := false, itemToDelete := None)
    {
      showDeletePopup := false;
      itemToDelete := None;
    }
  }
}

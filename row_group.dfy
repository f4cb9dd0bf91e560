/** One group of rows of the generic table (src/components/row-group/index.tsx). Each
    group instance keeps its own expansion record and its own "updating" row id; an
    expanded row with children is followed by a nested group, one level deeper, with a
    state of its own. */
module RowGroup {
  import opened Common
  import opened Tree

  const DefaultRowColors: seq<string> := ["#F0F0F1", "#FFFFFF"]
  const White := "#FFFFFF"

  /** `prev[id]` read as a boolean: a missing key is falsy. */
  predicate Expanded(m: map<Id, bool>, id: Id)
  {
    id in m && m[id]
  }

  /** `handleExpandRowClick`: the record with `id` set to the negation of its previous
      value (missing counts as false), every other key kept. */
  function ExpandRowClick(prev: map<Id, bool>, id: Id): (r: map<Id, bool>)
    ensures id in r && (r[id] <==> !Expanded(prev, id))
    ensures r.Keys == prev.Keys + {id}
    ensures forall k :: k in prev && k != id ==> r[k] == prev[k]
  {
    prev[id := !Expanded(prev, id)]
  }

  /** Two clicks on the same row restore whether every row counts as expanded. */
  lemma ExpandRowClickTwice(prev: map<Id, bool>, id: Id)
    ensures forall k :: Expanded(ExpandRowClick(ExpandRowClick(prev, id), id), k) <==> Expanded(prev, k)
  {
  }

  /** A row action: its optional `condition` on the row id, and whether it brings its own
      component, a `renderUpdateComponent` and an `action` handler. */
  datatype RowAction = RowAction(condition: Option<Id -> bool>, hasComponent: bool, hasRenderUpdate: bool, hasHandler: bool)

  /** `Boolean(actions?.length)`. */
  predicate ShowActionColumn(actions: seq<RowAction>)
  {
    |actions| > 0
  }

  /** `actions?.find(action => action?.renderUpdateComponent)` finds something. */
  predicate HasUpdateAction(actions: seq<RowAction>)
  {
    exists i :: 0 <= i < |actions| && actions[i].hasRenderUpdate
  }

  /** What `handleRowActionClick` does. */
  datatype ActionOutcome = NoOp | ToggleUpdating | CallHandler(rowId: Id)

  /** `handleRowActionClick(rowId, action)`: nothing without an action or without any
      action column; an action with an update component toggles the updating row;
      otherwise the action's handler, if any, is called with the row id. */
  function RowActionOutcome(actions: seq<RowAction>, rowId: Id, action: Option<RowAction>): (r: ActionOutcome)
    ensures (action.None? || |actions| == 0) ==> r == NoOp
    ensures r == ToggleUpdating <==> action.Some? && |actions| > 0 && action.value.hasRenderUpdate
    ensures r.CallHandler? <==> action.Some? && |actions| > 0 && !action.value.hasRenderUpdate && action.value.hasHandler
    ensures r.CallHandler? ==> r.rowId == rowId
  {
    match action
    case None => NoOp
    case Some(a) =>
      if !ShowActionColumn(actions) then NoOp
      else if a.hasRenderUpdate then ToggleUpdating
      else if a.hasHandler then CallHandler(rowId)
      else NoOp
  }

  /** `setUpdatingRowId(prev => prev === rowId ? null : rowId)`: at most one row of the
      group is being updated, and clicking it again closes its form. */
  function ToggleUpdatingRow(prev: Option<Id>, rowId: Id): (r: Option<Id>)
    ensures r == Some(rowId) <==> prev != Some(rowId)
    ensures r.None? <==> prev == Some(rowId)
  {
    if prev == Some(rowId) then None else Some(rowId)
  }

  /** Toggling the same row twice restores the state when that row or no row was being
      updated; when another row was, its form is replaced by this row's and then closed. */
  lemma ToggleUpdatingTwice(prev: Option<Id>, rowId: Id)
    ensures prev.None? || prev == Some(rowId) ==> ToggleUpdatingRow(ToggleUpdatingRow(prev, rowId), rowId) == prev
    ensures prev.Some? && prev != Some(rowId) ==> ToggleUpdatingRow(ToggleUpdatingRow(prev, rowId), rowId).None?
  {
  }

  /** `getRowCellBackGround(index)`: white when `depth` is truthy and equals the index;
      otherwise `rowColors[1]` for even indices and `rowColors[0]` for odd ones (None when
      the list is too short and the lookup gives `undefined`). */
  function CellBackground(depth: Option<int>, index: nat, rowColors: seq<string>): (r: Option<string>)
    ensures (depth.Some? && depth.value != 0 && depth.value == index) ==> r == Some(White)
    ensures !(depth.Some? && depth.value != 0 && depth.value == index) && |rowColors| >= 2 ==>
      r == Some(if index % 2 == 1 then rowColors[0] else rowColors[1])
  {
    if depth.Some? && depth.value != 0 && depth.value == index then Some(White)
    else (
      var slot := if index % 2 != 0 then 0 else 1;
      if slot < |rowColors| then Some(rowColors[slot]) else None)
  }

  /** Away from the `depth` level, backgrounds repeat every two levels and, with two
      different colours, neighbouring levels differ. */
  lemma BackgroundAlternates(depth: Option<int>, level: nat, rowColors: seq<string>)
    requires |rowColors| >= 2
    requires depth.None? || (depth.value != level && depth.value != level + 1 && depth.value != level + 2)
    ensures CellBackground(depth, level, rowColors) == CellBackground(depth, level + 2, rowColors)
    ensures rowColors[0] != rowColors[1] ==> CellBackground(depth, level, rowColors) != CellBackground(depth, level + 1, rowColors)
  {
  }

  /** With the default colours, even levels are white and odd levels grey. */
  lemma DefaultBackground(level: nat)
    ensures CellBackground(None, level, DefaultRowColors) == Some(if level % 2 == 0 then White else "#F0F0F1")
  {
  }

  /** The actions drawn in a row's action cell, by index: those without a condition or
      whose condition holds for the row id. */
  function VisibleActions(actions: seq<RowAction>, id: Id): (r: seq<nat>)
    ensures forall i :: 0 <= i < |actions| ==> (i in r <==> actions[i].condition.None? || actions[i].condition.value(id))
    ensures forall i, j :: 0 <= i < j < |r| ==> r[i] < r[j]
    ensures forall i :: 0 <= i < |r| ==> r[i] < |actions|
  {
    if actions == [] then []
    else
      var n := |actions| - 1;
      var a := actions[n];
      VisibleActions(actions[..n], id) + (if a.condition.None? || a.condition.value(id) then [n] else [])
  }

  /** What one group instance decides from: its actions and display settings. */
  datatype Config = Config(actions: seq<RowAction>, depth: Option<int>, rowColors: seq<string>, multiLevel: bool, showTotal: bool)

  /** A click on action `i` in a row's action cell: None when the action's condition
      hides it. An action with its own `component` calls its `action` handler directly,
      if it has one, and so never opens the update form; any other action goes through
      `handleRowActionClick`. */
  function ActionCellClick(actions: seq<RowAction>, rowId: Id, i: nat): (r: Option<ActionOutcome>)
    requires i < |actions|
    ensures r.Some? <==> i in VisibleActions(actions, rowId)
    ensures r.Some? && actions[i].hasComponent ==>
      r.value == if actions[i].hasHandler then CallHandler(rowId) else NoOp
    ensures r.Some? && !actions[i].hasComponent ==> r.value == RowActionOutcome(actions, rowId, Some(actions[i]))
  {
    var a := actions[i];
    if !(a.condition.None? || a.condition.value(rowId)) then None
    else if a.hasComponent then Some(if a.hasHandler then CallHandler(rowId) else NoOp)
    else Some(RowActionOutcome(actions, rowId, Some(a)))
  }

  /** A drawn action with an update component opens or closes the update form only when
      it is a plain button: through its own `component` it at most calls its handler. */
  lemma ComponentActionSkipsUpdate(actions: seq<RowAction>, rowId: Id, i: nat)
    requires i < |actions| && i in VisibleActions(actions, rowId) && actions[i].hasRenderUpdate
    ensures actions[i].hasComponent ==> ActionCellClick(actions, rowId, i) != Some(ToggleUpdating)
    ensures !actions[i].hasComponent ==> ActionCellClick(actions, rowId, i) == Some(ToggleUpdating)
  {
  }

  /** The state of one group instance. */
  datatype GroupState = GroupState(expandedRows: map<Id, bool>, updatingRowId: Option<Id>)

  /** A group's initial state: `{}` and `null`. */
  const FreshState := GroupState(map[], None)

  /** The state of every mounted group instance, by its position: the top group is at
      `[]`, the group nested under row `k` of the group at `p` is at `p + [k]`. A group
      without an entry has its initial state. */
  type States = map<seq<nat>, GroupState>

  function StateAt(states: States, path: seq<nat>): GroupState
  {
    if path in states then states[path] else FreshState
  }

  /** The left padding of a row's level cell, `level * 20 + 10`; None when the table is
      not a multi-level one, where no level cell is drawn. */
  function LevelIndent(cfg: Config, level: nat): (r: Option<int>)
    ensures r.Some? <==> cfg.multiLevel
    ensures r.Some? ==> r.value >= 10 && (r.value - 10) / 20 == level
  {
    if cfg.multiLevel then Some(20 * level + 10) else None
  }

  /** A drawn table row. A data row carries its level, the left padding of its level cell
      (None when there is no level cell),
      its cell background, whether the expand button is drawn and points down, whether
      it is the total row, and whether the action cell is drawn with which actions. A row
      being updated is drawn plainly, followed by a row holding the update form. */
  datatype Line =
    | DataLine(node: Node, level: nat, indent: Option<int>, background: Option<string>, expandButton: bool,
               expandedIcon: bool, isTotal: bool, actionCell: bool, shownActions: seq<nat>)
    | UpdatingLine(node: Node, level: nat, indent: Option<int>, actionCell: bool)
    | UpdateFormLine(node: Node)

  /** The rows of a group from index `k` on. */
  function GroupFrom(cfg: Config, states: States, path: seq<nat>, rows: seq<Node>, k: nat, level: nat): (r: seq<Line>)
    ensures forall i :: 0 <= i < |r| && !r[i].UpdateFormLine? ==>
      && r[i].level >= level
      && r[i].indent == LevelIndent(cfg, r[i].level)
      && (r[i].actionCell ==> r[i].level == 0 && ShowActionColumn(cfg.actions))
    decreases rows, |rows| - k, 1
  {
    if k >= |rows| then [] else RowBlock(cfg, states, path, rows, k, level) + GroupFrom(cfg, states, path, rows, k + 1, level)
  }

  /** Row `k` of a group and, when it is expanded and has a child list, the nested group
      drawn right after it. */
  function RowBlock(cfg: Config, states: States, path: seq<nat>, rows: seq<Node>, k: nat, level: nat): (r: seq<Line>)
    requires k < |rows|
    ensures forall i :: 0 <= i < |r| && !r[i].UpdateFormLine? ==>
      && r[i].level >= level
      && r[i].indent == LevelIndent(cfg, r[i].level)
      && (r[i].actionCell ==> r[i].level == 0 && ShowActionColumn(cfg.actions))
    ensures |r| >= 1 && !r[0].UpdateFormLine? && r[0].node == rows[k] && r[0].level == level
    ensures forall i :: 1 <= i < |r| && !r[i].UpdateFormLine? ==> r[i].level > level
    decreases rows, |rows| - k, 0
  {
    var row := rows[k];
    var st := StateAt(states, path);
    var isExpanded := Expanded(st.expandedRows, row.id);
    var actionCell := ShowActionColumn(cfg.actions) && level == 0;
    if st.updatingRowId == Some(row.id) && HasUpdateAction(cfg.actions) then
      [UpdatingLine(row, level, LevelIndent(cfg, level), actionCell), UpdateFormLine(row)]
    else
      [DataLine(row, level, LevelIndent(cfg, level), CellBackground(cfg.depth, level, cfg.rowColors),
                cfg.multiLevel && row.children.Present?, isExpanded,
                k == |rows| - 1 && cfg.showTotal, actionCell,
                if actionCell then VisibleActions(cfg.actions, row.id) else [])]
      + (match row.children
         case Present(items) =>
           if isExpanded then GroupFrom(cfg, states, path + [k], items, 0, level + 1) else []
         case Absent => [])
  }

  /** The body of the generic table: the top group over the data at level 0. */
  function Body(cfg: Config, states: States, data: seq<Node>): seq<Line>
  {
    GroupFrom(cfg, states, [], data, 0, 0)
  }

  /** The records a line sequence draws as rows at exactly `level`, in order. */
  function RowsAt(lines: seq<Line>, level: nat): seq<Node>
  {
    if lines == [] then []
    else
      var head := if !lines[0].UpdateFormLine? && lines[0].level == level then [lines[0].node] else [];
      head + RowsAt(lines[1..], level)
  }

  lemma {:induction false} RowsAtAppend(a: seq<Line>, b: seq<Line>, level: nat)
    ensures RowsAt(a + b, level) == RowsAt(a, level) + RowsAt(b, level)
  {
    if a == [] {
      assert a + b == b;
    } else {
      assert (a + b)[0] == a[0];
      assert (a + b)[1..] == a[1..] + b;
      RowsAtAppend(a[1..], b, level);
    }
  }

  lemma {:induction false} RowsAtDeeper(lines: seq<Line>, level: nat)
    requires forall i :: 0 <= i < |lines| && !lines[i].UpdateFormLine? ==> lines[i].level > level
    ensures RowsAt(lines, level) == []
  {
    if lines != [] {
      RowsAtDeeper(lines[1..], level);
    }
  }

  /** Whatever is expanded or being updated, a group draws each of its rows exactly once at
      its own level, in order; everything else it draws is deeper. */
  lemma {:induction false} GroupKeepsRows(cfg: Config, states: States, path: seq<nat>, rows: seq<Node>, k: nat, level: nat)
    requires k <= |rows|
    ensures RowsAt(GroupFrom(cfg, states, path, rows, k, level), level) == rows[k..]
    decreases |rows| - k
  {
    if k < |rows| {
      RowsAtAppend(RowBlock(cfg, states, path, rows, k, level), GroupFrom(cfg, states, path, rows, k + 1, level), level);
      BlockRowsAt(cfg, states, path, rows, k, level);
      GroupKeepsRows(cfg, states, path, rows, k + 1, level);
      assert rows[k..] == [rows[k]] + rows[k + 1..];
    }
  }

  /** A row's block draws that row alone at the group's level. */
  lemma BlockRowsAt(cfg: Config, states: States, path: seq<nat>, rows: seq<Node>, k: nat, level: nat)
    requires k < |rows|
    ensures RowsAt(RowBlock(cfg, states, path, rows, k, level), level) == [rows[k]]
  {
    var block := RowBlock(cfg, states, path, rows, k, level);
    assert block == [block[0]] + block[1..];
    RowsAtAppend([block[0]], block[1..], level);
    RowsAtDeeper(block[1..], level);
    assert [block[0]][1..] == [];
  }

  /** A row that is not expanded in its group's own record, and not being updated, is a
      single line: none of its descendants is drawn. */
  lemma CollapsedRowAlone(cfg: Config, states: States, path: seq<nat>, rows: seq<Node>, k: nat, level: nat)
    requires k < |rows|
    requires !Expanded(StateAt(states, path).expandedRows, rows[k].id)
    requires StateAt(states, path).updatingRowId != Some(rows[k].id)
    ensures |RowBlock(cfg, states, path, rows, k, level)| == 1
  {
  }

  /** A row whose update form is open is drawn as the row plus the form, never with its
      children, even when it is expanded. */
  lemma UpdatingRowHidesChildren(cfg: Config, states: States, path: seq<nat>, rows: seq<Node>, k: nat, level: nat)
    requires k < |rows|
    requires StateAt(states, path).updatingRowId == Some(rows[k].id) && HasUpdateAction(cfg.actions)
    ensures RowBlock(cfg, states, path, rows, k, level)
      == [UpdatingLine(rows[k], level, LevelIndent(cfg, level), ShowActionColumn(cfg.actions) && level == 0), UpdateFormLine(rows[k])]
  {
  }

  /** An expanded row with a child list is followed by its nested group, at the next
      level, in the state of the group mounted under it. */
  lemma ExpandedRowShowsGroup(cfg: Config, states: States, path: seq<nat>, rows: seq<Node>, k: nat, level: nat)
    requires k < |rows| && rows[k].children.Present?
    requires Expanded(StateAt(states, path).expandedRows, rows[k].id)
    requires StateAt(states, path).updatingRowId != Some(rows[k].id)
    ensures RowBlock(cfg, states, path, rows, k, level)[1..]
      == GroupFrom(cfg, states, path + [k], rows[k].children.items, 0, level + 1)
  {
  }

  /** Groups with their initial state draw their rows only, one line each. */
  lemma {:induction false} FreshGroupFlat(cfg: Config, states: States, path: seq<nat>, rows: seq<Node>, k: nat, level: nat)
    requires k <= |rows| && path !in states
    ensures |GroupFrom(cfg, states, path, rows, k, level)| == |rows| - k
    ensures forall i :: 0 <= i < |rows| - k ==>
      (GroupFrom(cfg, states, path, rows, k, level)[i].DataLine?
       && GroupFrom(cfg, states, path, rows, k, level)[i].node == rows[k + i]
       && GroupFrom(cfg, states, path, rows, k, level)[i].level == level)
    decreases |rows| - k
  {
    if k < |rows| {
      FreshGroupFlat(cfg, states, path, rows, k + 1, level);
    }
  }

  /** Nested groups do not inherit expansion: with only the top group's state set, no
      row deeper than level 1 is ever drawn, even when the top record marks child ids as
      expanded. */
  lemma {:induction false} TopStateOnly(cfg: Config, states: States, rows: seq<Node>, k: nat)
    requires k <= |rows|
    requires states.Keys <= {[]}
    ensures forall i :: 0 <= i < |GroupFrom(cfg, states, [], rows, k, 0)| ==>
      GroupFrom(cfg, states, [], rows, k, 0)[i].UpdateFormLine? || GroupFrom(cfg, states, [], rows, k, 0)[i].level <= 1
    decreases |rows| - k
  {
    if k < |rows| {
      TopStateOnly(cfg, states, rows, k + 1);
      var row := rows[k];
      if row.children.Present? {
        assert [] + [k] !in states;
        FreshGroupFlat(cfg, states, [] + [k], row.children.items, 0, 1);
      }
    }
  }

  /** The state handlers of one group instance. */
  class GroupInstance {
    const actions: seq<RowAction>
    var expandedRows: map<Id, bool>
    var updatingRowId: Option<Id>

    constructor (actions: seq<RowAction>)
      ensures this.actions == actions && expandedRows == map[] && updatingRowId == None
    {
      this.actions := actions;
      expandedRows := map[];
      updatingRowId := None;
    }

    function State(): GroupState
      reads this
    {
      GroupState(expandedRows, updatingRowId)
    }

    /** `handleExpandRowClick`. */
    method HandleExpandRowClick(id: Id)
      modifies this
      ensures expandedRows == ExpandRowClick(old(expandedRows), id)
      ensures updatingRowId == old(updatingRowId)
    {
      expandedRows := expandedRows[id := !(id in expandedRows && expandedRows[id])];
    }

    /** `handleRowActionClick`; `called` is the row id passed to the action's handler. */
    method HandleRowActionClick(rowId: Id, action: Option<RowAction>) returns (called: Option<Id>)
      modifies this
      ensures expandedRows == old(expandedRows)
      ensures RowActionOutcome(actions, rowId, action) == ToggleUpdating ==>
        updatingRowId == ToggleUpdatingRow(old(updatingRowId), rowId) && called.None?
      ensures RowActionOutcome(actions, rowId, action) == CallHandler(rowId) ==>
        updatingRowId == old(updatingRowId) && called == Some(rowId)
      ensures RowActionOutcome(actions, rowId, action) == NoOp ==>
        updatingRowId == old(updatingRowId) && called.None?
    {
      called := None;
      if action.None? || !(|actions| > 0) {
        return;
      }
      var a := action.value;
      if a.hasRenderUpdate {
        updatingRowId := if updatingRowId == Some(rowId) then None else Some(rowId);
      } else if a.hasHandler {
        called := Some(rowId);
      }
    }

    /** The close callback handed to the update component. */
    method CloseUpdate()
      modifies this
      ensures updatingRowId == None && expandedRows == old(expandedRows)
    {
      updatingRowId := None;
    }
  }
}

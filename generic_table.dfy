/** The generic grouped table (src/table/table.tsx, and its copy
    src/components/table/index.tsx): the expand-all record, the column metadata lookup,
    the classification of a cell's content and the empty-data view. The rows themselves
    are drawn by the row groups of module RowGroup. */
module GenericTable {
  import opened Common
  import opened Tree
  import opened RowGroup

  /** The records of a forest followed by one more record. */
  lemma {:induction false} SubtreeForestSnoc(ns: seq<Node>, n: Node)
    ensures SubtreeForest(ns + [n]) == SubtreeForest(ns) + Subtree(n)
  {
    if ns == [] {
      assert ns + [n] == [n];
      assert [n][1..] == [];
    } else {
      assert (ns + [n])[0] == ns[0];
      assert (ns + [n])[1..] == ns[1..] + [n];
      SubtreeForestSnoc(ns[1..], n);
    }
  }

  /** The ids of a forest followed by one more record: its own id and its descendants'. */
  lemma IdsSnoc(ns: seq<Node>, n: Node)
    ensures Ids(ns + [n]) == Ids(ns) + {n.id} + Ids(Kids(n))
  {
    SubtreeForestSnoc(ns, n);
    assert Subtree(n) == {n} + SubtreeForest(Kids(n));
  }

  /** `setAllRowState(rows)`: writes `v` under the id of every record of `rows`, at every
      depth, into the record `m0`, leaving the other keys as they were. */
  method SetAllRowState(rows: seq<Node>, v: bool, m0: map<Id, bool>) returns (m: map<Id, bool>)
    ensures m.Keys == m0.Keys + Ids(rows)
    ensures forall id :: id in Ids(rows) ==> m[id] == v
    ensures forall id :: id in m0 && id !in Ids(rows) ==> m[id] == m0[id]
    decreases Present(rows)
  {
    m := m0;
    var i := 0;
    while i < |rows|
      invariant 0 <= i <= |rows|
      invariant m.Keys == m0.Keys + Ids(rows[..i])
      invariant forall id :: id in Ids(rows[..i]) ==> m[id] == v
      invariant forall id :: id in m0 && id !in Ids(rows[..i]) ==> m[id] == m0[id]
    {
      var row := rows[i];
      m := m[row.id := v];
      if rows[i].children.Present? {
        m := SetAllRowState(rows[i].children.items, v, m);
      }
      IdsSnoc(rows[..i], row);
      assert rows[..i + 1] == rows[..i] + [row];
      i := i + 1;
    }
    assert rows[..i] == rows;
  }

  /** A column's metadata entry, `meta.columns[i]`. */
  datatype ColumnMeta = ColumnMeta(id: string, columnType: Option<string>)

  /** The metadata entries by id, folding left to right so that a later entry with the
      same id replaces an earlier one. */
  function MetaIndex(cs: seq<ColumnMeta>): map<string, ColumnMeta>
  {
    if cs == [] then map[] else MetaIndex(cs[..|cs| - 1])[cs[|cs| - 1].id := cs[|cs| - 1]]
  }

  /** Every entry's id is a key of the index. */
  lemma {:induction false} MetaIndexCovers(cs: seq<ColumnMeta>)
    ensures forall i :: 0 <= i < |cs| ==> cs[i].id in MetaIndex(cs)
  {
    if cs != [] {
      var n := |cs| - 1;
      MetaIndexCovers(cs[..n]);
      assert forall i :: 0 <= i < n ==> cs[..n][i] == cs[i];
    }
  }

  /** Every key of the index is some entry's id. */
  lemma {:induction false} MetaIndexKeysAreIds(cs: seq<ColumnMeta>)
    ensures forall k :: k in MetaIndex(cs) ==> exists i :: 0 <= i < |cs| && cs[i].id == k
  {
    if cs != [] {
      var n := |cs| - 1;
      var front := cs[..n];
      MetaIndexKeysAreIds(front);
      forall k | k in MetaIndex(cs)
        ensures exists i :: 0 <= i < |cs| && cs[i].id == k
      {
        if k != cs[n].id {
          assert k in MetaIndex(front);
          var i :| 0 <= i < |front| && front[i].id == k;
          assert cs[i].id == k;
        }
      }
    }
  }

  /** Each id is mapped to the last entry carrying it: a later duplicate wins. */
  lemma {:induction false} MetaIndexLastWins(cs: seq<ColumnMeta>)
    ensures forall i :: 0 <= i < |cs| && (forall j :: i < j < |cs| ==> cs[j].id != cs[i].id) ==>
      cs[i].id in MetaIndex(cs) && MetaIndex(cs)[cs[i].id] == cs[i]
  {
    MetaIndexCovers(cs);
    if cs != [] {
      var n := |cs| - 1;
      var front := cs[..n];
      MetaIndexLastWins(front);
      forall i | 0 <= i < |cs| && (forall j :: i < j < |cs| ==> cs[j].id != cs[i].id)
        ensures cs[i].id in MetaIndex(cs) && MetaIndex(cs)[cs[i].id] == cs[i]
      {
        if i < n {
          assert cs[n].id != cs[i].id;
          assert front[i] == cs[i];
          assert forall j :: i < j < |front| ==> front[j] == cs[j];
          assert MetaIndex(front)[front[i].id] == front[i];
        }
      }
    }
  }

  /** `columnMetadata`: the `reduce` over the metadata columns, or the empty record when
      there are none. */
  method ColumnMetadata(columns: Option<seq<ColumnMeta>>) returns (r: map<string, ColumnMeta>)
    ensures columns.None? ==> r == map[]
    ensures columns.Some? ==> r == MetaIndex(columns.value)
  {
    r := map[];
    if columns.None? {
      return;
    }
    var cs := columns.value;
    var i := 0;
    while i < |cs|
      invariant 0 <= i <= |cs|
      invariant r == MetaIndex(cs[..i])
    {
      r := r[cs[i].id := cs[i]];
      assert cs[..i + 1][..i] == cs[..i];
      i := i + 1;
    }
    assert cs[..i] == cs;
  }

  /** What a data cell shows when the column has no render function. */
  datatype CellContent =
    | Dash                    // the value is not a string, number or boolean
    | PivotValue(v: Value)    // the pivot table's fallback formatting
    | NotAvailable            // the string "null"
    | Shown(v: Value)         // the formatted value, or the raw value when formatting gives nothing

  /** `renderCellContent`. `check` is the formatting helper `checkCellValueType` applied to
      a column type; `pivot` says the chart type is the pivot table and `pivotColumnType` is
      the type of the third metadata column. */
  function RenderCellContent(value: Value, columnType: Option<string>, pivot: bool, pivotColumnType: Option<string>,
                             check: (Option<string>, Value) -> Value): (r: CellContent)
    ensures r == Dash <==> !value.IsPrimitive()
    ensures r.PivotValue? <==> (value.IsPrimitive() && !Truthy(check(columnType, value)) && pivot
                                && pivotColumnType.Some? && pivotColumnType.value != "")
    ensures r.PivotValue? ==> r.v == check(pivotColumnType, value)
    ensures r == NotAvailable <==> value == Str("null") && !r.PivotValue?
    ensures r.Shown? ==> (value.IsPrimitive() && value != Str("null")
                          && r.v == (if check(columnType, value).Null? || check(columnType, value).Undefined? then value else check(columnType, value)))
  {
    if !value.IsPrimitive() then Dash
    else
      var renderValue := check(columnType, value);
      if !Truthy(renderValue) && pivot && pivotColumnType.Some? && pivotColumnType.value != "" then
        PivotValue(check(pivotColumnType, value))
      else if value == Str("null") then NotAvailable
      else if renderValue.Null? || renderValue.Undefined? then Shown(value)
      else Shown(renderValue)
  }

  /** The raw value is shown only when formatting gives null or undefined: a formatting
      result that is falsy but not nullish, such as the empty string, is shown as it is. */
  lemma FalsyFormatShown(value: Value, columnType: Option<string>, check: (Option<string>, Value) -> Value)
    requires value.IsPrimitive() && value != Str("null")
    requires check(columnType, value) == Str("")
    ensures RenderCellContent(value, columnType, false, None, check) == Shown(Str(""))
  {
  }

  /** What the table component draws. */
  datatype View = Loading | NoData | TableView(actionsHeader: bool, lines: seq<Line>)

  /** The whole component: the empty-data placeholder, or the header (with an Actions
      column exactly when there are actions) and the top row group over the data. */
  function Render(cfg: Config, states: States, data: seq<Node>, isLoading: bool): (r: View)
    ensures data == [] <==> !r.TableView?
    ensures data == [] ==> (r == Loading <==> isLoading)
    ensures r.TableView? ==> (r.actionsHeader <==> |cfg.actions| > 0) && RowsAt(r.lines, 0) == data
  {
    if |data| == 0 then (if isLoading then Loading else NoData)
    else
      GroupKeepsRows(cfg, states, [], data, 0, 0);
      TableView(ShowActionColumn(cfg.actions), Body(cfg, states, data))
  }

  /** The table's own state. */
  class Table {
    const data: seq<Node>
    const actions: seq<RowAction>
    var expandedRows: map<Id, bool>
    var allExpanded: bool
    var updatingRowId: Option<Id>

    constructor (data: seq<Node>, actions: seq<RowAction>)
      ensures this.data == data && this.actions == actions
      ensures expandedRows == map[] && !allExpanded && updatingRowId == None
    {
      this.data := data;
      this.actions := actions;
      expandedRows := map[];
      allExpanded := false;
      updatingRowId := None;
    }

    /** `handleExpandAllRows`: negates `allExpanded` and replaces the expansion record by
        a fresh one mapping the id of every record, at every depth, to the new value. */
    method HandleExpandAllRows()
      modifies this
      ensures allExpanded == !old(allExpanded)
      ensures expandedRows.Keys == Ids(data)
      ensures forall id :: id in expandedRows ==> expandedRows[id] == allExpanded
      ensures updatingRowId == old(updatingRowId)
    {
      var newExpandState := !allExpanded;
      allExpanded := newExpandState;
      var updated := SetAllRowState(data, newExpandState, map[]);
      expandedRows := updated;
    }

    /** `handleExpandRowClick`. */
    method HandleExpandRowClick(id: Id)
      modifies this
      ensures expandedRows == ExpandRowClick(old(expandedRows), id)
      ensures allExpanded == old(allExpanded) && updatingRowId == old(updatingRowId)
    {
      expandedRows := expandedRows[id := !(id in expandedRows && expandedRows[id])];
    }

    /** `handleRowActionClick`; `called` is the row id passed to the action's handler. */
    method HandleRowActionClick(rowId: Id, action: Option<RowAction>) returns (called: Option<Id>)
      modifies this
      ensures expandedRows == old(expandedRows) && allExpanded == old(allExpanded)
      ensures RowActionOutcome(actions, rowId, action) == ToggleUpdating ==>
        updatingRowId == ToggleUpdatingRow(old(updatingRowId), rowId) && called.None?
      ensures RowActionOutcome(actions, rowId, action).CallHandler? ==>
        updatingRowId == old(updatingRowId) && called == Some(rowId)
      ensures RowActionOutcome(actions, rowId, action) == NoOp ==>
        updatingRowId == old(updatingRowId) && called.None?
    {
      called := None;
      if action.None? || !(|actions| > 0) {
        return;
      }
      if action.value.hasRenderUpdate {
        updatingRowId := if updatingRowId == Some(rowId) then None else Some(rowId);
      } else if action.value.hasHandler {
        called := Some(rowId);
      }
    }
  }

  /** Expand-all twice restores `allExpanded` and leaves every id mapped to it. */
  method ExpandAllTwice(t: Table)
    modifies t
    ensures t.allExpanded == old(t.allExpanded)
    ensures t.expandedRows.Keys == Ids(t.data)
    ensures forall id :: id in t.expandedRows ==> t.expandedRows[id] == old(t.allExpanded)
  {
    t.HandleExpandAllRows();
    t.HandleExpandAllRows();
  }
}

# react-multi-level-table in Dafny

This project models the logic behind the components of react-multi-level-table, a
React library for hierarchical tables whose rows can be expanded to show child records.
It covers the following parts:

- **Expandable table** (`src/components/MultiLevelTable/MultiLevelTable.tsx`): the
  memoised `rowsMap` from a record id to its child list, the `expandedRows` set and
  `toggleRow`, and the rows drawn for a page (`page.map` plus the recursive
  `renderNestedRows`, including its level numbering).
- **Plain multi-level table** (`src/components/MultiLevelTable.tsx`): a full pre-order
  rendering of every record with its level. It serves as the reference the expandable
  table is proved against when everything is expanded.
- **Demo host** (`src/App.tsx`): the expanded, selected and open-dropdown sets, select-all
  and `isAllSelected`, button dispatch, the single and bulk delete popups, and the
  delete name fallback.
- **Pagination** (`src/components/Pagination.tsx`): the `getVisiblePages` window with
  its `-1` ellipsis markers, the page buttons and the guarded previous/next arrows.
- **Generic grouped table** (`src/components/row-group/index.tsx`,
  `src/table/table.tsx`, `src/components/table/index.tsx`):
  - per-group expansion records and the updating-row toggle;
  - row actions and their conditions;
  - background parity and indentation by level;
  - the recursive emission of nested groups;
  - "expand all", `columnMetadata` and the cell-content classification;
  - the loading and empty-data branches.
- **Filter dropdowns** (`src/components/FilterDropdown.tsx`,
  `example/src/components/FilterDropdown.tsx`): the option toggle on a copied set, the
  select-all box states, the apply/cancel/reset callback sequences and the highlights.
- **Button group** (`src/components/ButtonGroup.tsx`): click dispatch priority and which
  dropdowns are drawn.
- **Row, header and icon** (`src/components/TableRow.tsx`,
  `src/components/TableRow/TableRow.tsx`, `src/components/TableHeader.tsx`,
  `src/components/icons/ExpandIcon.tsx`): class lists, backgrounds, padding, expand-icon
  placement, toggle clicks, sort indicators, captions, filter inputs and icon rotation.
- **Side panel** (`src/components/SidePanel.tsx`, `example/src/components/SidePanel.tsx`):
  the edit form taken from the selected record, field-by-field edits and `hasChanges`.

Records are `Tree.Node` values: an `Id` (string or number), a map of fields and a child
list that may be absent. State the source keeps in React hooks is modelled as class
fields that the handlers' methods reassign. Derived values and rendering decisions are
modelled as functions. What a component draws is modelled as a sequence of row or cell
descriptions, not as DOM.

Files:
- `common.dfy`: ids, values, truthiness, `String()`, and the set flip.
- `tree.dfy`: records and their subtrees.
- One file per component family.

## Model

| member | source | states |
|---|---|---|
| Common.Flip | src/components/MultiLevelTable/MultiLevelTable.tsx:124-134 | the copied set has the element exactly when the original did not, and every other element is unchanged |
| Common.FlipTwice | src/App.tsx:890-901 | toggling the same id twice restores the set |
| Tree.Kids | src/components/MultiLevelTable.tsx:37 | a record without a child property has no children; every child is structurally smaller than its parent |
| ExpandableTable.ProcessItem | src/components/MultiLevelTable/MultiLevelTable.tsx:51-58 | the map after `processItem` is the map before, extended with the entries of the record and its descendants |
| ExpandableTable.BuildRowsMap | src/components/MultiLevelTable/MultiLevelTable.tsx:48-62 | the loop over `data` builds exactly the index of the whole forest |
| ExpandableTable.IndexForestKeys | src/components/MultiLevelTable/MultiLevelTable.tsx:52-53 | the index only has keys that are ids of records in the data |
| ExpandableTable.IndexNodeAgrees | src/components/MultiLevelTable/MultiLevelTable.tsx:51-58 | with distinct ids, the index has an entry for each record at any depth exactly when its child list is non-empty, and that entry is the child list |
| ExpandableTable.IndexForestAgrees | src/components/MultiLevelTable/MultiLevelTable.tsx:60 | the same holds for the index built from a whole forest |
| ExpandableTable.RowsMapAgrees | src/components/MultiLevelTable/MultiLevelTable.tsx:48-62 | with distinct ids, `rowsMap` answers for every record of the data, and its keys are ids of the data |
| ExpandableTable.NestedRows | src/components/MultiLevelTable/MultiLevelTable.tsx:142-162 | a parent that is not expanded draws nothing; every drawn row is a descendant at the given level or deeper, has `hasChildren` iff its id is in the index (iff it has children), and has `isExpanded` iff its id is in the expanded set |
| ExpandableTable.ChildRows | src/components/MultiLevelTable/MultiLevelTable.tsx:146-161 | the rows drawn for a child list are descendants of the list at the given level or deeper, with the same `hasChildren`/`isExpanded` meaning |
| ExpandableTable.PageRows | src/components/MultiLevelTable/MultiLevelTable.tsx:169-186 | the body has rows exactly when the page does; each row is a record of the page's trees with `hasChildren` iff its id is in the index and `isExpanded` iff its id is expanded |
| ExpandableTable.PageRowsKeepPage | src/components/MultiLevelTable/MultiLevelTable.tsx:169-186 | whatever is expanded, the page rows (the only rows that start an expansion walk) are drawn once each, in page order |
| ExpandableTable.TopBlockPageRow | src/components/MultiLevelTable/MultiLevelTable.tsx:176-183 | a page row's block holds exactly one page row, that row itself |
| ExpandableTable.CollapsedShowsPage | src/components/MultiLevelTable/MultiLevelTable.tsx:143 | with no page record expanded, exactly the page rows are drawn, in order |
| ExpandableTable.ChildRowsFull | src/components/MultiLevelTable/MultiLevelTable.tsx:145-161 | fully expanded, a child list is drawn in the same pre-order, and at the same levels, as the plain table draws it |
| ExpandableTable.NestedRowsFull | src/components/MultiLevelTable/MultiLevelTable.tsx:142-162 | fully expanded, a parent's nested rows are its descendants in pre-order, at the levels the plain table gives them |
| ExpandableTable.TopBlockFull | src/components/MultiLevelTable/MultiLevelTable.tsx:142-183 | a page row and its nested rows are the plain table's rows for that record, with every level lowered by one except level 0 (children of a page row also sit at level 0) |
| ExpandableTable.FullyExpandedIsReference | src/components/MultiLevelTable/MultiLevelTable.tsx:142-186 | with every record expanded, the body draws the plain table's records in the same pre-order; page rows and their direct children are at level 0, and each deeper generation is one level lower than in the plain table |
| ExpandableTable.PageFromData | src/components/MultiLevelTable/MultiLevelTable.tsx:169-172 | an index that agrees with the data agrees with any page made of top-level records of the data |
| ExpandableTable.PageOfDistinctData | src/components/MultiLevelTable/MultiLevelTable.tsx:48-62 | with distinct ids, `rowsMap` agrees with every page of top-level records, so drawing that page is well defined |
| ExpandableTable.CyclicIdsLoop | src/components/MultiLevelTable/MultiLevelTable.tsx:51-58 | for `[{id: 1, children: [{id: 2}]}, {id: 2, children: [{id: 1}]}]` the lookup of 1 yields id 2 and the lookup of 2 yields id 1, so the index does not agree with the data |
| ExpandableTable.MultiLevelTable.constructor | src/components/MultiLevelTable/MultiLevelTable.tsx:42-62 | the component starts with no row expanded and with the index of its data |
| ExpandableTable.MultiLevelTable.ToggleRow | src/components/MultiLevelTable/MultiLevelTable.tsx:124-134 | the expanded set becomes the copy with the id's membership flipped, and nothing else changes |
| ExpandableTable.MultiLevelTable.OnToggle | src/components/MultiLevelTable/MultiLevelTable.tsx:155-181 | a drawn row's toggle flips its id only when the row has children; otherwise nothing changes |
| ExpandableTable.MultiLevelTable.Body | src/components/MultiLevelTable/MultiLevelTable.tsx:164-187 | the body of the current page draws each page row once, in order |
| ReferenceTable.Cells | src/components/MultiLevelTable.tsx:29-35 | one cell per column, in column order, each the rendered text or the raw field |
| ReferenceTable.RenderRow | src/components/MultiLevelTable.tsx:25-39 | a record's rows start with the record itself at its level, followed by rows strictly deeper, each carrying its own cells |
| ReferenceTable.RenderForest | src/components/MultiLevelTable.tsx:37-51 | a forest draws rows exactly when it is non-empty, none above the starting level |
| ReferenceTable.RenderLength | src/components/MultiLevelTable.tsx:25-51 | the number of rows drawn equals the number of records in the forest |
| ReferenceTable.RowLength | src/components/MultiLevelTable.tsx:25-39 | a record draws as many rows as its tree has records |
| ReferenceTable.TopRowsAreTheForest | src/components/MultiLevelTable.tsx:25-51 | the rows at the starting level are exactly the forest's records, in order; their children are at level + 1 |
| App.TopIds | src/App.tsx:934-943 | every top-level record's id is in the set `handleSelectAll` fills |
| App.TopIdsOnlyTop | src/App.tsx:938-940 | every id in that set is a top-level record's id, never one found only in a child |
| App.TopIdsCount | src/App.tsx:934-943 | with distinct top-level ids there are as many ids as records |
| App.SelectAllTopOnly | src/App.tsx:934-943 | select-all only ever selects top-level ids |
| App.IsAllSelected | src/App.tsx:1096 | `isAllSelected`: the selection has as many ids as there are records, and there is at least one record |
| App.SelectAll | src/App.tsx:934-943 | the selection `handleSelectAll` installs: every top-level id when the selection is not the size of the data, otherwise none |
| App.SelectAllChecks | src/App.tsx:934-1096 | with distinct ids and some data, a select-all that selects makes `isAllSelected` true |
| App.SelectAllClearsSameSize | src/App.tsx:934-1096 | a selection with as many ids as records, whichever ids they are, is cleared, and `isAllSelected` becomes false |
| App.DuplicateTopIdsNeverAllSelected | src/App.tsx:934-1096 | with a repeated top-level id, select-all never makes `isAllSelected` true |
| App.TopIdsBound | src/App.tsx:934-943 | there are never more top-level ids than records |
| App.TopIdsRepeat | src/App.tsx:934-943 | a repeated top-level id makes the set smaller than the data |
| App.ButtonClick | src/App.tsx:926-932 | a dropdown button asks for the negation of its current open state; any other button runs its own `onClick` when it has one |
| App.DropdownToggle | src/App.tsx:903-914 | the id is open exactly when asked to be, and every other id is unchanged |
| App.DropdownClose | src/App.tsx:916-924 | the id is closed whatever its state, and every other id keeps its state |
| App.DropdownClickTwice | src/App.tsx:903-932 | clicking a dropdown button twice leaves the open dropdowns as they were |
| App.DeleteConfirm | src/App.tsx:967-973 | the popup resets only when its pending id is truthy; otherwise it is left unchanged |
| App.DeleteFlow | src/App.tsx:959-973 | after opening for an item, confirming leaves the popup open exactly when the item's id is falsy (such as 0) |
| App.DeleteName | src/App.tsx:805 | the delete name is the record's non-empty name, the `String()` text of any other truthy name, or `Item <id>` when the name is falsy |
| App.UnnamedDeleteName | src/App.tsx:805 | an unnamed record is offered for deletion under a name that starts with `Item ` and continues with its id when that id is truthy |
| App.ActionsShown | src/App.tsx:792 | the action cell is drawn only for a record whose `showActionButtons` is truthy |
| App.ActionsCell | src/App.tsx:781-838 | the cell holds the edit icon then the delete icon exactly when `showActionButtons` is truthy, and is `null` otherwise |
| App.ActionsCellClick | src/App.tsx:781-838 | only a drawn icon can be clicked; edit calls `onEditClick(item)` and delete calls `onDeleteClick` with the record's id and its delete name when the handler is given, and otherwise they only log |
| App.ActionsNeedFlag | src/App.tsx:792-809 | a record with a falsy or absent `showActionButtons` has no action cell and no click reaches either handler; with the flag and a delete handler, a delete click offers the record under its delete name |
| App.Host.constructor | src/App.tsx:843-869 | the host starts with empty sets and closed popups |
| App.Host.HandleRowToggle | src/App.tsx:890-901 | flips exactly the id in `expandedRows`; every other piece of state is unchanged |
| App.Host.HandleRowSelect | src/App.tsx:945-956 | flips exactly the id in `selectedRows` and never touches `expandedRows` |
| App.Host.HandleSelectAll | src/App.tsx:934-943 | the selection becomes every top-level id when its size differs from the data length, otherwise empty; nothing else changes |
| App.Host.HandleDropdownToggle | src/App.tsx:903-914 | the open set changes as `DropdownToggle` says; nothing else changes |
| App.Host.HandleDropdownClose | src/App.tsx:916-924 | `openDropdowns` becomes `DropdownClose` of the old set; nothing else changes |
| App.Host.HandleButtonClick | src/App.tsx:926-932 | a dropdown button flips its own dropdown; otherwise the button's callback is reported run; nothing else changes |
| App.Host.HandleDeleteClick | src/App.tsx:959-965 | opens the popup for the item |
| App.Host.HandleDeleteConfirm | src/App.tsx:967-973 | resets the popup only when the pending id is truthy |
| App.Host.HandleDeleteCancel | src/App.tsx:975-977 | always resets the popup |
| App.Host.HandleBulkDeleteClick | src/App.tsx:979-984 | opens the bulk popup with the current selection size |
| App.Host.HandleBulkDeleteConfirm | src/App.tsx:986-991 | empties the selection and closes the bulk popup with count 0 |
| App.Host.HandleBulkDeleteCancel | src/App.tsx:993-995 | closes the bulk popup and keeps the selection |
| App.Host.HandleConfirmDelete | src/App.tsx:997-1004 | closes the standalone popup only when an item is pending |
| App.Host.HandleCancelDelete | src/App.tsx:1006-1009 | always closes the standalone popup and clears its item |
| Pagination.GetVisiblePages | src/components/Pagination.tsx:59-97 | the pushes across the three branches produce exactly the window `VisiblePages` defines |
| Pagination.VisiblePages | src/components/Pagination.tsx:59-97 | the window of `getVisiblePages` case by case: every page up to five, otherwise the first and last pages around the current page's neighbourhood with `-1` for each gap |
| Pagination.Range | src/components/Pagination.tsx:64-83 | each `for` loop yields the consecutive indices from its lower bound up to, but not including, its upper bound |
| Pagination.WindowShape | src/components/Pagination.tsx:59-97 | at most seven entries; the page entries are strictly increasing real pages; an ellipsis appears only with more than five pages and never at either end |
| Pagination.WindowLength | src/components/Pagination.tsx:63-94 | with at most five pages every page is listed; otherwise the window has exactly seven entries |
| Pagination.WindowEnds | src/components/Pagination.tsx:63-94 | with at least one page, the window starts at page 0 and ends at the last page |
| Pagination.CurrentPageShown | src/components/Pagination.tsx:59-97 | a current page that is a real page is always in the window |
| Pagination.EntryControls | src/components/Pagination.tsx:134-154 | one control per window entry, in order: an ellipsis for `-1`, otherwise a page button |
| Pagination.Controls | src/components/Pagination.tsx:120-168 | the previous arrow, then the window's controls, then the next arrow |
| Pagination.Click | src/components/Pagination.tsx:126-163 | a page button goes to its page; an arrow calls its callback only when enabled; an ellipsis does nothing |
| Pagination.EntryButtons | src/components/Pagination.tsx:134-154 | each page button shows its page plus one, leads to a real page, and is highlighted exactly when current; at most one is highlighted |
| Pagination.PageButtons | src/components/Pagination.tsx:144-151 | for the window of `getVisiblePages`, the button labels, targets and highlight are right, and exactly one button is highlighted when the current page is real |
| Pagination.ControlButtons | src/components/Pagination.tsx:120-168 | the same for any window of increasing real pages that holds the current page |
| RowGroup.ExpandRowClick | src/components/row-group/index.tsx:46-51 | the id's entry becomes the negation of its prior value, a missing entry reading as false; every other key keeps its value |
| RowGroup.ExpandRowClickTwice | src/components/row-group/index.tsx:46-51 | two clicks on the same row restore every row's expansion |
| RowGroup.RowActionOutcome | src/components/row-group/index.tsx:74-84 | no action or an empty action list does nothing; an action with an update component toggles the updating row; otherwise an action with a handler calls it with the row id |
| RowGroup.ToggleUpdatingRow | src/components/row-group/index.tsx:80 | the updating row becomes the row, unless it already was, in which case it becomes null |
| RowGroup.ToggleUpdatingTwice | src/components/row-group/index.tsx:80 | toggling the same row twice restores an empty or equal updating row |
| RowGroup.CellBackground | src/components/row-group/index.tsx:86-92 | white when `depth` is truthy and equals the level; otherwise `rowColors[0]` on odd levels and `rowColors[1]` on even ones |
| RowGroup.BackgroundAlternates | src/components/row-group/index.tsx:86-92 | away from the depth, the background repeats every two levels, and adjacent levels differ when the two colours do |
| RowGroup.DefaultBackground | src/components/row-group/index.tsx:33-92 | with the default colours and no depth, even levels are white and odd levels grey |
| RowGroup.VisibleActions | src/components/row-group/index.tsx:302-305 | an action is shown exactly when it has no condition or its condition holds for the row id; shown actions keep their order |
| RowGroup.LevelIndent | src/components/row-group/index.tsx:213-220 | the level cell exists exactly in a multi-level table, and its padding encodes the level as 20 per level plus 10 |
| RowGroup.ActionCellClick | src/components/row-group/index.tsx:301-320 | a hidden action cannot be clicked; an action with its own component calls its handler with the row id when it has one and otherwise does nothing; any other action does what `handleRowActionClick` does |
| RowGroup.ComponentActionSkipsUpdate | src/components/row-group/index.tsx:301-320 | a drawn action with an update component toggles the update form when it is a plain button, and never when it brings its own component |
| RowGroup.GroupFrom | src/components/row-group/index.tsx:130-361 | every drawn row is at the group's level or deeper; in a multi-level table its level cell is indented 20 per level plus 10, and in any other table it has no level cell; it has an action cell only at level 0 when there are actions |
| RowGroup.RowBlock | src/components/row-group/index.tsx:130-360 | a row's block starts with that row at the group's level, and everything after it is deeper; the level cell and its indentation follow `LevelIndent` |
| RowGroup.GroupKeepsRows | src/components/row-group/index.tsx:130 | whatever is expanded or being updated, a group draws each of its rows exactly once at its own level, in order |
| RowGroup.BlockRowsAt | src/components/row-group/index.tsx:201-354 | a row's block draws that row alone at the group's level |
| RowGroup.CollapsedRowAlone | src/components/row-group/index.tsx:339 | a row that is not expanded and not being updated draws no nested group |
| RowGroup.UpdatingRowHidesChildren | src/components/row-group/index.tsx:137-199 | an updating row (with an update action present) draws the row and one update row, and no children |
| RowGroup.ExpandedRowShowsGroup | src/components/row-group/index.tsx:339-354 | an expanded row with a child list is followed directly by the nested group of its children at level + 1 |
| RowGroup.FreshGroupFlat | src/components/row-group/index.tsx:37-353 | a group instance without state of its own draws its rows flat, at its level |
| RowGroup.TopStateOnly | src/components/row-group/index.tsx:37-353 | when only the top group has state, nothing is drawn below level 1, because nested groups do not inherit the parent's expansion record |
| RowGroup.GroupInstance.constructor | src/components/row-group/index.tsx:37-38 | a group starts with an empty expansion record and no updating row |
| RowGroup.GroupInstance.HandleExpandRowClick | src/components/row-group/index.tsx:46-51 | the record changes as `ExpandRowClick` says; the updating row is unchanged |
| RowGroup.GroupInstance.HandleRowActionClick | src/components/row-group/index.tsx:74-84 | toggles the updating row, reports the handler call with the row id, or changes nothing, as `RowActionOutcome` decides; the expansion record is unchanged |
| RowGroup.GroupInstance.CloseUpdate | src/components/row-group/index.tsx:192-194 | the update form's close callback clears the updating row |
| GenericTable.SetAllRowState | src/table/table.tsx:65-72 | every id at every depth maps to the new state; other keys are kept; the copy in `src/components/table/index.tsx` (lines 60-67) behaves the same |
| GenericTable.MetaIndexCovers | src/table/table.tsx:55-58 | every meta column's id has an entry |
| GenericTable.MetaIndexKeysAreIds | src/table/table.tsx:55-58 | every entry's key is some meta column's id |
| GenericTable.MetaIndexLastWins | src/table/table.tsx:55-58 | for a repeated id, the entry is the last column with that id |
| GenericTable.ColumnMetadata | src/table/table.tsx:55-58 | without meta columns the metadata is empty; otherwise the `reduce` builds the index above; the copy in `src/components/table/index.tsx` (lines 49-53) behaves the same |
| GenericTable.RenderCellContent | src/table/table.tsx:117-202 | a non-primitive value shows a dash. A primitive whose format is falsy in a pivot table with a pivot column type shows the pivot format. Otherwise the string `null` shows N/A, and any other primitive shows its format, or the raw value when the format is null or undefined; the copy in `src/components/table/index.tsx` (lines 72-167) behaves the same |
| GenericTable.FalsyFormatShown | src/table/table.tsx:184 | an empty-string format is shown as is, because `??` only falls back on null or undefined |
| GenericTable.Render | src/table/table.tsx:246-386 | empty data draws no table: Loading when loading, otherwise No data. Otherwise the Actions header appears iff there are actions, and every record is drawn once at level 0, in order; the copy in `src/components/table/index.tsx` (lines 227-280) behaves the same |
| GenericTable.Table.constructor | src/table/table.tsx:41-43 | the table starts with an empty record, not all expanded, and no updating row |
| GenericTable.Table.HandleExpandAllRows | src/table/table.tsx:60-75 | `allExpanded` is negated, and the record is replaced by one mapping every id at every depth to the new state; the copy in `src/components/table/index.tsx` (lines 55-70) behaves the same |
| GenericTable.Table.HandleExpandRowClick | src/table/table.tsx:77-82 | flips only the clicked id's entry |
| GenericTable.Table.HandleRowActionClick | src/table/table.tsx:105-115 | the same three outcomes as the row group's handler |
| GenericTable.ExpandAllTwice | src/table/table.tsx:60-75 | expand-all twice restores `allExpanded` and maps every id to it |
| FilterDropdown.HandleOptionChange | src/components/FilterDropdown.tsx:47-56 | the set sent to `onFilterChange` is a fresh copy with the value's membership flipped and every other value unchanged; the incoming set is not mutated |
| FilterDropdown.ValueSet.Copy | src/components/FilterDropdown.tsx:48 | `new Set(selectedValues)` holds the same values |
| FilterDropdown.CheckedBoxes | src/components/FilterDropdown.tsx:91 | an option's box is checked iff its value is selected |
| FilterDropdown.OptionChangeTogglesOneValue | src/components/FilterDropdown.tsx:47-91 | after a change, exactly the changed option's box flips |
| FilterDropdown.SelectAllBoxStates | example/src/components/FilterDropdown.tsx:76-77 | for any selection size and option count, the select-all box is never both checked and indeterminate; it is clear exactly when nothing is selected among some options or more values are selected than there are options |
| FilterDropdown.IsAllSelected | example/src/components/FilterDropdown.tsx:76 | `isAllSelected`: the pending selection has as many values as there are options |
| FilterDropdown.IsIndeterminate | example/src/components/FilterDropdown.tsx:77 | `isIndeterminate`: some values are selected, fewer than there are options |
| FilterDropdown.ShowBadge | example/src/components/FilterDropdown.tsx:124 | the "Selected" badge is drawn when the count is enabled and something is selected |
| FilterDropdown.AllSelectedMeansEveryOption | example/src/components/FilterDropdown.tsx:76 | with distinct option values and a selection drawn from them, the size test holds iff every option is selected |
| FilterDropdown.OptionValuesCount | example/src/components/FilterDropdown.tsx:76 | distinct options have as many values as options |
| FilterDropdown.HandleApply | example/src/components/FilterDropdown.tsx:93-96 | `onApply(temp)` is called iff given, and first; `onClose` is called iff given, and last; nothing else is called |
| FilterDropdown.HandleCancel | example/src/components/FilterDropdown.tsx:98-101 | `onCancel` is called iff given, and first; `onClose` iff given, and last |
| FilterDropdown.HandleResetFilters | example/src/components/FilterDropdown.tsx:103-105 | `onReset` is called iff given, and the dropdown is never closed |
| FilterDropdown.BadgeMatchesSelectAllBox | example/src/components/FilterDropdown.tsx:76-124 | with the count enabled and a selection no larger than a non-empty option list, the badge shows exactly when the select-all box is checked or indeterminate; with no options and nothing selected (the default) the box is checked and no badge shows; a selection larger than the options shows the badge beside a clear box; with the count disabled, never |
| FilterDropdown.HighlightedCategories | example/src/components/FilterDropdown.tsx:166 | a category is highlighted iff its key is the selected category |
| FilterDropdown.AtMostOneHighlighted | example/src/components/FilterDropdown.tsx:166 | with distinct keys, at most one category is highlighted, and none without a selection |
| ButtonGroup.ToggleDropdownCalls | src/components/ButtonGroup.tsx:25-31 | with a handler, exactly one call asking for the negation of the current open state; without one, no call |
| ButtonGroup.CloseDropdownCalls | src/components/ButtonGroup.tsx:33-36 | `onDropdownClose(id)` is called iff provided |
| ButtonGroup.ButtonClickCalls | src/components/ButtonGroup.tsx:38-48 | `onButtonClick` takes precedence; without it a dropdown button toggles and another button runs its own `onClick` when it has one; at most one call |
| ButtonGroup.ShownDropdowns | src/components/ButtonGroup.tsx:50-51 | a button's dropdown is drawn iff it has one and its id is open |
| ButtonGroup.NoDropdownByDefault | src/components/ButtonGroup.tsx:21-51 | with the default empty open set no dropdown is drawn |
| ButtonGroup.ToggleFlipsDropdown | src/components/ButtonGroup.tsx:25-44 | applying the toggle call through the host's handler flips exactly the clicked button's dropdown |
| ButtonGroup.CloseHidesDropdown | src/components/ButtonGroup.tsx:33-51 | a drawn dropdown, once closed through the host, is no longer drawn |
| TableRow.RowClassMembership | src/components/TableRow.tsx:48-56 | the base class is always present, the expanded class iff expanded, and the main class at level 0 or the nested class otherwise |
| TableRow.GetRowClassName | src/components/TableRow.tsx:48-56 | the pushes and join give the space-joined class list; the copy in `src/components/TableRow/TableRow.tsx` (lines 38-44) behaves the same |
| TableRow.CollapsedClassName | src/components/TableRow.tsx:48-56 | a collapsed row's class attribute is `table-row` followed by the level class |
| TableRow.ExpandedClassName | src/components/TableRow.tsx:48-56 | an expanded row's class attribute is `table-row table-row-expanded` followed by the level class |
| TableRow.RowBackground | src/components/TableRow.tsx:58-63 | the main colour at level 0 whatever the expansion; below it, the expanded colour when expanded and the nested colour otherwise |
| TableRow.PaddingGrowsWithLevel | src/components/TableRow.tsx:76-121 | padding grows strictly with depth, every nested row is indented at least 48 px, and top rows at most 12 px; the copy in `src/components/TableRow/TableRow.tsx` (lines 55-85) behaves the same |
| TableRow.CellText | src/components/TableRow.tsx:93-95 | `render(value, item)` when the column has a render function, otherwise `String(value)`; the copy in `src/components/TableRow/TableRow.tsx` (lines 59-61) behaves the same |
| TableRow.CellTextMatchesReference | src/components/TableRow.tsx:93-95 | a row's cell text agrees with the plain table's cell for the same column and record |
| TableRow.RenderCells | src/components/TableRow.tsx:66-126 | one cell per column for a record, or one per library cell. Every cell has the level's padding. The themed row draws the expand control only in the first cell and only with children; in the plain row of `src/components/TableRow/TableRow.tsx` (lines 47-89) the icon is drawn in every cell when the row has children |
| TableRow.IconPlacement | src/components/TableRow.tsx:82-118 | the themed row draws exactly one expand control when it has children and some cell, and none otherwise; the plain row of `src/components/TableRow/TableRow.tsx` (lines 58-83) draws one icon per cell when it has children |
| TableRow.ToggleCalls | src/components/TableRow.tsx:82-88 | in the themed row, only a click on the first cell's control of a record with children calls `onToggle`, once; in the plain row of `src/components/TableRow/TableRow.tsx` (lines 50-76) any click on the row calls `onToggle` once, children or not |
| TableRow.ThemedToggleNeedsControl | src/components/TableRow.tsx:82-92 | a themed record row toggles only through a control it actually draws |
| TableHeader.Caption | src/components/TableHeader.tsx:87 | the title when it is non-empty, otherwise the id |
| TableHeader.Indicator | src/components/TableHeader.tsx:89-93 | a blank when unsorted; when sorted, the descending or ascending icon, or ↓ / ↑ when that icon is falsy |
| TableHeader.HeaderCellFor | src/components/TableHeader.tsx:71-101 | the sort toggle is attached iff the table is sortable and the column does not disable sorting. The filter input is drawn iff the column has a filter, showing the filter value or "", with placeholder `Filter <caption>...` |
| TableHeader.HeaderRow | src/components/TableHeader.tsx:69-70 | one header cell per column, in order |
| TableHeader.UnsortableByDefault | src/components/TableHeader.tsx:57-74 | with the default `sortable = false` no column toggles sorting |
| TableHeader.DefaultIndicatorsDiffer | src/components/TableHeader.tsx:89-93 | without custom icons the three sort states show three different indicators |
| TableHeader.CaptionNonEmpty | src/components/TableHeader.tsx:87 | a column with a non-empty id always has a non-empty caption |
| ExpandIcon.IconFor | src/components/icons/ExpandIcon.tsx:27-49 | the icon is hidden iff in sort mode without a direction. Expand mode turns 90° when expanded, else 0°. Sort mode turns -90° for ascending and 90° for descending. The margin is 4 px in sort mode, else 8 px. The opacity is 1 in sort mode with a direction, else 0.5 |
| ExpandIcon.ExpandIconTurns | src/components/icons/ExpandIcon.tsx:31-33 | in expand mode the icon is always drawn and expanding turns it a quarter turn; the two sort directions point opposite ways |
| ExpandIcon.SortModeIgnoresExpansion | src/components/icons/ExpandIcon.tsx:29-33 | in sort mode, expansion has no effect on the icon |
| SidePanel.FormFor | src/components/SidePanel.tsx:50-58 | the form gets exactly the record's name, dateTime and orchestration; the copy in `example/src/components/SidePanel.tsx` (lines 47-55) behaves the same |
| SidePanel.HasChangesMeaning | src/components/SidePanel.tsx:61-69 | false without a record; otherwise true iff some tracked field differs from the record; the copy in `example/src/components/SidePanel.tsx` (lines 58-66) behaves the same |
| SidePanel.HasChanges | src/components/SidePanel.tsx:61-69 | `hasChanges`: a record is present and its name, date-time or orchestration differs from the form's |
| SidePanel.FreshFormUnchanged | src/components/SidePanel.tsx:50-69 | right after a record arrives, there are no changes |
| SidePanel.SingleEdit | src/components/SidePanel.tsx:64-78 | from an unchanged form, one edit makes a change iff the field is tracked and the value differs |
| SidePanel.UntrackedEditIgnored | src/components/SidePanel.tsx:64-68 | edits of untracked fields, such as the status, never change `hasChanges` |
| SidePanel.View | src/components/SidePanel.tsx:71-235 | nothing is drawn unless open with a record; Save is disabled iff there are no changes; the copy in `example/src/components/SidePanel.tsx` (lines 68-232) behaves the same |
| SidePanel.Panel.constructor | src/components/SidePanel.tsx:33 | the form starts empty |
| SidePanel.Panel.SyncItem | src/components/SidePanel.tsx:50-58 | a record replaces the form by its three fields; no record leaves the form as it was |
| SidePanel.Panel.HandleInputChange | src/components/SidePanel.tsx:73-78 | sets only the named field and keeps every other field; the copy in `example/src/components/SidePanel.tsx` (lines 70-75) behaves the same |
| SidePanel.EditAndRevert | src/components/SidePanel.tsx:50-235 | a record arrives, a tracked field is edited away and then back: Save goes from disabled to enabled and back to disabled |

## Left out

- React-table internals are not modelled: sorting, column filters, pagination state and
  `prepareRow` come from the library. The expandable table takes its current `page` as
  a parameter (any sequence of top-level records).
- Search, category filtering and CSV export are not part of this model. Their sources,
  and those of `checkCellValueType`, `getCellValueAlignment`, `isAllRowsExpanded` and
  `PAGE_SIZE_OPTIONS`, are not among the files modelled.
- `checkCellValueType` is a parameter of `GenericTable.RenderCellContent`, as an
  arbitrary function of the column type and the value. Cell alignment and currency
  styling are presentation.
- The `useEffect` that recomputes `allExpanded` from `isAllRowsExpanded(data,
  expandedRows)` is not modelled, because that function's source is not among the
  files. `GenericTable.Table` keeps `allExpanded` as the last value the handlers set.
- Asynchronous child loading (`handleExpandDynamicChildrenRowClick`, `getChildren`) and
  the dynamic rows it draws are left out: they await an external call.
- Icon conditions evaluated with `new Function`, and icons loaded with `require`, are
  not modelled (dynamic code and asset loading). The icon loop in `renderCellContent`
  only decides the left and right icons, which the model does not draw.
- DOM side effects are not modelled: outside-click and Escape listeners, body class
  toggling, `alert`, `console.log`, `stopPropagation` (except as the themed row's "one
  toggle per click"), and React keys drawn with `Math.random`.
- Presentation-only code is not modelled: styles, themes, buttons, popups, the cell
  components (`TableCell`), the emoji header variant, and the plain table's
  `marginLeft` style. The `TableRow` library branch is modelled by its cell count; the
  content of its cells comes from the cell component.
- JavaScript numbers are modelled as unbounded integers. No fractional ids or field
  values are modelled.
- JavaScript records and `Record<string, boolean>` coerce keys to strings, so
  `NumId(1)` and `StrId("1")` would share an entry. The model keeps them as distinct
  keys.
- Unique ids are a precondition of `ExpandableTable.RowsMapAgrees` and of the
  select-all lemmas. The source does not ensure unique ids, and its sample data reuses
  one id.
- ExpandableTable.NestedRows, ExpandableTable.ChildRows, ExpandableTable.PageRows and
  ExpandableTable.MultiLevelTable.Body require the index to agree with the records they
  draw. Distinct ids give that (`ExpandableTable.PageOfDistinctData`). Data whose
  duplicate ids list each other as children is outside the model: for
  `[{id: 1, children: [{id: 2}]}, {id: 2, children: [{id: 1}]}]` with rows 1 and 2
  expanded, `renderNestedRows` recurses 1, 2, 1, … without end
  (`ExpandableTable.CyclicIdsLoop` shows the looping index).
- The `childrenKey` prop of both multi-level tables is not a parameter: the child list
  found under that key is `Tree.Node.children`, whatever the key is called.
- TableHeader.HeaderRow models one header group; the `headerGroups.map` over several
  groups repeats it once per group. The filter input's `setFilter` call on change is
  not modelled.
- `handleSaveChanges` of the side panels, the row-details popup, and the
  `onCategoryChange`, `onSelectAll` and `onOptionChange` pass-throughs of the example
  filter dropdown are not modelled: they only call the caller's callbacks or show an
  alert.
- The search and filter pass-throughs of `App.tsx` (`handleSearchChange`,
  `handleFilterChange`) only store the value they receive and are not modelled.
- `ExpandIcon.IconFor`: the sort-mode rotation of 0° (sort mode without a direction)
  is unreachable, because that icon is hidden; the model does not state its rotation.
- `RowGroup.RowBlock`: the row's own background (`#2F736E` for the total row, otherwise
  `#F0F0F1`) is kept only as the `isTotal` flag. The `onViewRow` click is not modelled.
- `GenericTable.Render`: the expansion record of `GenericTable.Table` is never passed to
  the row groups, which keep their own state. So the view takes the group states as a
  parameter, and "expand all" has no effect on what is drawn.


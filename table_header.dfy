/** The header of the multi-level table (src/components/TableHeader.tsx): per column, whether
    it toggles sorting, its caption, its sort indicator and its filter input. */
module TableHeader {
  import opened Common

  /** A header column as the table library hands it over: its id, optional title, the
      `disableSortBy` flag, its sort state, whether it has a `Filter` component and its
      current filter value. */
  datatype HeaderColumn = HeaderColumn(
    id: string,
    title: Option<string>,
    disableSortBy: bool,
    isSorted: bool,
    isSortedDesc: bool,
    hasFilter: bool,
    filterValue: Option<string>)

  /** The filter input of a column: its value and placeholder. */
  datatype FilterInput = FilterInput(value: string, placeholder: string)

  /** A drawn header cell. */
  datatype HeaderCell = HeaderCell(sortToggle: bool, caption: string, indicator: Value, filter: Option<FilterInput>)

  /** `sortable && !column.disableSortBy`: only then are the sort-toggle props attached. */
  predicate IsColumnSortable(sortable: bool, column: HeaderColumn)
  {
    sortable && !column.disableSortBy
  }

  /** `column.title || column.id`. */
  function Caption(column: HeaderColumn): (r: string)
    ensures column.title.Some? && column.title.value != "" ==> r == column.title.value
    ensures !(column.title.Some? && column.title.value != "") ==> r == column.id
  {
    if column.title.Some? && column.title.value != "" then column.title.value else column.id
  }

  /** The sort indicator: a blank when unsorted; when sorted, the descending or ascending
      icon, falling back to a down or up arrow when that icon is falsy. */
  function Indicator(column: HeaderColumn, ascendingIcon: Value, descendingIcon: Value): (r: Value)
    ensures !column.isSorted ==> r == Str(" ")
    ensures column.isSorted && column.isSortedDesc ==> r == (if Truthy(descendingIcon) then descendingIcon else Str("↓"))
    ensures column.isSorted && !column.isSortedDesc ==> r == (if Truthy(ascendingIcon) then ascendingIcon else Str("↑"))
  {
    if column.isSorted then
      if column.isSortedDesc then (if Truthy(descendingIcon) then descendingIcon else Str("↓"))
      else (if Truthy(ascendingIcon) then ascendingIcon else Str("↑"))
    else Str(" ")
  }

  /** One header cell. The filter input, present only for columns with a `Filter`, shows
      the filter value or the empty string. */
  function HeaderCellFor(column: HeaderColumn, sortable: bool, ascendingIcon: Value, descendingIcon: Value): (r: HeaderCell)
    ensures r.sortToggle <==> IsColumnSortable(sortable, column)
    ensures r.caption == Caption(column) && r.indicator == Indicator(column, ascendingIcon, descendingIcon)
    ensures r.filter.Some? <==> column.hasFilter
    ensures r.filter.Some? ==> r.filter.value.value == (if column.filterValue.Some? then column.filterValue.value else "")
    ensures r.filter.Some? ==> r.filter.value.placeholder == "Filter " + Caption(column) + "..."
  {
    HeaderCell(
      IsColumnSortable(sortable, column),
      Caption(column),
      Indicator(column, ascendingIcon, descendingIcon),
      if column.hasFilter then
        Some(FilterInput(if column.filterValue.Some? then column.filterValue.value else "", "Filter " + Caption(column) + "..."))
      else None)
  }

  /** The header row: one cell per column, in order. */
  function HeaderRow(columns: seq<HeaderColumn>, sortable: bool, ascendingIcon: Value, descendingIcon: Value): (r: seq<HeaderCell>)
    ensures |r| == |columns|
    ensures forall i :: 0 <= i < |r| ==> r[i] == HeaderCellFor(columns[i], sortable, ascendingIcon, descendingIcon)
  {
    if columns == [] then []
    else [HeaderCellFor(columns[0], sortable, ascendingIcon, descendingIcon)] + HeaderRow(columns[1..], sortable, ascendingIcon, descendingIcon)
  }

  /** With the default `sortable = false` no column toggles sorting, whatever its own flag. */
  lemma UnsortableByDefault(columns: seq<HeaderColumn>, ascendingIcon: Value, descendingIcon: Value)
    ensures forall i :: 0 <= i < |columns| ==> !HeaderRow(columns, false, ascendingIcon, descendingIcon)[i].sortToggle
  {
  }

  /** Without custom icons the three sort states have three different indicators. */
  lemma DefaultIndicatorsDiffer(column: HeaderColumn)
    ensures column.isSorted && column.isSortedDesc ==> Indicator(column, Undefined, Undefined) == Str("↓")
    ensures column.isSorted && !column.isSortedDesc ==> Indicator(column, Undefined, Undefined) == Str("↑")
    ensures Str("↓") != Str("↑") && Str("↓") != Str(" ") && Str("↑") != Str(" ")
  {
  }

  /** A column with a non-empty id always has a non-empty caption. */
  lemma CaptionNonEmpty(column: HeaderColumn)
    requires column.id != ""
    ensures Caption(column) != ""
  {
  }
}

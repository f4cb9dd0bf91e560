/** One row of the multi-level table, in its two variants: the themed row of
    src/components/TableRow.tsx and the plain row of src/components/TableRow/TableRow.tsx.
    A row is either a record drawn from the column list or a row of the table library,
    whose cells the library supplies. */
module TableRow {
  import opened Common
  import opened Tree
  import opened ReferenceTable

  /** The two variants of the component. */
  datatype Variant =
    | Themed   // src/components/TableRow.tsx
    | Plain    // src/components/TableRow/TableRow.tsx

  /** The `row` prop: a record without `getRowProps`, or a table-library row, given here by
      the number of cells it carries (their content is drawn by the cell component). */
  datatype RowInput = DataItem(item: Node) | LibraryRow(cellCount: nat)

  /** Space-separated class names, as `classes.join(' ')`. */
  function Join(words: seq<string>): string
  {
    if |words| == 0 then ""
    else if |words| == 1 then words[0]
    else words[0] + " " + Join(words[1..])
  }

  /** The class list of a row: `table-row`, then `table-row-expanded` when expanded, then
      `table-row-main` at level 0 or `table-row-nested` otherwise. */
  function RowClasses(isExpanded: bool, level: int): seq<string>
  {
    ["table-row"] + (if isExpanded then ["table-row-expanded"] else [])
      + [if level == 0 then "table-row-main" else "table-row-nested"]
  }

  /** A row always has the base class, has the expanded class exactly when expanded, and
      has exactly one of the main and nested classes, by level. */
  lemma RowClassMembership(isExpanded: bool, level: int)
    ensures "table-row" in RowClasses(isExpanded, level)
    ensures "table-row-expanded" in RowClasses(isExpanded, level) <==> isExpanded
    ensures "table-row-main" in RowClasses(isExpanded, level) <==> level == 0
    ensures "table-row-nested" in RowClasses(isExpanded, level) <==> level != 0
  {
    var r := RowClasses(isExpanded, level);
    assert r[0] == "table-row";
  }

  /** `getRowClassName`: pushes the classes one by one and joins them. */
  method GetRowClassName(isExpanded: bool, level: int) returns (className: string)
    ensures className == Join(RowClasses(isExpanded, level))
  {
    var classes := ["table-row"];
    if isExpanded {
      classes := classes + ["table-row-expanded"];
    }
    if level == 0 {
      classes := classes + ["table-row-main"];
    } else {
      classes := classes + ["table-row-nested"];
    }
    className := Join(classes);
  }

  /** The class attribute of a collapsed row: `table-row` and the level class. */
  lemma CollapsedClassName(level: int)
    ensures Join(RowClasses(false, level)) == "table-row " + (if level == 0 then "table-row-main" else "table-row-nested")
  {
    var main := if level == 0 then "table-row-main" else "table-row-nested";
    assert RowClasses(false, level) == ["table-row", main];
    JoinTwo("table-row", main);
  }

  /** The class attribute of an expanded row: `table-row table-row-expanded` and the
      level class. */
  lemma ExpandedClassName(level: int)
    ensures Join(RowClasses(true, level)) == "table-row table-row-expanded " + (if level == 0 then "table-row-main" else "table-row-nested")
  {
    var main := if level == 0 then "table-row-main" else "table-row-nested";
    assert RowClasses(true, level) == ["table-row", "table-row-expanded", main];
    JoinThree("table-row", "table-row-expanded", main);
  }

  lemma JoinTwo(a: string, b: string)
    ensures Join([a, b]) == a + " " + b
  {
    assert [a, b][1..] == [b];
  }

  lemma JoinThree(a: string, b: string, c: string)
    ensures Join([a, b, c]) == a + " " + b + " " + c
  {
    assert [a, b, c][1..] == [b, c];
    JoinTwo(b, c);
  }

  /** The theme's row colours. */
  datatype RowTheme = RowTheme(mainBackground: Option<string>, expandedBackground: Option<string>, nestedBackground: Option<string>)

  /** `getRowStyle` of the themed row: the main colour at level 0, whatever the expansion;
      below it, the expanded colour when expanded and the nested colour otherwise. */
  function RowBackground(theme: RowTheme, level: int, isExpanded: bool): (r: Option<string>)
    ensures level == 0 ==> r == theme.mainBackground
    ensures level != 0 ==> r == (if isExpanded then theme.expandedBackground else theme.nestedBackground)
  {
    if level == 0 then theme.mainBackground
    else if isExpanded then theme.expandedBackground
    else theme.nestedBackground
  }

  /** Left padding of every cell of a row, in pixels: 32 + 16 per level below the top,
      and at the top 12 for a record and 0 for a table-library row. */
  function CellPadding(level: int, libraryRow: bool): int
  {
    if level > 0 then 32 + level * 16 else if libraryRow then 0 else 12
  }

  /** Indentation grows strictly with depth, and every nested row is indented further than
      any top-level row. */
  lemma PaddingGrowsWithLevel(level: nat, libraryRow: bool)
    ensures CellPadding(level + 1, libraryRow) > CellPadding(level, libraryRow)
    ensures CellPadding(level + 1, libraryRow) >= 48
    ensures CellPadding(0, libraryRow) <= 12
  {
  }

  /** The text of a record's cell: the column's render function applied to the field and
      the record, or `String(value)` without one. */
  function CellText(column: Column, item: Node): (r: string)
    ensures column.render.Some? ==> r == column.render.value(Field(item, column.key), item)
    ensures column.render.None? ==> r == JsString(Field(item, column.key))
  {
    match column.render
    case Some(render) => render(Field(item, column.key), item)
    case None => JsString(Field(item, column.key))
  }

  /** The row's cell text agrees with the reference table's cell: the rendered text, or
      the raw value converted with `String`. */
  lemma CellTextMatchesReference(column: Column, item: Node)
    ensures CellText(column, item) == (match CellFor(column, item) case Rendered(t) => t case Raw(v) => JsString(v))
  {
  }

  /** What one drawn cell carries: its left padding, whether it has the nested-cell class,
      whether it shows the expand icon, and (for a record) its text. */
  datatype CellView = CellView(padding: int, nestedClass: bool, expandIcon: bool, text: Option<string>)

  /** The cells of a row: one per column for a record, one per library cell otherwise. The
      themed row puts the expand control in the first cell only; the plain row puts the
      icon in every cell. */
  function RenderCells(variant: Variant, row: RowInput, columns: seq<Column>, hasChildren: bool, level: int): (r: seq<CellView>)
    ensures |r| == (if row.DataItem? then |columns| else row.cellCount)
    ensures forall i :: 0 <= i < |r| ==> r[i].padding == CellPadding(level, row.LibraryRow?)
    ensures forall i :: 0 <= i < |r| ==> (r[i].expandIcon <==> hasChildren && (variant == Themed ==> i == 0))
    ensures forall i :: 0 <= i < |r| ==> r[i].text == (if row.DataItem? then Some(CellText(columns[i], row.item)) else None)
  {
    var n := if row.DataItem? then |columns| else row.cellCount;
    seq(n, i requires 0 <= i < n =>
      CellView(CellPadding(level, row.LibraryRow?), row.DataItem? && level > 0,
               hasChildren && (variant == Themed ==> i == 0),
               if row.DataItem? then Some(CellText(columns[i], row.item)) else None))
  }

  function IconCount(cells: seq<CellView>): (r: nat)
    ensures r <= |cells|
  {
    if cells == [] then 0 else (if cells[0].expandIcon then 1 else 0) + IconCount(cells[1..])
  }

  /** The themed row draws at most one expand control, and exactly one when the row has
      children and at least one cell; the plain row draws one in every cell. */
  lemma {:induction false} IconPlacement(variant: Variant, row: RowInput, columns: seq<Column>, hasChildren: bool, level: int)
    ensures var cells := RenderCells(variant, row, columns, hasChildren, level);
      variant == Themed ==> IconCount(cells) == (if hasChildren && |cells| > 0 then 1 else 0)
    ensures var cells := RenderCells(variant, row, columns, hasChildren, level);
      variant == Plain ==> IconCount(cells) == (if hasChildren then |cells| else 0)
  {
    var cells := RenderCells(variant, row, columns, hasChildren, level);
    if variant == Themed && |cells| > 0 {
      NoIcons(cells[1..]);
    } else if variant == Plain && hasChildren {
      AllIcons(cells);
    } else {
      NoIcons(cells);
    }
  }

  lemma {:induction false} NoIcons(cells: seq<CellView>)
    requires forall i :: 0 <= i < |cells| ==> !cells[i].expandIcon
    ensures IconCount(cells) == 0
  {
    if cells != [] {
      NoIcons(cells[1..]);
    }
  }

  lemma {:induction false} AllIcons(cells: seq<CellView>)
    requires forall i :: 0 <= i < |cells| ==> cells[i].expandIcon
    ensures IconCount(cells) == |cells|
  {
    if cells != [] {
      AllIcons(cells[1..]);
    }
  }

  /** Where a click lands: on the expand control of a cell, or elsewhere in the row. */
  datatype Click = OnExpandControl(cell: nat) | OnRowArea

  /** How many times a click calls `onToggle`. In the themed row only the control of the
      first cell of a record with children toggles (and stops the click there); in the
      plain row every click on the row toggles, children or not. */
  function ToggleCalls(variant: Variant, row: RowInput, hasChildren: bool, click: Click): (r: nat)
    ensures r <= 1
    ensures variant == Plain ==> r == 1
    ensures variant == Themed ==> (r == 1 <==> row.DataItem? && hasChildren && click == OnExpandControl(0))
  {
    match variant
    case Plain => 1
    case Themed => if row.DataItem? && hasChildren && click == OnExpandControl(0) then 1 else 0
  }

  /** A themed record row toggles only through a control it actually draws. */
  lemma ThemedToggleNeedsControl(row: RowInput, columns: seq<Column>, hasChildren: bool, level: int, click: Click)
    requires row.DataItem? && |columns| > 0
    requires ToggleCalls(Themed, row, hasChildren, click) == 1
    ensures click.OnExpandControl? && RenderCells(Themed, row, columns, hasChildren, level)[click.cell].expandIcon
  {
  }
}

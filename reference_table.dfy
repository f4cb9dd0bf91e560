/** The plain multi-level table (src/components/MultiLevelTable.tsx): every record is
    drawn, followed by all of its children, with no expansion state at all. It is the
    fully expanded reference the expandable table is compared with. */
module ReferenceTable {
  import opened Common
  import opened Tree

  /** A column declaration: the field it shows, its header and an optional render function. */
  datatype Column = Column(key: string, title: string, render: Option<(Value, Node) -> string>)

  /** A cell holds the render function's output, or the raw field value when there is none. */
  datatype Cell = Rendered(text: string) | Raw(value: Value)

  datatype RefRow = RefRow(node: Node, level: nat, cells: seq<Cell>)

  function CellFor(column: Column, item: Node): Cell
  {
    match column.render
    case Some(render) => Rendered(render(Field(item, column.key), item))
    case None => Raw(Field(item, column.key))
  }

  /** One cell per column, in column order. */
  function Cells(columns: seq<Column>, item: Node): (r: seq<Cell>)
    ensures |r| == |columns|
    ensures forall i :: 0 <= i < |r| ==> r[i] == CellFor(columns[i], item)
  {
    if columns == [] then [] else [CellFor(columns[0], item)] + Cells(columns[1..], item)
  }

  /** `renderRow(item, level)`: the record's row, then its children one level deeper. */
  function RenderRow(columns: seq<Column>, item: Node, level: nat): (r: seq<RefRow>)
    ensures |r| >= 1 && r[0].node == item && r[0].level == level
    ensures forall i :: 0 <= i < |r| ==> r[i].level >= level && r[i].cells == Cells(columns, r[i].node)
    ensures forall i :: 1 <= i < |r| ==> r[i].level > level
    decreases item, 1
  {
    [RefRow(item, level, Cells(columns, item))]
      + (match item.children
         case Absent => []
         case Present(items) => RenderForest(columns, items, level + 1))
  }

  function RenderForest(columns: seq<Column>, ns: seq<Node>, level: nat): (r: seq<RefRow>)
    ensures forall i :: 0 <= i < |r| ==> r[i].level >= level && r[i].cells == Cells(columns, r[i].node)
    ensures ns == [] <==> r == []
    decreases ns, 0
  {
    if ns == [] then [] else RenderRow(columns, ns[0], level) + RenderForest(columns, ns[1..], level)
  }

  /** The table body: every top-level record at level 0. */
  function RenderTable(columns: seq<Column>, data: seq<Node>): seq<RefRow>
  {
    RenderForest(columns, data, 0)
  }

  function NodeCount(n: Node): nat
    decreases n, 1
  {
    1 + (match n.children case Absent => 0 case Present(items) => ForestCount(items))
  }

  function ForestCount(ns: seq<Node>): nat
    decreases ns, 0
  {
    if ns == [] then 0 else NodeCount(ns[0]) + ForestCount(ns[1..])
  }

  /** The table has exactly one row per record of the forest. */
  lemma {:induction false} RenderLength(columns: seq<Column>, ns: seq<Node>, level: nat)
    ensures |RenderForest(columns, ns, level)| == ForestCount(ns)
    decreases ns, 0
  {
    if ns != [] {
      RowLength(columns, ns[0], level);
      RenderLength(columns, ns[1..], level);
    }
  }

  lemma {:induction false} RowLength(columns: seq<Column>, n: Node, level: nat)
    ensures |RenderRow(columns, n, level)| == NodeCount(n)
    decreases n, 1
  {
    if n.children.Present? {
      RenderLength(columns, n.children.items, level + 1);
    }
  }

  /** The records a row sequence shows at exactly `level`, in order. */
  function NodesAt(rows: seq<RefRow>, level: nat): seq<Node>
  {
    if rows == [] then []
    else (if rows[0].level == level then [rows[0].node] else []) + NodesAt(rows[1..], level)
  }

  lemma {:induction false} NodesAtAppend(a: seq<RefRow>, b: seq<RefRow>, level: nat)
    ensures NodesAt(a + b, level) == NodesAt(a, level) + NodesAt(b, level)
  {
    if a != [] {
      assert (a + b)[0] == a[0];
      assert (a + b)[1..] == a[1..] + b;
      NodesAtAppend(a[1..], b, level);
    } else {
      assert a + b == b;
    }
  }

  lemma {:induction false} NodesAtDeeper(rows: seq<RefRow>, level: nat)
    requires forall i :: 0 <= i < |rows| ==> rows[i].level > level
    ensures NodesAt(rows, level) == []
  {
    if rows != [] {
      NodesAtDeeper(rows[1..], level);
    }
  }

  /** The rows drawn at the starting level are exactly the given records, in their order;
      everything else (their descendants) is drawn deeper. */
  lemma {:induction false} TopRowsAreTheForest(columns: seq<Column>, ns: seq<Node>, level: nat)
    ensures NodesAt(RenderForest(columns, ns, level), level) == ns
    decreases ns
  {
    if ns != [] {
      var head := RenderRow(columns, ns[0], level);
      NodesAtAppend(head, RenderForest(columns, ns[1..], level), level);
      assert head == [head[0]] + head[1..];
      NodesAtAppend([head[0]], head[1..], level);
      NodesAtDeeper(head[1..], level);
      TopRowsAreTheForest(columns, ns[1..], level);
      assert ns == [ns[0]] + ns[1..];
    }
  }

  /** The (record, level) outline of a row sequence. */
  function Outline(rows: seq<RefRow>): (o: seq<(Node, nat)>)
    ensures |o| == |rows|
  {
    if rows == [] then [] else [(rows[0].node, rows[0].level)] + Outline(rows[1..])
  }

  lemma {:induction false} OutlineAppend(a: seq<RefRow>, b: seq<RefRow>)
    ensures Outline(a + b) == Outline(a) + Outline(b)
  {
    if a != [] {
      assert (a + b)[0] == a[0];
      assert (a + b)[1..] == a[1..] + b;
      OutlineAppend(a[1..], b);
    } else {
      assert a + b == b;
    }
  }
}

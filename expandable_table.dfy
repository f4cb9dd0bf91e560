/** The expandable multi-level table (src/components/MultiLevelTable/MultiLevelTable.tsx):
    a lookup table from parent id to child list is built once from the data, a set of
    expanded ids is kept as state, and below each top-level row of the current page the
    children of every expanded row are drawn, recursively. */
module ExpandableTable {
  import opened Common
  import opened Tree
  import ReferenceTable

  /** `rowsMap`: parent id to its (non-empty) child list. */
  type Index = map<Id, seq<Node>>

  /** The entries `processItem(n)` adds: nothing when `n` has no children, otherwise
      `n.id` mapped to its children, then the entries of the children in order (a later
      `map.set` on the same id overrides an earlier one). */
  function IndexNode(n: Node): Index
    decreases n, 1
  {
    match n.children
    case Absent => map[]
    case Present(items) => if |items| > 0 then map[n.id := items] + IndexForest(items) else map[]
  }

  function IndexForest(ns: seq<Node>): Index
    decreases ns, 0
  {
    if ns == [] then map[] else IndexNode(ns[0]) + IndexForest(ns[1..])
  }

  /** The lookup table for the whole data set. */
  function RowsMap(data: seq<Node>): Index
  {
    IndexForest(data)
  }

  lemma {:induction false} IndexForestSnoc(ns: seq<Node>, n: Node)
    ensures IndexForest(ns + [n]) == IndexForest(ns) + IndexNode(n)
  {
    if ns == [] {
      assert ns + [n] == [n];
      assert [n][1..] == [];
    } else {
      assert (ns + [n])[0] == ns[0];
      assert (ns + [n])[1..] == ns[1..] + [n];
      IndexForestSnoc(ns[1..], n);
      UnionAssoc(IndexNode(ns[0]), IndexForest(ns[1..]), IndexNode(n));
    }
  }

  lemma UnionAssoc(a: Index, b: Index, c: Index)
    ensures (a + b) + c == a + (b + c)
  {
  }

  /** `processItem`: adds the entries of `item` and its descendants to the map. */
  method ProcessItem(item: Node, m0: Index) returns (m: Index)
    ensures m == m0 + IndexNode(item)
    decreases item
  {
    m := m0;
    if item.children.Present? && |item.children.items| > 0 {
      var kids := item.children.items;
      m := m[item.id := kids];
      var i := 0;
      while i < |kids|
        invariant 0 <= i <= |kids|
        invariant m == m0 + map[item.id := kids] + IndexForest(kids[..i])
      {
        assert kids[i] < item;
        m := ProcessItem(kids[i], m);
        IndexForestSnoc(kids[..i], kids[i]);
        UnionAssoc(m0 + map[item.id := kids], IndexForest(kids[..i]), IndexNode(kids[i]));
        assert kids[..i + 1] == kids[..i] + [kids[i]];
        i := i + 1;
      }
      assert kids[..i] == kids;
      UnionAssoc(m0, map[item.id := kids], IndexForest(kids));
    }
  }

  /** The memoised `rowsMap`: every top-level record processed in order. */
  method BuildRowsMap(data: seq<Node>) returns (rowsMap: Index)
    ensures rowsMap == RowsMap(data)
  {
    rowsMap := map[];
    var i := 0;
    while i < |data|
      invariant 0 <= i <= |data|
      invariant rowsMap == IndexForest(data[..i])
    {
      rowsMap := ProcessItem(data[i], rowsMap);
      IndexForestSnoc(data[..i], data[i]);
      assert data[..i + 1] == data[..i] + [data[i]];
      i := i + 1;
    }
    assert data[..i] == data;
  }

  /** The table's answer for one record agrees with the record itself: it has an entry
      exactly when the record has a non-empty child list, and the entry is that list. */
  ghost predicate LocalAgree(index: Index, n: Node)
  {
    && (n.id in index <==> |Kids(n)| > 0)
    && (n.id in index ==> index[n.id] == Kids(n))
  }

  ghost predicate Agrees(index: Index, ns: seq<Node>)
  {
    forall m :: m in SubtreeForest(ns) ==> LocalAgree(index, m)
  }

  lemma SingleForest(n: Node)
    ensures SubtreeForest([n]) == Subtree(n)
  {
    assert [n][1..] == [];
  }

  lemma {:induction false} IndexNodeKeys(n: Node)
    ensures IndexNode(n).Keys <= Ids([n])
    decreases n, 1
  {
    SingleForest(n);
    if n.children.Present? && |n.children.items| > 0 {
      IndexForestKeys(n.children.items);
    }
  }

  lemma {:induction false} IndexForestKeys(ns: seq<Node>)
    ensures IndexForest(ns).Keys <= Ids(ns)
    decreases ns, 0
  {
    if ns != [] {
      IndexNodeKeys(ns[0]);
      IndexForestKeys(ns[1..]);
      SingleForest(ns[0]);
    }
  }

  /** Ids of the tail of a forest with distinct ids miss the ids of its head. */
  lemma HeadTailDisjoint(ns: seq<Node>)
    requires ns != [] && DistinctIds(ns)
    ensures Ids([ns[0]]) !! Ids(ns[1..])
    ensures DistinctIds(ns[1..])
  {
    forall x | x in Ids(ns[1..])
      ensures x !in Ids([ns[0]])
    {
      var m :| m in SubtreeForest(ns[1..]) && m.id == x;
      ForestMembers(ns[1..], m);
      var j :| 0 <= j < |ns[1..]| && m in Subtree(ns[1..][j]);
      SingleForest(ns[j + 1]);
      assert x in Ids([ns[j + 1]]);
    }
  }

  lemma {:induction false} IndexNodeAgrees(n: Node)
    requires DistinctNode(n)
    ensures forall m :: m in Subtree(n) ==> LocalAgree(IndexNode(n), m)
    decreases n, 1
  {
    SingleForest(n);
    if n.children.Present? && |n.children.items| > 0 {
      var items := n.children.items;
      IndexForestAgrees(items);
      IndexForestKeys(items);
      forall m | m in Subtree(n)
        ensures LocalAgree(IndexNode(n), m)
      {
        if m != n {
          assert m in SubtreeForest(items);
          assert m.id in Ids(items);
        }
      }
    } else {
      forall m | m in Subtree(n)
        ensures LocalAgree(IndexNode(n), m)
      {
        if n.children.Present? {
          assert SubtreeForest(n.children.items) == {};
        }
        assert m == n;
      }
    }
  }

  lemma {:induction false} IndexForestAgrees(ns: seq<Node>)
    requires DistinctIds(ns)
    ensures Agrees(IndexForest(ns), ns)
    decreases ns, 0
  {
    if ns != [] {
      HeadTailDisjoint(ns);
      IndexNodeAgrees(ns[0]);
      IndexForestAgrees(ns[1..]);
      IndexNodeKeys(ns[0]);
      IndexForestKeys(ns[1..]);
      SingleForest(ns[0]);
      forall m | m in SubtreeForest(ns)
        ensures LocalAgree(IndexForest(ns), m)
      {
        if m in Subtree(ns[0]) {
          assert m.id in Ids([ns[0]]);
        } else {
          assert m in SubtreeForest(ns[1..]);
          assert m.id in Ids(ns[1..]);
        }
      }
    }
  }

  /** With distinct ids, the lookup table answers for every record of the data exactly
      what the record itself holds, and has no entry for an id outside the data. */
  lemma RowsMapAgrees(data: seq<Node>)
    requires DistinctIds(data)
    ensures Agrees(RowsMap(data), data)
    ensures RowsMap(data).Keys <= Ids(data)
  {
    IndexForestAgrees(data);
    IndexForestKeys(data);
  }

  lemma AgreesParts(index: Index, ns: seq<Node>)
    requires ns != [] && Agrees(index, ns)
    ensures Agrees(index, [ns[0]]) && Agrees(index, ns[1..])
    ensures LocalAgree(index, ns[0])
  {
    SingleForest(ns[0]);
  }

  lemma AgreesKids(index: Index, n: Node)
    requires Agrees(index, [n])
    ensures n.children.Present? ==> Agrees(index, n.children.items)
    ensures LocalAgree(index, n)
  {
    SingleForest(n);
  }

  /** A drawn row: the record, the level passed to `TableRow`, its `hasChildren` and
      `isExpanded` props, and whether it is a react-table page row (`true`) or a plain
      child record (`false`), which `TableRow` draws by different branches. */
  datatype Row = Row(node: Node, level: nat, hasChildren: bool, isExpanded: bool, pageRow: bool)

  /** `renderNestedRows(parent.id, level)`: nothing unless the parent is expanded; then
      for each child of the parent's table entry, its row at `level` followed by its own
      nested rows at `level + 1`. The parent record is carried only to measure
      recursion; the child list is read from the table. */
  function NestedRows(expanded: set<Id>, index: Index, parent: Node, level: nat): (r: seq<Row>)
    requires Agrees(index, [parent])
    ensures forall i :: 0 <= i < |r| ==> r[i].node in SubtreeForest(Kids(parent))
    ensures forall i :: 0 <= i < |r| ==>
      && r[i].level >= level
      && !r[i].pageRow
      && (r[i].hasChildren <==> r[i].node.id in index)
      && (r[i].hasChildren <==> |Kids(r[i].node)| > 0)
      && (r[i].isExpanded <==> r[i].node.id in expanded)
    ensures parent.id !in expanded ==> r == []
    decreases parent, 1
  {
    AgreesKids(index, parent);
    if parent.id !in expanded then []
    else
      var children := if parent.id in index then index[parent.id] else [];
      if children == [] then []
      else
        assert children == parent.children.items;
        ChildRows(expanded, index, children, level)
  }

  function ChildRows(expanded: set<Id>, index: Index, ns: seq<Node>, level: nat): (r: seq<Row>)
    requires Agrees(index, ns)
    ensures forall i :: 0 <= i < |r| ==> r[i].node in SubtreeForest(ns)
    ensures forall i :: 0 <= i < |r| ==>
      && r[i].level >= level
      && !r[i].pageRow
      && (r[i].hasChildren <==> r[i].node.id in index)
      && (r[i].hasChildren <==> |Kids(r[i].node)| > 0)
      && (r[i].isExpanded <==> r[i].node.id in expanded)
    decreases ns, 0
  {
    if ns == [] then []
    else
      AgreesParts(index, ns);
      SingleForest(ns[0]);
      var c := ns[0];
      [Row(c, level, c.id in index, c.id in expanded, false)]
        + NestedRows(expanded, index, c, level + 1)
        + ChildRows(expanded, index, ns[1..], level)
  }

  /** The table body for one page: each page row (drawn by `TableRow` with its default
      level 0), followed by `renderNestedRows(id)` with its default level 0. */
  function PageRows(expanded: set<Id>, index: Index, page: seq<Node>): (r: seq<Row>)
    requires Agrees(index, page)
    ensures forall i :: 0 <= i < |r| ==> r[i].node in SubtreeForest(page)
    ensures forall i :: 0 <= i < |r| ==>
      && (r[i].hasChildren <==> r[i].node.id in index)
      && (r[i].hasChildren <==> |Kids(r[i].node)| > 0)
      && (r[i].isExpanded <==> r[i].node.id in expanded)
    ensures page == [] <==> r == []
  {
    if page == [] then []
    else
      AgreesParts(index, page);
      SingleForest(page[0]);
      var top := page[0];
      [Row(top, 0, top.id in index, top.id in expanded, true)]
        + NestedRows(expanded, index, top, 0)
        + PageRows(expanded, index, page[1..])
  }

  /** The page rows among the drawn rows, in order. */
  function PageRowNodes(rows: seq<Row>): seq<Node>
  {
    if rows == [] then []
    else (if rows[0].pageRow then [rows[0].node] else []) + PageRowNodes(rows[1..])
  }

  lemma {:induction false} PageRowNodesAppend(a: seq<Row>, b: seq<Row>)
    ensures PageRowNodes(a + b) == PageRowNodes(a) + PageRowNodes(b)
  {
    if a == [] {
      assert a + b == b;
    } else {
      assert (a + b)[0] == a[0];
      assert (a + b)[1..] == a[1..] + b;
      PageRowNodesAppend(a[1..], b);
    }
  }

  lemma {:induction false} NoPageRows(rows: seq<Row>)
    requires forall i :: 0 <= i < |rows| ==> !rows[i].pageRow
    ensures PageRowNodes(rows) == []
  {
    if rows != [] {
      NoPageRows(rows[1..]);
    }
  }

  /** Whatever is expanded, the page rows are drawn exactly once each, in page order. */
  lemma {:induction false} PageRowsKeepPage(expanded: set<Id>, index: Index, page: seq<Node>)
    requires Agrees(index, page)
    ensures PageRowNodes(PageRows(expanded, index, page)) == page
  {
    if page != [] {
      AgreesParts(index, page);
      var top := page[0];
      var block := [Row(top, 0, top.id in index, top.id in expanded, true)] + NestedRows(expanded, index, top, 0);
      var rest := PageRows(expanded, index, page[1..]);
      assert PageRows(expanded, index, page) == block + rest;
      PageRowNodesAppend(block, rest);
      TopBlockPageRow(expanded, index, top);
      PageRowsKeepPage(expanded, index, page[1..]);
      assert page == [page[0]] + page[1..];
    }
  }

  /** A page row's block (the row and its nested rows) holds that one page row. */
  lemma TopBlockPageRow(expanded: set<Id>, index: Index, top: Node)
    requires Agrees(index, [top])
    ensures PageRowNodes([Row(top, 0, top.id in index, top.id in expanded, true)] + NestedRows(expanded, index, top, 0)) == [top]
  {
    var row := Row(top, 0, top.id in index, top.id in expanded, true);
    var nested := NestedRows(expanded, index, top, 0);
    PageRowNodesAppend([row], nested);
    NoPageRows(nested);
    assert PageRowNodes([row]) == [top];
  }

  /** With no record of the page expanded, exactly the page rows are drawn. */
  lemma {:induction false} CollapsedShowsPage(expanded: set<Id>, index: Index, page: seq<Node>)
    requires Agrees(index, page)
    requires forall i :: 0 <= i < |page| ==> page[i].id !in expanded
    ensures |PageRows(expanded, index, page)| == |page|
    ensures forall i :: 0 <= i < |page| ==> PageRows(expanded, index, page)[i].node == page[i]
  {
    if page != [] {
      AgreesParts(index, page);
      CollapsedShowsPage(expanded, index, page[1..]);
    }
  }

  /** The (record, level) outline of the drawn rows. */
  function Outline(rows: seq<Row>): (o: seq<(Node, nat)>)
    ensures |o| == |rows|
  {
    if rows == [] then [] else [(rows[0].node, rows[0].level)] + Outline(rows[1..])
  }

  lemma {:induction false} OutlineAppend(a: seq<Row>, b: seq<Row>)
    ensures Outline(a + b) == Outline(a) + Outline(b)
  {
    if a == [] {
      assert a + b == b;
    } else {
      assert (a + b)[0] == a[0];
      assert (a + b)[1..] == a[1..] + b;
      OutlineAppend(a[1..], b);
    }
  }

  /** Every record of the forest is expanded. */
  ghost predicate AllExpanded(expanded: set<Id>, ns: seq<Node>)
  {
    forall m :: m in SubtreeForest(ns) ==> m.id in expanded
  }

  lemma {:induction false} ChildRowsFull(columns: seq<ReferenceTable.Column>, expanded: set<Id>, index: Index, ns: seq<Node>, level: nat)
    requires Agrees(index, ns) && AllExpanded(expanded, ns)
    ensures Outline(ChildRows(expanded, index, ns, level))
      == ReferenceTable.Outline(ReferenceTable.RenderForest(columns, ns, level))
    decreases ns, 0
  {
    if ns != [] {
      AgreesParts(index, ns);
      SingleForest(ns[0]);
      var c := ns[0];
      var head := [Row(c, level, c.id in index, c.id in expanded, false)];
      OutlineAppend(head + NestedRows(expanded, index, c, level + 1), ChildRows(expanded, index, ns[1..], level));
      OutlineAppend(head, NestedRows(expanded, index, c, level + 1));
      NestedRowsFull(columns, expanded, index, c, level + 1);
      ChildRowsFull(columns, expanded, index, ns[1..], level);
      var refHead := ReferenceTable.RenderRow(columns, c, level);
      ReferenceTable.OutlineAppend(refHead, ReferenceTable.RenderForest(columns, ns[1..], level));
      assert refHead == [refHead[0]] + refHead[1..];
      ReferenceTable.OutlineAppend([refHead[0]], refHead[1..]);
    }
  }

  lemma {:induction false} NestedRowsFull(columns: seq<ReferenceTable.Column>, expanded: set<Id>, index: Index, n: Node, level: nat)
    requires Agrees(index, [n]) && AllExpanded(expanded, [n])
    ensures Outline(NestedRows(expanded, index, n, level))
      == ReferenceTable.Outline(ReferenceTable.RenderForest(columns, Kids(n), level))
    decreases n, 1
  {
    AgreesKids(index, n);
    SingleForest(n);
    if n.children.Present? && |n.children.items| > 0 {
      ChildRowsFull(columns, expanded, index, n.children.items, level);
    }
  }

  /** Every level lowered by one, with level 0 kept at 0. */
  function Demote(o: seq<(Node, nat)>): (d: seq<(Node, nat)>)
    ensures |d| == |o|
  {
    if o == [] then [] else [(o[0].0, if o[0].1 == 0 then 0 else o[0].1 - 1)] + Demote(o[1..])
  }

  lemma {:induction false} DemoteAppend(a: seq<(Node, nat)>, b: seq<(Node, nat)>)
    ensures Demote(a + b) == Demote(a) + Demote(b)
  {
    if a == [] {
      assert a + b == b;
    } else {
      assert (a + b)[0] == a[0];
      assert (a + b)[1..] == a[1..] + b;
      DemoteAppend(a[1..], b);
    }
  }

  lemma {:induction false} DemoteForest(columns: seq<ReferenceTable.Column>, ns: seq<Node>, level: nat)
    ensures Demote(ReferenceTable.Outline(ReferenceTable.RenderForest(columns, ns, level + 1)))
      == ReferenceTable.Outline(ReferenceTable.RenderForest(columns, ns, level))
    decreases ns, 0
  {
    if ns != [] {
      DemoteRow(columns, ns[0], level);
      DemoteForest(columns, ns[1..], level);
      var hi := ReferenceTable.RenderRow(columns, ns[0], level + 1);
      var rest := ReferenceTable.RenderForest(columns, ns[1..], level + 1);
      ReferenceTable.OutlineAppend(hi, rest);
      DemoteAppend(ReferenceTable.Outline(hi), ReferenceTable.Outline(rest));
      ReferenceTable.OutlineAppend(ReferenceTable.RenderRow(columns, ns[0], level),
        ReferenceTable.RenderForest(columns, ns[1..], level));
    }
  }

  lemma {:induction false} DemoteRow(columns: seq<ReferenceTable.Column>, n: Node, level: nat)
    ensures Demote(ReferenceTable.Outline(ReferenceTable.RenderRow(columns, n, level + 1)))
      == ReferenceTable.Outline(ReferenceTable.RenderRow(columns, n, level))
    decreases n, 1
  {
    var hi := ReferenceTable.RenderRow(columns, n, level + 1);
    var lo := ReferenceTable.RenderRow(columns, n, level);
    assert hi == [hi[0]] + hi[1..];
    assert lo == [lo[0]] + lo[1..];
    ReferenceTable.OutlineAppend([hi[0]], hi[1..]);
    ReferenceTable.OutlineAppend([lo[0]], lo[1..]);
    DemoteAppend(ReferenceTable.Outline([hi[0]]), ReferenceTable.Outline(hi[1..]));
    if n.children.Present? {
      DemoteForest(columns, n.children.items, level + 1);
    }
  }

  /** One page row and what is drawn below it, against the plain table's rows for it. */
  lemma TopBlockFull(columns: seq<ReferenceTable.Column>, expanded: set<Id>, index: Index, top: Node)
    requires Agrees(index, [top]) && AllExpanded(expanded, [top])
    ensures Outline([Row(top, 0, top.id in index, top.id in expanded, true)] + NestedRows(expanded, index, top, 0))
      == Demote(ReferenceTable.Outline(ReferenceTable.RenderRow(columns, top, 0)))
  {
    var head := [Row(top, 0, top.id in index, top.id in expanded, true)];
    var nested := NestedRows(expanded, index, top, 0);
    OutlineAppend(head, nested);
    NestedRowsFull(columns, expanded, index, top, 0);
    var ref := ReferenceTable.RenderRow(columns, top, 0);
    assert ref == [ref[0]] + ref[1..];
    assert ref[1..] == ReferenceTable.RenderForest(columns, Kids(top), 1);
    ReferenceTable.OutlineAppend([ref[0]], ref[1..]);
    DemoteAppend(ReferenceTable.Outline([ref[0]]), ReferenceTable.Outline(ref[1..]));
    DemoteForest(columns, Kids(top), 0);
  }

  /** With every record expanded, the table draws the same records in the same order as
      the plain multi-level table, each one level shallower except that the page rows and
      their children share level 0: `renderNestedRows` starts its children at level 0
      where the plain table starts them at level 1. */
  lemma {:induction false} FullyExpandedIsReference(columns: seq<ReferenceTable.Column>, expanded: set<Id>, index: Index, page: seq<Node>)
    requires Agrees(index, page) && AllExpanded(expanded, page)
    ensures Outline(PageRows(expanded, index, page))
      == Demote(ReferenceTable.Outline(ReferenceTable.RenderTable(columns, page)))
  {
    if page != [] {
      AgreesParts(index, page);
      SingleForest(page[0]);
      var top := page[0];
      var block := [Row(top, 0, top.id in index, top.id in expanded, true)] + NestedRows(expanded, index, top, 0);
      assert PageRows(expanded, index, page) == block + PageRows(expanded, index, page[1..]);
      OutlineAppend(block, PageRows(expanded, index, page[1..]));
      TopBlockFull(columns, expanded, index, top);
      FullyExpandedIsReference(columns, expanded, index, page[1..]);
      var ref := ReferenceTable.RenderRow(columns, top, 0);
      var refRest := ReferenceTable.RenderForest(columns, page[1..], 0);
      assert ReferenceTable.RenderTable(columns, page) == ref + refRest;
      ReferenceTable.OutlineAppend(ref, refRest);
      DemoteAppend(ReferenceTable.Outline(ref), ReferenceTable.Outline(refRest));
    }
  }

  /** A page is made of top-level records of the data, so the table built from the data
      agrees with it too. */
  lemma PageFromData(index: Index, data: seq<Node>, page: seq<Node>)
    requires Agrees(index, data)
    requires forall i :: 0 <= i < |page| ==> page[i] in data
    ensures Agrees(index, page)
  {
    forall m | m in SubtreeForest(page)
      ensures LocalAgree(index, m)
    {
      ForestMembers(page, m);
      var i :| 0 <= i < |page| && m in Subtree(page[i]);
      var j :| 0 <= j < |data| && data[j] == page[i];
      InForest(data, j);
    }
  }

  /** With distinct ids, the table built from the data agrees with any page of its
      top-level records, which is what drawing that page needs. */
  lemma PageOfDistinctData(data: seq<Node>, page: seq<Node>)
    requires DistinctIds(data)
    requires forall i :: 0 <= i < |page| ==> page[i] in data
    ensures Agrees(RowsMap(data), page)
  {
    RowsMapAgrees(data);
    PageFromData(RowsMap(data), data, page);
  }

  /** Two records that list each other's id as a child: `[{id: 1, children: [{id: 2}]},
      {id: 2, children: [{id: 1}]}]`. */
  function CyclicData(): seq<Node>
  {
    [Node(NumId(1), map[], Present([Node(NumId(2), map[], Absent)])),
     Node(NumId(2), map[], Present([Node(NumId(1), map[], Absent)]))]
  }

  /** For the data above, the lookup of 1 yields a child with id 2 and the lookup of 2 a
      child with id 1, so with both expanded the nested-row walk never ends; such data is
      outside what the table agrees with. */
  lemma CyclicIdsLoop()
    ensures RowsMap(CyclicData()).Keys == {NumId(1), NumId(2)}
    ensures RowsMap(CyclicData())[NumId(1)] == [Node(NumId(2), map[], Absent)]
    ensures RowsMap(CyclicData())[NumId(2)] == [Node(NumId(1), map[], Absent)]
    ensures !Agrees(RowsMap(CyclicData()), CyclicData())
  {
    var d := CyclicData();
    var leaf := Node(NumId(2), map[], Absent);
    assert IndexForest([leaf]) == map[];
    assert IndexForest([Node(NumId(1), map[], Absent)]) == map[];
    assert d[1..] == [d[1]];
    assert leaf in Subtree(leaf);
    assert [leaf][1..] == [];
    assert leaf in SubtreeForest([leaf]);
    assert leaf in Subtree(d[0]);
    assert leaf in SubtreeForest(d);
    assert !LocalAgree(RowsMap(d), leaf);
  }

  /** The component's state: the data it was given, the memoised lookup table and the set
      of expanded ids. */
  class MultiLevelTable {
    const data: seq<Node>
    const rowsMap: Index
    var expandedRows: set<Id>

    constructor (data: seq<Node>)
      ensures this.data == data && rowsMap == RowsMap(data) && expandedRows == {}
    {
      this.data := data;
      var m := BuildRowsMap(data);
      rowsMap := m;
      expandedRows := {};
    }

    /** `toggleRow`: the expanded set is replaced by a copy with the id's membership
        flipped. */
    method ToggleRow(rowId: Id)
      modifies this
      ensures expandedRows == Flip(old(expandedRows), rowId)
    {
      var newSet := expandedRows;
      if rowId in newSet {
        newSet := newSet - {rowId};
      } else {
        newSet := newSet + {rowId};
      }
      expandedRows := newSet;
    }

    /** A drawn row's `onToggle`: `hasChildren && toggleRow(id)`. */
    method OnToggle(row: Row)
      modifies this
      ensures expandedRows == if row.hasChildren then Flip(old(expandedRows), row.node.id) else old(expandedRows)
    {
      if row.hasChildren {
        ToggleRow(row.node.id);
      }
    }

    /** The table body for the current page: every page row is drawn, once, in order. */
    function Body(page: seq<Node>): (r: seq<Row>)
      reads this
      requires Agrees(rowsMap, page)
      ensures PageRowNodes(r) == page
    {
      PageRowsKeepPage(expandedRows, rowsMap, page);
      PageRows(expandedRows, rowsMap, page)
    }
  }
}

/** The hierarchical records every table variant displays. */
module Tree {
  import opened Common

  /** A record. `fields` holds its properties other than the id and the child list;
      `children` is the list found under the children key, or Absent when the record has
      no such property (an absent list and an empty list differ where the source tests the
      list itself for truthiness). */
  datatype Node = Node(id: Id, fields: map<string, Value>, children: Children)
  datatype Children = Absent | Present(items: seq<Node>)

  /** The child list, empty when the property is absent. */
  function Kids(n: Node): (r: seq<Node>)
    ensures forall i :: 0 <= i < |r| ==> r[i] < n
    ensures n.children.Absent? ==> r == []
  {
    if n.children.Present? then n.children.items else []
  }

  /** `item[key]`: the id under "id", a stored field, or undefined. */
  function Field(n: Node, key: string): Value
  {
    if key == "id" then IdValue(n.id)
    else if key in n.fields then n.fields[key]
    else Undefined
  }

  /** Every record of the tree rooted at `n`, `n` included. */
  ghost function Subtree(n: Node): set<Node>
    decreases n, 1
  {
    {n} + (if n.children.Present? then SubtreeForest(n.children.items) else {})
  }

  /** Every record of a forest, at any depth. */
  ghost function SubtreeForest(ns: seq<Node>): set<Node>
    decreases ns, 0
  {
    if ns == [] then {} else Subtree(ns[0]) + SubtreeForest(ns[1..])
  }

  ghost function Ids(ns: seq<Node>): set<Id>
  {
    set m | m in SubtreeForest(ns) :: m.id
  }

  /** No two records of the forest, at any depths, share an id. */
  ghost predicate DistinctIds(ns: seq<Node>)
    decreases ns, 1
  {
    && (forall i, j :: 0 <= i < j < |ns| ==> Ids([ns[i]]) !! Ids([ns[j]]))
    && (forall i :: 0 <= i < |ns| ==> DistinctNode(ns[i]))
  }

  ghost predicate DistinctNode(n: Node)
    decreases n, 2
  {
    n.children.Present? ==> n.id !in Ids(n.children.items) && DistinctIds(n.children.items)
  }

  lemma {:induction false} InForest(ns: seq<Node>, i: nat)
    requires i < |ns|
    ensures Subtree(ns[i]) <= SubtreeForest(ns)
    decreases ns
  {
    if i > 0 {
      InForest(ns[1..], i - 1);
    }
  }

  lemma {:induction false} KidsInSubtree(n: Node, i: nat)
    requires i < |Kids(n)|
    ensures Subtree(Kids(n)[i]) <= Subtree(n)
  {
    InForest(n.children.items, i);
  }

  lemma {:induction false} ForestMembers(ns: seq<Node>, m: Node)
    requires m in SubtreeForest(ns)
    ensures exists i :: 0 <= i < |ns| && m in Subtree(ns[i])
    decreases ns
  {
    if m !in Subtree(ns[0]) {
      ForestMembers(ns[1..], m);
      var i :| 0 <= i < |ns[1..]| && m in Subtree(ns[1..][i]);
      assert m in Subtree(ns[i + 1]);
    }
  }
}

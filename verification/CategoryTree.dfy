/**
 * Nesting flat category rows in place: a map from id to node, child lists that are pushed to,
 * and a recursive sort of every list, proved to build the forest of `CategoryTreeSpec`.
 */
module CategoryTree {
  import opened Options
  import opened CategoryTreeSpec

  /** A JavaScript array of nodes: shared by reference, pushed to, sorted in place. */
  class NodeList {
    /** Whose children these are; `None` for the list of roots. */
    ghost const owner: Option<string>
    var items: seq<Node>

    constructor (ghost owner: Option<string>)
      ensures this.owner == owner && items == []
    {
      this.owner := owner;
      items := [];
    }

    method Push(n: Node)
      modifies this
      ensures items == old(items) + [n]
    {
      items := items + [n];
    }
  }

  class Node {
    const row: Row
    const children: NodeList

    constructor (row: Row)
      ensures this.row == row && fresh(children)
      ensures children.owner == Some(row.id) && children.items == []
    {
      this.row := row;
      children := new NodeList(Some(row.id));
    }
  }

  function RowsOf(nodes: seq<Node>): seq<Row> {
    seq(|nodes|, i requires 0 <= i < |nodes| => nodes[i].row)
  }

  // ---- The stable sort by sort order, then name ------------------------------------

  function InsertNode(n: Node, s: seq<Node>, le: (string, string) -> bool): seq<Node> {
    if s == [] || RowLe(n.row, s[0].row, le) then [n] + s else [s[0]] + InsertNode(n, s[1..], le)
  }

  function SortNodes(s: seq<Node>, le: (string, string) -> bool): seq<Node> {
    if s == [] then [] else InsertNode(s[0], SortNodes(s[1..], le), le)
  }

  lemma {:induction false} InsertNodeInsertsRow(n: Node, s: seq<Node>, le: (string, string) -> bool)
    ensures RowsOf(InsertNode(n, s, le)) == Insert(n.row, RowsOf(s), le)
    ensures forall m | m in InsertNode(n, s, le) :: m == n || m in s
  {
    if s == [] || RowLe(n.row, s[0].row, le) {
      assert RowsOf([n] + s) == [n.row] + RowsOf(s);
    } else {
      InsertNodeInsertsRow(n, s[1..], le);
      assert RowsOf(s[1..]) == RowsOf(s)[1..];
      assert RowsOf([s[0]] + InsertNode(n, s[1..], le)) == [s[0].row] + RowsOf(InsertNode(n, s[1..], le));
    }
  }

  lemma {:induction false} SortNodesSortsRows(s: seq<Node>, le: (string, string) -> bool)
    ensures RowsOf(SortNodes(s, le)) == Sort(RowsOf(s), le)
    ensures forall m | m in SortNodes(s, le) :: m in s
  {
    if s != [] {
      SortNodesSortsRows(s[1..], le);
      InsertNodeInsertsRow(s[0], SortNodes(s[1..], le), le);
      assert RowsOf(s[1..]) == RowsOf(s)[1..];
    }
  }

  // ---- The index and the lists -------------------------------------------------------

  /**
   * A node for every id, showing the last row that has it; `lists` are the roots' list and one list of
   * children for each node.
   */
  ghost predicate Indexed(rows: seq<Row>, nodes: map<string, Node>, lists: set<NodeList>) {
    && nodes.Keys == Ids(rows)
    && (forall r {:trigger nodes[r.id]} | r in rows ::
          && r.id in nodes && nodes[r.id].row == Shown(rows, r)
          && nodes[r.id].children in lists && nodes[r.id].children.owner == Some(r.id))
  }

  /** A node is known by its row's id. */
  ghost predicate FromIndex(nodes: map<string, Node>, items: seq<Node>) {
    forall k | 0 <= k < |items| :: items[k].row.id in nodes && nodes[items[k].row.id] == items[k]
  }

  lemma SameNodes(nodes: map<string, Node>, a: seq<Node>, b: seq<Node>)
    requires FromIndex(nodes, a) && FromIndex(nodes, b) && RowsOf(a) == RowsOf(b)
    ensures a == b
  {
    assert |a| == |RowsOf(a)| == |RowsOf(b)| == |b|;
    forall k | 0 <= k < |a|
      ensures a[k] == b[k]
    {
      assert a[k].row == RowsOf(a)[k] == RowsOf(b)[k] == b[k].row;
    }
  }

  ghost predicate Sorted(rows: seq<Row>, l: NodeList, le: (string, string) -> bool)
    reads l
  {
    RowsOf(l.items) == Sort(Belonging(rows, rows, l.owner), le)
  }

  ghost predicate Linked(rows: seq<Row>, nodes: map<string, Node>, l: NodeList, le: (string, string) -> bool)
    reads l
  {
    && FromIndex(nodes, l.items)
    && (RowsOf(l.items) == Belonging(rows, rows, l.owner) || Sorted(rows, l, le))
  }

  ghost predicate AllLinked(rows: seq<Row>, nodes: map<string, Node>, lists: set<NodeList>, le: (string, string) -> bool)
    reads lists
  {
    forall l {:trigger Linked(rows, nodes, l, le)} | l in lists :: Linked(rows, nodes, l, le)
  }

  /** The lists that are sorted by now. */
  ghost function Done(rows: seq<Row>, lists: set<NodeList>, le: (string, string) -> bool): set<NodeList>
    reads lists
  {
    set l | l in lists && Sorted(rows, l, le)
  }

  /** The children of each of these rows are among the sorted lists. */
  ghost predicate ChildrenDone(rows: seq<Row>, nodes: map<string, Node>, done: set<NodeList>, flat: seq<Row>) {
    forall r | r in flat :: r.id in nodes && nodes[r.id].children in done
  }

  /** The children of a row, and of everything below it, are among the sorted lists. */
  ghost predicate DoneBelow(rows: seq<Row>, nodes: map<string, Node>, done: set<NodeList>, q: Row,
                            trail: seq<string>, le: (string, string) -> bool)
  {
    && q.id in nodes && nodes[q.id].children in done
    && ChildrenDone(rows, nodes, done, Flatten(Grow(rows, RowsBelow(rows, q.id, le), trail + [q.id], le)))
  }

  ghost predicate AllDoneBelow(rows: seq<Row>, nodes: map<string, Node>, done: set<NodeList>, list: seq<Row>,
                               trail: seq<string>, le: (string, string) -> bool)
  {
    forall q {:trigger DoneBelow(rows, nodes, done, q, trail, le)} | q in list ::
      DoneBelow(rows, nodes, done, q, trail, le)
  }

  // ---- The tree a list of nodes stands for ---------------------------------------------

  ghost predicate Represents(items: seq<Node>, forest: seq<Tree>, lists: set<NodeList>)
    reads lists
    decreases forest
  {
    if forest == [] then items == []
    else
      && items != [] && items[0].row == forest[0].row && items[0].children in lists
      && Represents(items[0].children.items, forest[0].children, lists)
      && Represents(items[1..], forest[1..], lists)
  }

  lemma {:induction false} RepresentsJoins(rows: seq<Row>, items: seq<Node>, trail: seq<string>, lists: set<NodeList>,
                                           le: (string, string) -> bool)
    requires items != [] && items[0].children in lists && items[0].row.id in Unvisited(rows, trail)
    requires Represents(items[0].children.items, Grow(rows, RowsBelow(rows, items[0].row.id, le),
                                                      trail + [items[0].row.id], le), lists)
    requires Represents(items[1..], Grow(rows, RowsOf(items)[1..], trail, le), lists)
    ensures Represents(items, Grow(rows, RowsOf(items), trail, le), lists)
  {
    GrowUnfolds(rows, RowsOf(items), trail, le);
    var first := Tree(items[0].row, Grow(rows, RowsBelow(rows, items[0].row.id, le), trail + [items[0].row.id], le));
    assert ([first] + Grow(rows, RowsOf(items)[1..], trail, le))[1..] == Grow(rows, RowsOf(items)[1..], trail, le);
  }

  lemma DoneParts(rows: seq<Row>, nodes: map<string, Node>, done: set<NodeList>, q: Row, inside: seq<Row>,
                  after: seq<Row>)
    ensures ChildrenDone(rows, nodes, done, [q] + inside + after) <==>
              && q.id in nodes && nodes[q.id].children in done
              && ChildrenDone(rows, nodes, done, inside) && ChildrenDone(rows, nodes, done, after)
  {
    var all := [q] + inside + after;
    assert forall r :: r in all <==> r == q || r in inside || r in after;
  }

  /** What is known of a row below a trail, and of the trail one step further. */
  lemma DeeperTrail(rows: seq<Row>, nodes: map<string, Node>, lists: set<NodeList>, q: Row, trail: seq<string>,
                    le: (string, string) -> bool)
    requires Ends(rows) && TotalPreorder(le) && Indexed(rows, nodes, lists)
    requires Trail(rows, trail) && q in Below(rows, trail)
    ensures q in rows && q.id in nodes && nodes[q.id].row == q
    ensures nodes[q.id].children in lists && nodes[q.id].children.owner == Some(q.id)
    ensures Trail(rows, trail + [q.id]) && q.id in Unvisited(rows, trail)
    ensures |Unvisited(rows, trail + [q.id])| < |Unvisited(rows, trail)|
    ensures Below(rows, trail + [q.id]) == Children(rows, q.id)
    ensures AllBelow(rows, RowsBelow(rows, q.id, le), trail + [q.id])
  {
    var belonging := BelowIsShown(rows, trail, q);
    TrailExtends(rows, trail, q);
    UnvisitedShrinks(rows, trail, q.id);
    RowsBelowAreBelow(rows, trail, q, le);
    assert OwnerOf(trail + [q.id]) == Some(q.id);
  }

  lemma AllDoneBelowSplits(rows: seq<Row>, nodes: map<string, Node>, done: set<NodeList>, list: seq<Row>,
                           trail: seq<string>, le: (string, string) -> bool)
    requires list != []
    ensures AllDoneBelow(rows, nodes, done, list, trail, le) <==>
              && DoneBelow(rows, nodes, done, list[0], trail, le)
              && AllDoneBelow(rows, nodes, done, list[1..], trail, le)
  {
    assert forall q :: q in list <==> q == list[0] || q in list[1..];
  }

  /** Finishing below each row of a list finishes everything grown from the list. */
  lemma {:induction false} DoneBelowEach(rows: seq<Row>, nodes: map<string, Node>, lists: set<NodeList>,
                                         done: set<NodeList>, list: seq<Row>, trail: seq<string>,
                                         le: (string, string) -> bool)
    requires Ends(rows) && TotalPreorder(le) && Indexed(rows, nodes, lists)
    requires Trail(rows, trail) && AllBelow(rows, list, trail)
    ensures AllDoneBelow(rows, nodes, done, list, trail, le)
            <==> ChildrenDone(rows, nodes, done, Flatten(Grow(rows, list, trail, le)))
    decreases |list|
  {
    if list != [] {
      var q := list[0];
      assert q in list;
      DeeperTrail(rows, nodes, lists, q, trail, le);
      AllDoneBelowSplits(rows, nodes, done, list, trail, le);
      GrowUnfolds(rows, list, trail, le);
      DoneBelowEach(rows, nodes, lists, done, list[1..], trail, le);
      DoneParts(rows, nodes, done, q, Flatten(Grow(rows, RowsBelow(rows, q.id, le), trail + [q.id], le)),
                Flatten(Grow(rows, list[1..], trail, le)));
    }
  }

  /** When every reachable list is sorted, the nodes stand for the forest grown from their rows. */
  lemma {:induction false} SortedListsRepresent(rows: seq<Row>, nodes: map<string, Node>, lists: set<NodeList>,
                                                items: seq<Node>, trail: seq<string>, le: (string, string) -> bool)
    requires Ends(rows) && TotalPreorder(le) && Indexed(rows, nodes, lists) && AllLinked(rows, nodes, lists, le)
    requires FromIndex(nodes, items) && Trail(rows, trail) && AllBelow(rows, RowsOf(items), trail)
    requires AllDoneBelow(rows, nodes, Done(rows, lists, le), RowsOf(items), trail, le)
    ensures Represents(items, Grow(rows, RowsOf(items), trail, le), lists)
    decreases |Unvisited(rows, trail)|, |items|
  {
    if items != [] {
      ItemsSplit(rows, nodes, lists, items, trail, Done(rows, lists, le), le);
      RepresentsBelow(rows, nodes, lists, items[0].row, trail, le);
      SortedListsRepresent(rows, nodes, lists, items[1..], trail, le);
      RepresentsJoins(rows, items, trail, lists, le);
    }
  }

  lemma ItemsSplit(rows: seq<Row>, nodes: map<string, Node>, lists: set<NodeList>, items: seq<Node>,
                   trail: seq<string>, done: set<NodeList>, le: (string, string) -> bool)
    requires Ends(rows) && TotalPreorder(le) && Indexed(rows, nodes, lists)
    requires FromIndex(nodes, items) && Trail(rows, trail) && AllBelow(rows, RowsOf(items), trail)
    requires AllDoneBelow(rows, nodes, done, RowsOf(items), trail, le) && items != []
    ensures var q := items[0].row;
            && q in Below(rows, trail) && q.id in nodes && nodes[q.id] == items[0] && items[0].children in lists
            && DoneBelow(rows, nodes, done, q, trail, le) && q.id in Unvisited(rows, trail)
    ensures FromIndex(nodes, items[1..]) && RowsOf(items[1..]) == RowsOf(items)[1..]
    ensures AllBelow(rows, RowsOf(items[1..]), trail)
    ensures AllDoneBelow(rows, nodes, done, RowsOf(items[1..]), trail, le)
  {
    var q := items[0].row;
    assert RowsOf(items)[0] == q;
    DeeperTrail(rows, nodes, lists, q, trail, le) by {
      assert q in RowsOf(items);
    }
    AllDoneBelowSplits(rows, nodes, done, RowsOf(items), trail, le);
    TailIsBelow(rows, nodes, items, trail);
  }

  lemma TailIsBelow(rows: seq<Row>, nodes: map<string, Node>, items: seq<Node>, trail: seq<string>)
    requires FromIndex(nodes, items) && AllBelow(rows, RowsOf(items), trail) && items != []
    ensures FromIndex(nodes, items[1..]) && RowsOf(items[1..]) == RowsOf(items)[1..]
    ensures AllBelow(rows, RowsOf(items[1..]), trail)
  {
    assert RowsOf(items[1..]) == RowsOf(items)[1..];
    forall q | q in RowsOf(items)[1..]
      ensures q in Below(rows, trail)
    {
      assert q in RowsOf(items);
    }
  }

  lemma {:induction false} RepresentsBelow(rows: seq<Row>, nodes: map<string, Node>, lists: set<NodeList>, q: Row,
                                           trail: seq<string>, le: (string, string) -> bool)
    requires Ends(rows) && TotalPreorder(le) && Indexed(rows, nodes, lists) && AllLinked(rows, nodes, lists, le)
    requires Trail(rows, trail) && q in Below(rows, trail)
    requires DoneBelow(rows, nodes, Done(rows, lists, le), q, trail, le)
    ensures Represents(nodes[q.id].children.items, Grow(rows, RowsBelow(rows, q.id, le), trail + [q.id], le), lists)
    decreases |Unvisited(rows, trail)|, 0
  {
    DeeperTrail(rows, nodes, lists, q, trail, le);
    var below := nodes[q.id].children;
    assert Linked(rows, nodes, below, le) && Sorted(rows, below, le);
    DoneBelowEach(rows, nodes, lists, Done(rows, lists, le), RowsBelow(rows, q.id, le), trail + [q.id], le);
    SortedListsRepresent(rows, nodes, lists, below.items, trail + [q.id], le);
  }

  // ---- The program's methods --------------------------------------------------------------

  /** The in-place sort of one list: no other list changes, and a sorted one stays as it is. */
  method SortList(list: NodeList, le: (string, string) -> bool, ghost rows: seq<Row>, ghost nodes: map<string, Node>,
                  ghost lists: set<NodeList>)
    requires TotalPreorder(le) && AllLinked(rows, nodes, lists, le) && list in lists
    modifies list
    ensures AllLinked(rows, nodes, lists, le) && list in Done(rows, lists, le)
    ensures forall l | l in old(Done(rows, lists, le)) :: l in Done(rows, lists, le) && l.items == old(l.items)
    ensures RowsOf(list.items) == Sort(Belonging(rows, rows, list.owner), le)
  {
    ghost var before := list.items;
    assert Linked(rows, nodes, list, le);
    SortNodesSortsRows(before, le);
    SortIsIdempotent(Belonging(rows, rows, list.owner), le);
    FromIndexSelects(nodes, before, SortNodes(before, le));
    list.items := SortNodes(list.items, le);
    if RowsOf(list.items) == RowsOf(before) {
      SameNodes(nodes, list.items, before);
    }
    forall l | l in lists
      ensures Linked(rows, nodes, l, le)
    {
      assert old(Linked(rows, nodes, l, le));
    }
  }

  lemma FromIndexSelects(nodes: map<string, Node>, items: seq<Node>, chosen: seq<Node>)
    requires FromIndex(nodes, items) && forall m | m in chosen :: m in items
    ensures FromIndex(nodes, chosen)
  {
    forall k | 0 <= k < |chosen|
      ensures chosen[k].row.id in nodes && nodes[chosen[k].row.id] == chosen[k]
    {
      assert chosen[k] in items;
    }
  }

  /** Sorts a list and, recursively, the children of its nodes; a list once sorted stays as it is. */
  method SortRecursive(list: NodeList, le: (string, string) -> bool, ghost rows: seq<Row>,
                       ghost nodes: map<string, Node>, ghost lists: set<NodeList>, ghost trail: seq<string>)
    requires Ends(rows) && TotalPreorder(le) && Indexed(rows, nodes, lists) && AllLinked(rows, nodes, lists, le)
    requires Trail(rows, trail) && list in lists
    requires list.owner == if trail == [] then None else Some(trail[|trail| - 1])
    modifies lists
    ensures AllLinked(rows, nodes, lists, le) && list in Done(rows, lists, le)
    ensures forall l | l in old(Done(rows, lists, le)) :: l in Done(rows, lists, le) && l.items == old(l.items)
    ensures AllDoneBelow(rows, nodes, Done(rows, lists, le), Sort(Below(rows, trail), le), trail, le)
    decreases |Unvisited(rows, trail)|
  {
    SortList(list, le, rows, nodes, lists);
    ghost var items := list.items;
    SortedBelowIsBelow(rows, trail, le);
    var i := 0;
    while i < |list.items|
      invariant list.items == items && i <= |items|
      invariant AllLinked(rows, nodes, lists, le) && list in Done(rows, lists, le)
      invariant forall l | l in old(Done(rows, lists, le)) :: l in Done(rows, lists, le) && l.items == old(l.items)
      invariant AllDoneBelow(rows, nodes, Done(rows, lists, le), RowsOf(items)[..i], trail, le)
    {
      ghost var before := Done(rows, lists, le);
      SortBelow(list, i, le, rows, nodes, lists, trail);
      OneMoreDone(rows, nodes, before, Done(rows, lists, le), RowsOf(items), i, trail, le);
      i := i + 1;
    }
    assert RowsOf(items)[..i] == RowsOf(items);
  }

  /** The body of the sorting loop: below the `i`th node of a sorted list. */
  method SortBelow(list: NodeList, i: nat, le: (string, string) -> bool, ghost rows: seq<Row>,
                   ghost nodes: map<string, Node>, ghost lists: set<NodeList>, ghost trail: seq<string>)
    requires Ends(rows) && TotalPreorder(le) && Indexed(rows, nodes, lists) && AllLinked(rows, nodes, lists, le)
    requires Trail(rows, trail) && list in Done(rows, lists, le) && i < |list.items|
    requires AllBelow(rows, RowsOf(list.items), trail)
    modifies lists
    ensures AllLinked(rows, nodes, lists, le)
    ensures forall l | l in old(Done(rows, lists, le)) :: l in Done(rows, lists, le) && l.items == old(l.items)
    ensures DoneBelow(rows, nodes, Done(rows, lists, le), old(list.items[i].row), trail, le)
    decreases |Unvisited(rows, trail)|, 0
  {
    ghost var q := list.items[i].row;
    assert RowsOf(list.items)[i] == q && q in RowsOf(list.items);
    assert Linked(rows, nodes, list, le) && nodes[q.id] == list.items[i];
    DeeperTrail(rows, nodes, lists, q, trail, le);
    SortRecursive(list.items[i].children, le, rows, nodes, lists, trail + [q.id]);
    DoneBelowEach(rows, nodes, lists, Done(rows, lists, le), RowsBelow(rows, q.id, le), trail + [q.id], le);
  }

  lemma SortedBelowIsBelow(rows: seq<Row>, trail: seq<string>, le: (string, string) -> bool)
    requires Ends(rows) && TotalPreorder(le)
    ensures AllBelow(rows, Sort(Below(rows, trail), le), trail)
  {
    SortIsIdempotent(Below(rows, trail), le);
  }

  lemma OneMoreDone(rows: seq<Row>, nodes: map<string, Node>, before: set<NodeList>, after: set<NodeList>,
                    list: seq<Row>, i: nat, trail: seq<string>, le: (string, string) -> bool)
    requires i < |list| && forall l | l in before :: l in after
    requires AllDoneBelow(rows, nodes, before, list[..i], trail, le)
    requires DoneBelow(rows, nodes, after, list[i], trail, le)
    ensures AllDoneBelow(rows, nodes, after, list[..i + 1], trail, le)
  {
    assert list[..i + 1] == list[..i] + [list[i]];
    forall q | q in list[..i]
      ensures DoneBelow(rows, nodes, after, q, trail, le)
    {
      assert DoneBelow(rows, nodes, before, q, trail, le);
    }
  }

  /** Step one: a node under every id; a repeated id keeps its last row, as setting a Map's key again does. */
  method FillIndex(rows: seq<Row>) returns (nodes: map<string, Node>, ghost lists: set<NodeList>)
    ensures Indexed(rows, nodes, lists) && fresh(lists)
    ensures forall l | l in lists :: l.items == []
    ensures forall l {:trigger l.owner} | l in lists ::
              l.owner.Some? && l.owner.value in nodes && nodes[l.owner.value].children == l
    ensures forall id | id in nodes :: fresh(nodes[id])
  {
    nodes, lists := map[], {};
    var i := 0;
    while i < |rows|
      invariant i <= |rows| && Indexed(rows[..i], nodes, lists) && fresh(lists)
      invariant forall l | l in lists :: l.items == []
      invariant forall l {:trigger l.owner} | l in lists ::
                  l.owner.Some? && l.owner.value in nodes && nodes[l.owner.value].children == l
      invariant forall id | id in nodes :: fresh(nodes[id])
    {
      var node := new Node(rows[i]);
      IndexGrows(rows, i, nodes, lists, node);
      lists := (if rows[i].id in nodes then lists - {nodes[rows[i].id].children} else lists) + {node.children};
      nodes := nodes[rows[i].id := node];
      i := i + 1;
    }
    assert rows[..i] == rows;
  }

  lemma OneMoreId(rows: seq<Row>, i: nat)
    requires i < |rows|
    ensures Ids(rows[..i + 1]) == Ids(rows[..i]) + {rows[i].id}
  {
    assert rows[..i + 1] == rows[..i] + [rows[i]];
    forall id | id in Ids(rows[..i]) + {rows[i].id}
      ensures id in Ids(rows[..i + 1])
    {
      if id in Ids(rows[..i]) {
        var k :| 0 <= k < i && rows[..i][k].id == id;
        assert rows[..i + 1][k].id == id;
      } else {
        assert rows[..i + 1][i].id == id;
      }
    }
  }

  lemma IndexGrows(rows: seq<Row>, i: nat, nodes: map<string, Node>, lists: set<NodeList>, node: Node)
    requires i < |rows| && Indexed(rows[..i], nodes, lists)
    requires node.row == rows[i] && node.children.owner == Some(rows[i].id)
    ensures Indexed(rows[..i + 1], nodes[rows[i].id := node],
                    (if rows[i].id in nodes then lists - {nodes[rows[i].id].children} else lists) + {node.children})
  {
    OneMoreId(rows, i);
    ShownSoFar(rows, i);
  }

  lemma ShownSoFar(rows: seq<Row>, i: nat)
    requires i < |rows|
    ensures forall r {:trigger Shown(rows[..i + 1], r)} | r in rows[..i + 1] ::
              if r.id == rows[i].id then Shown(rows[..i + 1], r) == rows[i]
              else r in rows[..i] && Shown(rows[..i + 1], r) == Shown(rows[..i], r)
  {
    var sofar := rows[..i + 1];
    assert sofar[..i] == rows[..i] && sofar[i] == rows[i] && sofar == rows[..i] + [rows[i]];
  }

  /** The rows so far, each in the list of its parent, or among the roots. */
  ghost predicate LinkedUpTo(rows: seq<Row>, i: nat, nodes: map<string, Node>, lists: set<NodeList>)
    requires i <= |rows|
    reads lists
  {
    forall l {:trigger l.items} | l in lists ::
      FromIndex(nodes, l.items) && RowsOf(l.items) == Belonging(rows[..i], rows, l.owner)
  }

  /** Every list is the roots' or the children's list of its owner. */
  ghost predicate OwnedLists(nodes: map<string, Node>, roots: NodeList, lists: set<NodeList>) {
    && roots in lists && roots.owner == None
    && forall l {:trigger l.owner} | l in lists && l != roots ::
         l.owner.Some? && l.owner.value in nodes && nodes[l.owner.value].children == l
  }

  lemma BelongingStep(rows: seq<Row>, i: nat, owner: Option<string>)
    requires i < |rows|
    ensures Belonging(rows[..i + 1], rows, owner)
            == Belonging(rows[..i], rows, owner) + if BelongsTo(rows[i], Ids(rows), owner) then [Shown(rows, rows[i])] else []
  {
    assert rows[..i + 1][..i] == rows[..i];
  }

  /** The one list a row's node belongs on. */
  method ParentList(rows: seq<Row>, i: nat, nodes: map<string, Node>, roots: NodeList, ghost lists: set<NodeList>)
    returns (target: NodeList)
    requires i < |rows| && Indexed(rows, nodes, lists) && OwnedLists(nodes, roots, lists)
    ensures target in lists
    ensures forall l {:trigger l.owner} | l in lists :: l == target <==> BelongsTo(rows[i], Ids(rows), l.owner)
  {
    var row := rows[i];
    target := roots;
    if row.parentId.Some? && row.parentId.value != "" && row.parentId.value in nodes {
      target := nodes[row.parentId.value].children;
      ParentIsListed(rows, nodes, lists, row.parentId.value);
    }
  }

  /** Pushing a row's node onto the one list it belongs to links one more row. */
  method LinkOne(rows: seq<Row>, i: nat, nodes: map<string, Node>, roots: NodeList, ghost lists: set<NodeList>)
    requires i < |rows| && Indexed(rows, nodes, lists) && OwnedLists(nodes, roots, lists)
    requires LinkedUpTo(rows, i, nodes, lists)
    modifies lists
    ensures LinkedUpTo(rows, i + 1, nodes, lists)
  {
    var node := nodes[rows[i].id];
    var target := ParentList(rows, i, nodes, roots, lists);
    target.Push(node);
    forall l | l in lists
      ensures FromIndex(nodes, l.items) && RowsOf(l.items) == Belonging(rows[..i + 1], rows, l.owner)
    {
      BelongingStep(rows, i, l.owner);
      assert FromIndex(nodes, old(l.items));
      if l == target {
        PushedRow(nodes, old(l.items), node);
      }
    }
  }

  lemma PushedRow(nodes: map<string, Node>, items: seq<Node>, node: Node)
    requires FromIndex(nodes, items) && node.row.id in nodes && nodes[node.row.id] == node
    ensures FromIndex(nodes, items + [node]) && RowsOf(items + [node]) == RowsOf(items) + [node.row]
  {
  }

  lemma ParentIsListed(rows: seq<Row>, nodes: map<string, Node>, lists: set<NodeList>, id: string)
    requires Indexed(rows, nodes, lists) && id in nodes
    ensures nodes[id].children in lists && nodes[id].children.owner == Some(id)
  {
    var k :| 0 <= k < |rows| && rows[k].id == id;
    assert rows[k] in rows && nodes[rows[k].id].row == Shown(rows, rows[k]);
  }

  /**
   * Builds the tree of a flat list: the result stands for `Forest(rows, le)`. The recursive sort ends also
   * when some parents form a cycle, as long as no cycle can be reached from a root; `UniqueIdsEnd` says
   * that with distinct ids none can, and `TrailsAreBoundedIffEnds` that otherwise it does not end.
   */
  method BuildCategoryTree(rows: seq<Row>, le: (string, string) -> bool)
    returns (roots: NodeList, ghost lists: set<NodeList>)
    requires Ends(rows) && TotalPreorder(le)
    ensures fresh(lists) && roots in lists
    ensures Represents(roots.items, Forest(rows, le), lists)
    ensures forall depth: nat :: OrderedTo(depth, roots.items, lists, le)
  {
    var nodes;
    nodes, lists := FillIndex(rows);
    roots := new NodeList(None);
    lists := lists + {roots};
    var i := 0;
    while i < |rows|
      invariant i <= |rows| && LinkedUpTo(rows, i, nodes, lists)
    {
      LinkOne(rows, i, nodes, roots, lists);
      i := i + 1;
    }
    assert rows[..i] == rows;
    assert AllLinked(rows, nodes, lists, le);
    SortRecursive(roots, le, rows, nodes, lists, []);
    SortedRootsRepresent(rows, nodes, lists, roots, le);
    ForestIsOrdered(rows, le);
    RepresentedIsOrdered(roots.items, Forest(rows, le), lists, le);
  }

  /** The nodes and, down to some depth, the children of every one stand in order of sort order, then name. */
  ghost predicate OrderedTo(depth: nat, items: seq<Node>, lists: set<NodeList>, le: (string, string) -> bool)
    reads lists
  {
    && (forall i, j | 0 <= i < j < |items| ::
          && items[i].row.sortOrder <= items[j].row.sortOrder
          && (items[i].row.sortOrder == items[j].row.sortOrder ==> le(items[i].row.name, items[j].row.name)))
    && (depth > 0 ==>
          forall i | 0 <= i < |items| ::
            items[i].children in lists && OrderedTo(depth - 1, items[i].children.items, lists, le))
  }

  lemma {:induction false} RepresentedEach(items: seq<Node>, forest: seq<Tree>, lists: set<NodeList>)
    requires Represents(items, forest, lists)
    ensures |items| == |forest|
    ensures forall i | 0 <= i < |items| ::
              && items[i].row == forest[i].row && items[i].children in lists
              && Represents(items[i].children.items, forest[i].children, lists)
    decreases forest
  {
    if forest != [] {
      RepresentedEach(items[1..], forest[1..], lists);
      forall i | 0 < i < |items|
        ensures items[i] == items[1..][i - 1] && forest[i] == forest[1..][i - 1]
      {
      }
    }
  }

  lemma {:induction false} OrderedToDepth(depth: nat, items: seq<Node>, forest: seq<Tree>, lists: set<NodeList>,
                                          le: (string, string) -> bool)
    requires Represents(items, forest, lists) && OrderedForest(forest, le)
    ensures OrderedTo(depth, items, lists, le)
    decreases depth
  {
    RepresentedEach(items, forest, lists);
    assert forall i | 0 <= i < |items| :: TopRows(forest)[i] == items[i].row;
    if depth > 0 {
      forall i | 0 <= i < |items|
        ensures items[i].children in lists && OrderedTo(depth - 1, items[i].children.items, lists, le)
      {
        assert forest[i] in forest;
        OrderedToDepth(depth - 1, items[i].children.items, forest[i].children, lists, le);
      }
    }
  }

  lemma RepresentedIsOrdered(items: seq<Node>, forest: seq<Tree>, lists: set<NodeList>, le: (string, string) -> bool)
    requires Represents(items, forest, lists) && OrderedForest(forest, le)
    ensures forall depth: nat :: OrderedTo(depth, items, lists, le)
  {
    forall depth: nat
      ensures OrderedTo(depth, items, lists, le)
    {
      OrderedToDepth(depth, items, forest, lists, le);
    }
  }

  lemma SortedRootsRepresent(rows: seq<Row>, nodes: map<string, Node>, lists: set<NodeList>, roots: NodeList,
                             le: (string, string) -> bool)
    requires Ends(rows) && TotalPreorder(le) && Indexed(rows, nodes, lists) && AllLinked(rows, nodes, lists, le)
    requires roots in Done(rows, lists, le) && roots.owner == None
    requires AllDoneBelow(rows, nodes, Done(rows, lists, le), Sort(Below(rows, []), le), [], le)
    ensures Represents(roots.items, Forest(rows, le), lists)
  {
    assert Linked(rows, nodes, roots, le);
    SortedBelowIsBelow(rows, [], le);
    SortedListsRepresent(rows, nodes, lists, roots.items, [], le);
  }
}

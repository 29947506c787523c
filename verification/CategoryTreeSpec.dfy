/**
 * What nesting flat category rows means: which rows are roots, which are children of which,
 * the order of siblings, and the forest that results.
 */
module CategoryTreeSpec {
  import opened Options
  import opened Text

  datatype Row = Row(id: string, parentId: Option<string>, name: string, sortOrder: int)

  datatype Tree = Tree(row: Row, children: seq<Tree>)

  /** Name collation is the platform's; all that is used of it is that it is a total preorder. */
  ghost predicate TotalPreorder(le: (string, string) -> bool) {
    && (forall a: string, b: string :: le(a, b) || le(b, a))
    && (forall a: string, b: string, c: string :: le(a, b) && le(b, c) ==> le(a, c))
  }

  predicate RowLe(a: Row, b: Row, le: (string, string) -> bool) {
    a.sortOrder < b.sortOrder || (a.sortOrder == b.sortOrder && le(a.name, b.name))
  }

  /** Insert before the first row that is not smaller: a stable sort's step. */
  function Insert(r: Row, s: seq<Row>, le: (string, string) -> bool): seq<Row> {
    if s == [] || RowLe(r, s[0], le) then [r] + s else [s[0]] + Insert(r, s[1..], le)
  }

  function Sort(s: seq<Row>, le: (string, string) -> bool): seq<Row> {
    if s == [] then [] else Insert(s[0], Sort(s[1..], le), le)
  }

  /** Ascending sort orders, and ascending names among equal ones. */
  ghost predicate InOrder(s: seq<Row>, le: (string, string) -> bool) {
    forall i, j | 0 <= i < j < |s| ::
      && s[i].sortOrder <= s[j].sortOrder
      && (s[i].sortOrder == s[j].sortOrder ==> le(s[i].name, s[j].name))
  }

  lemma {:induction false} InsertSelects(r: Row, s: seq<Row>, le: (string, string) -> bool)
    ensures multiset(Insert(r, s, le)) == multiset{r} + multiset(s)
  {
    if s != [] {
      assert s == [s[0]] + s[1..];
      InsertSelects(r, s[1..], le);
    }
  }

  lemma InOrderFromFront(r: Row, s: seq<Row>, le: (string, string) -> bool)
    ensures InOrder([r] + s, le) <==> InOrder(s, le) && forall k | 0 <= k < |s| :: RowLe(r, s[k], le)
  {
    var all := [r] + s;
    if InOrder(all, le) {
      forall i, j | 0 <= i < j < |s|
        ensures s[i].sortOrder <= s[j].sortOrder && (s[i].sortOrder == s[j].sortOrder ==> le(s[i].name, s[j].name))
      {
        assert all[i + 1] == s[i] && all[j + 1] == s[j];
      }
      forall k | 0 <= k < |s|
        ensures RowLe(r, s[k], le)
      {
        assert all[0] == r && all[k + 1] == s[k];
      }
    }
  }

  lemma {:induction false} InsertKeepsOrder(r: Row, s: seq<Row>, le: (string, string) -> bool)
    requires TotalPreorder(le) && InOrder(s, le)
    ensures InOrder(Insert(r, s, le), le)
    ensures multiset(Insert(r, s, le)) == multiset{r} + multiset(s)
  {
    InsertSelects(r, s, le);
    InOrderFromFront(r, s, le);
    if s != [] {
      var first, later := s[0], s[1..];
      assert s == [first] + later;
      InOrderFromFront(first, later, le);
      if !RowLe(r, first, le) {
        InsertKeepsOrder(r, later, le);
        var rest := Insert(r, later, le);
        forall k | 0 <= k < |rest|
          ensures RowLe(first, rest[k], le)
        {
          assert rest[k] in multiset(rest);
          assert rest[k] == r || rest[k] in later;
        }
        InOrderFromFront(first, rest, le);
      }
    }
  }

  lemma {:induction false} SortOrders(s: seq<Row>, le: (string, string) -> bool)
    requires TotalPreorder(le)
    ensures InOrder(Sort(s, le), le) && multiset(Sort(s, le)) == multiset(s)
  {
    if s != [] {
      SortOrders(s[1..], le);
      InsertKeepsOrder(s[0], Sort(s[1..], le), le);
      assert s == [s[0]] + s[1..];
    }
  }

  /** Sorting gives an ordered permutation, and leaves an ordered list as it is. */
  lemma SortSorts(s: seq<Row>, le: (string, string) -> bool)
    requires TotalPreorder(le)
    ensures InOrder(Sort(s, le), le) && multiset(Sort(s, le)) == multiset(s)
    ensures InOrder(s, le) ==> Sort(s, le) == s
  {
    SortOrders(s, le);
    if InOrder(s, le) {
      OrderedStays(s, le);
    }
  }

  lemma {:induction false} OrderedStays(s: seq<Row>, le: (string, string) -> bool)
    requires InOrder(s, le)
    ensures Sort(s, le) == s
  {
    if s != [] {
      var first, later := s[0], s[1..];
      assert s == [first] + later;
      InOrderFromFront(first, later, le);
      OrderedStays(later, le);
    }
  }

  /** Neither comes before the other. */
  predicate Tied(a: Row, b: Row, le: (string, string) -> bool) {
    a.sortOrder == b.sortOrder && le(a.name, b.name) && le(b.name, a.name)
  }

  function TiedWith(s: seq<Row>, r: Row, le: (string, string) -> bool): seq<Row> {
    if s == [] then [] else (if Tied(s[0], r, le) then [s[0]] else []) + TiedWith(s[1..], r, le)
  }

  lemma {:induction false} InsertIsStable(q: Row, s: seq<Row>, r: Row, le: (string, string) -> bool)
    requires TotalPreorder(le)
    ensures TiedWith(Insert(q, s, le), r, le) == (if Tied(q, r, le) then [q] else []) + TiedWith(s, r, le)
  {
    if s == [] || RowLe(q, s[0], le) {
      assert ([q] + s)[1..] == s;
    } else {
      InsertIsStable(q, s[1..], r, le);
      assert Insert(q, s, le)[1..] == Insert(q, s[1..], le);
      assert !(Tied(q, r, le) && Tied(s[0], r, le));
    }
  }

  /** The sort is stable: rows that tie keep the order they came in. */
  lemma {:induction false} SortIsStable(s: seq<Row>, r: Row, le: (string, string) -> bool)
    requires TotalPreorder(le)
    ensures TiedWith(Sort(s, le), r, le) == TiedWith(s, r, le)
  {
    if s != [] {
      SortIsStable(s[1..], r, le);
      InsertIsStable(s[0], Sort(s[1..], le), r, le);
    }
  }

  lemma SortIsIdempotent(s: seq<Row>, le: (string, string) -> bool)
    requires TotalPreorder(le)
    ensures Sort(Sort(s, le), le) == Sort(s, le)
    ensures |Sort(s, le)| == |s| && forall r :: r in Sort(s, le) <==> r in s
  {
    SortSorts(s, le);
    SortSorts(Sort(s, le), le);
    assert |multiset(s)| == |s| && |multiset(Sort(s, le))| == |Sort(s, le)|;
    forall r
      ensures r in Sort(s, le) <==> r in s
    {
      assert r in Sort(s, le) <==> r in multiset(Sort(s, le));
    }
  }

  // ---- Parents ------------------------------------------------------------------

  predicate UniqueIds(rows: seq<Row>) {
    forall i, j | 0 <= i < j < |rows| :: rows[i].id != rows[j].id
  }

  function Ids(rows: seq<Row>): set<string> {
    set i | 0 <= i < |rows| :: rows[i].id
  }

  /** An empty parent id counts as none. */
  predicate NamesParent(r: Row) {
    r.parentId.Some? && r.parentId.value != ""
  }

  /** A row whose parent is absent from the set is surfaced as a root. */
  predicate IsRoot(r: Row, ids: set<string>) {
    !NamesParent(r) || r.parentId.value !in ids
  }

  predicate IsChildOf(r: Row, id: string) {
    NamesParent(r) && r.parentId.value == id
  }

  /** Which list a row's node is pushed to: the roots', or the children's of some id. */
  predicate BelongsTo(r: Row, ids: set<string>, owner: Option<string>) {
    match owner
    case None => IsRoot(r, ids)
    case Some(id) => IsChildOf(r, id)
  }

  /** The last row with the id of `r`: a repeated id keeps that one, and it is the one its node shows. */
  function Shown(rows: seq<Row>, r: Row): (last: Row)
    ensures last.id == r.id
  {
    if rows == [] then r
    else if rows[|rows| - 1].id == r.id then rows[|rows| - 1]
    else Shown(rows[..|rows| - 1], r)
  }

  /** The rows shown in a list, in the order of `rows`, when `all` are the rows of the tree. */
  function Belonging(rows: seq<Row>, all: seq<Row>, owner: Option<string>): seq<Row> {
    if rows == [] then []
    else
      var r := rows[|rows| - 1];
      Belonging(rows[..|rows| - 1], all, owner) + if BelongsTo(r, Ids(all), owner) then [Shown(all, r)] else []
  }

  function Roots(rows: seq<Row>): seq<Row> {
    Belonging(rows, rows, None)
  }

  function Children(rows: seq<Row>, id: string): seq<Row> {
    Belonging(rows, rows, Some(id))
  }

  ghost predicate DistinctRows(s: seq<Row>) {
    forall i, j | 0 <= i < j < |s| :: s[i] != s[j]
  }

  lemma {:induction false} ShownIsARow(rows: seq<Row>, r: Row)
    requires r in rows
    ensures Shown(rows, r) in rows
  {
    var n := |rows| - 1;
    assert rows == rows[..n] + [rows[n]];
    if rows[n].id != r.id {
      ShownIsARow(rows[..n], r);
    }
  }

  /** Of the rows with one id it is the last. */
  lemma {:induction false} ShownIsLast(rows: seq<Row>, r: Row) returns (k: nat)
    requires r in rows
    ensures k < |rows| && rows[k] == Shown(rows, r) && rows[k].id == r.id
    ensures forall j | k < j < |rows| :: rows[j].id != r.id
  {
    var n := |rows| - 1;
    if rows[n].id == r.id {
      k := n;
    } else {
      assert rows == rows[..n] + [rows[n]];
      k := ShownIsLast(rows[..n], r);
    }
  }

  lemma {:induction false} ShownGoesById(rows: seq<Row>, r: Row, q: Row)
    requires r in rows && r.id == q.id
    ensures Shown(rows, r) == Shown(rows, q)
  {
    var n := |rows| - 1;
    assert rows == rows[..n] + [rows[n]];
    if rows[n].id != r.id {
      ShownGoesById(rows[..n], r, q);
    }
  }

  lemma SameIdSameRow(rows: seq<Row>, a: Row, b: Row)
    requires UniqueIds(rows) && a in rows && b in rows && a.id == b.id
    ensures a == b
  {
    var i :| 0 <= i < |rows| && rows[i] == a;
    var j :| 0 <= j < |rows| && rows[j] == b;
    assert i == j;
  }

  lemma ShownIfUnique(rows: seq<Row>, r: Row)
    requires UniqueIds(rows) && r in rows
    ensures Shown(rows, r) == r
  {
    ShownIsARow(rows, r);
    SameIdSameRow(rows, Shown(rows, r), r);
  }

  /** `q` is a row that belongs in the list and is shown there as `r`. */
  predicate ShownAs(rows: seq<Row>, all: seq<Row>, owner: Option<string>, q: Row, r: Row) {
    q in rows && BelongsTo(q, Ids(all), owner) && Shown(all, q) == r
  }

  lemma {:induction false} BelongingSelects(rows: seq<Row>, all: seq<Row>, owner: Option<string>, r: Row)
    ensures r in Belonging(rows, all, owner) <==> exists q :: ShownAs(rows, all, owner, q, r)
  {
    if rows != [] {
      var n := |rows| - 1;
      BelongingSelects(rows[..n], all, owner, r);
      assert rows == rows[..n] + [rows[n]];
      assert forall q :: ShownAs(rows, all, owner, q, r)
                         <==> ShownAs(rows[..n], all, owner, q, r) || (q == rows[n] && ShownAs([q], all, owner, q, r));
      if BelongsTo(rows[n], Ids(all), owner) && Shown(all, rows[n]) == r {
        assert ShownAs(rows, all, owner, rows[n], r);
      }
    }
  }

  lemma {:induction false} BelongingIfUnique(rows: seq<Row>, all: seq<Row>, owner: Option<string>)
    requires UniqueIds(all) && rows <= all
    ensures forall r :: r in Belonging(rows, all, owner) <==> r in rows && BelongsTo(r, Ids(all), owner)
    ensures DistinctRows(Belonging(rows, all, owner))
  {
    if rows != [] {
      var n := |rows| - 1;
      BelongingIfUnique(rows[..n], all, owner);
      assert rows == rows[..n] + [rows[n]];
      assert all[n] == rows[n] && rows[n] in all;
      ShownIfUnique(all, rows[n]);
      assert rows[n] !in rows[..n];
    }
  }

  // ---- Trails: the way from a root down to a row ---------------------------------

  /** The list a trail leads to. */
  function OwnerOf(trail: seq<string>): Option<string> {
    if trail == [] then None else Some(trail[|trail| - 1])
  }

  /** The rows directly below a trail, or the roots below the empty one. */
  function Below(rows: seq<Row>, trail: seq<string>): seq<Row> {
    Belonging(rows, rows, OwnerOf(trail))
  }

  /** Each id on a trail is a row directly below the trail before it. */
  ghost predicate Trail(rows: seq<Row>, trail: seq<string>)
    decreases |trail|
  {
    trail == []
    || (Trail(rows, trail[..|trail| - 1])
        && Steps(rows, trail[..|trail| - 1], trail[|trail| - 1]))
  }

  ghost predicate Steps(rows: seq<Row>, trail: seq<string>, id: string) {
    exists r :: r in Below(rows, trail) && r.id == id
  }

  ghost predicate HasTrail(rows: seq<Row>, id: string) {
    exists trail :: Trail(rows, trail) && trail != [] && trail[|trail| - 1] == id
  }

  ghost predicate Rooted(rows: seq<Row>, r: Row) {
    r in rows && HasTrail(rows, r.id)
  }

  /** What is below a trail is some row's shown form, and goes by the id of that row. */
  lemma BelowIsShown(rows: seq<Row>, trail: seq<string>, r: Row) returns (q: Row)
    requires r in Below(rows, trail)
    ensures q in rows && q.id == r.id && BelongsTo(q, Ids(rows), OwnerOf(trail))
    ensures r in rows && r.id in Ids(rows) && Shown(rows, r) == r
  {
    BelongingSelects(rows, rows, OwnerOf(trail), r);
    q :| ShownAs(rows, rows, OwnerOf(trail), q, r);
    ShownIsARow(rows, q);
    ShownGoesById(rows, q, r);
    var i :| 0 <= i < |rows| && rows[i] == q;
    assert rows[i].id in Ids(rows);
  }

  /** A row below a trail makes its id a step of the trail. */
  lemma BelongingSteps(rows: seq<Row>, trail: seq<string>, q: Row)
    requires q in rows && BelongsTo(q, Ids(rows), OwnerOf(trail))
    ensures Shown(rows, q) in Below(rows, trail) && Steps(rows, trail, q.id)
  {
    BelongingSelects(rows, rows, OwnerOf(trail), Shown(rows, q));
    assert ShownAs(rows, rows, OwnerOf(trail), q, Shown(rows, q));
  }

  lemma BelowSelects(rows: seq<Row>, trail: seq<string>)
    requires UniqueIds(rows)
    ensures DistinctRows(Below(rows, trail))
    ensures forall r :: r in Below(rows, trail) <==>
              r in rows && if trail == [] then IsRoot(r, Ids(rows)) else IsChildOf(r, trail[|trail| - 1])
  {
    BelongingIfUnique(rows, rows, OwnerOf(trail));
  }

  lemma StepRow(rows: seq<Row>, trail: seq<string>, id: string) returns (q: Row)
    requires Steps(rows, trail, id)
    ensures q in rows && q.id == id && id in Ids(rows) && BelongsTo(q, Ids(rows), OwnerOf(trail))
  {
    var r :| r in Below(rows, trail) && r.id == id;
    q := BelowIsShown(rows, trail, r);
  }

  /** There is at most one trail to a row, because a row has one parent and a root has none. */
  lemma {:induction false} TrailIsUnique(rows: seq<Row>, a: seq<string>, b: seq<string>)
    requires UniqueIds(rows) && Trail(rows, a) && Trail(rows, b) && a != [] && b != []
    requires a[|a| - 1] == b[|b| - 1]
    ensures a == b
    decreases |a|
  {
    var m, n := |a| - 1, |b| - 1;
    assert a == a[..m] + [a[m]] && b == b[..n] + [b[n]];
    var r := StepRow(rows, a[..m], a[m]);
    var q := StepRow(rows, b[..n], b[n]);
    SameIdSameRow(rows, r, q);
    if m > 0 {
      LastIsAnId(rows, a[..m]);
    }
    if n > 0 {
      LastIsAnId(rows, b[..n]);
    }
    if m > 0 && n > 0 {
      TrailIsUnique(rows, a[..m], b[..n]);
    }
  }

  lemma LastIsAnId(rows: seq<Row>, trail: seq<string>)
    requires Trail(rows, trail) && trail != []
    ensures trail[|trail| - 1] in Ids(rows)
  {
    var q := StepRow(rows, trail[..|trail| - 1], trail[|trail| - 1]);
  }

  lemma {:induction false} TrailPrefix(rows: seq<Row>, trail: seq<string>, n: nat)
    requires Trail(rows, trail) && n <= |trail|
    ensures Trail(rows, trail[..n])
    decreases |trail|
  {
    if n == |trail| {
      assert trail[..n] == trail;
    } else {
      TrailPrefix(rows, trail[..|trail| - 1], n);
      assert trail[..|trail| - 1][..n] == trail[..n];
    }
  }

  lemma {:induction false} TrailSteps(rows: seq<Row>, trail: seq<string>, n: nat)
    requires Trail(rows, trail) && n < |trail|
    ensures Steps(rows, trail[..n], trail[n])
  {
    TrailPrefix(rows, trail, n + 1);
    assert trail[..n + 1][..n] == trail[..n];
  }

  lemma TrailGoesOn(rows: seq<Row>, trail: seq<string>, id: string)
    requires Trail(rows, trail) && Steps(rows, trail, id)
    ensures Trail(rows, trail + [id])
  {
    assert (trail + [id])[..|trail|] == trail;
  }

  // ---- When the nesting ends: no closed chain of parents below a root -----------------------

  /** Some row with the second id names the first as its parent. */
  ghost predicate Names(rows: seq<Row>, parent: string, id: string) {
    exists q :: q in rows && q.id == id && IsChildOf(q, parent)
  }

  /** Each id is named as parent by the next, and the last by the first. */
  ghost predicate ClosedChain(rows: seq<Row>, chain: seq<string>) {
    chain != [] && forall i | 0 <= i < |chain| :: Names(rows, chain[i], chain[Next(chain, i)])
  }

  function Next<T>(c: seq<T>, i: nat): (j: nat)
    requires i < |c|
    ensures j < |c|
  {
    if i + 1 == |c| then 0 else i + 1
  }

  /** No id that can be reached from a root lies on a closed chain. */
  ghost predicate Ends(rows: seq<Row>) {
    forall chain {:trigger ClosedChain(rows, chain)} | ClosedChain(rows, chain) :: !HasTrail(rows, chain[0])
  }

  ghost predicate TrailsAreBounded(rows: seq<Row>) {
    exists n: nat :: NoTrailIsLonger(rows, n)
  }

  ghost predicate NoTrailIsLonger(rows: seq<Row>, n: nat) {
    forall trail {:trigger Trail(rows, trail)} | Trail(rows, trail) :: |trail| <= n
  }

  lemma StepNames(rows: seq<Row>, trail: seq<string>, k: nat)
    requires Trail(rows, trail) && 0 < k < |trail|
    ensures Names(rows, trail[k - 1], trail[k])
  {
    TrailSteps(rows, trail, k);
    var q := StepRow(rows, trail[..k], trail[k]);
    assert OwnerOf(trail[..k]) == Some(trail[k - 1]);
  }

  /** A trail that comes back to an id goes round a closed chain. */
  lemma RoundIsAChain(rows: seq<Row>, trail: seq<string>, k: nat)
    requires Trail(rows, trail) && k < |trail| - 1 && trail[k] == trail[|trail| - 1]
    ensures ClosedChain(rows, trail[k..|trail| - 1])
    ensures trail[k..|trail| - 1][0] == trail[k] && HasTrail(rows, trail[k])
  {
    var chain := trail[k..|trail| - 1];
    forall i | 0 <= i < |chain|
      ensures Names(rows, chain[i], chain[Next(chain, i)])
    {
      StepNames(rows, trail, k + i + 1);
      assert chain[i] == trail[k + i] && chain[Next(chain, i)] == trail[k + i + 1];
    }
    TrailPrefix(rows, trail, k + 1);
    assert trail[..k + 1][k] == trail[k];
  }

  /** Where the nesting ends, a trail never visits an id twice. */
  lemma TrailNeverRepeats(rows: seq<Row>, trail: seq<string>, k: nat)
    requires Ends(rows) && Trail(rows, trail) && k < |trail| - 1
    ensures trail[k] != trail[|trail| - 1]
  {
    if trail[k] == trail[|trail| - 1] {
      RoundIsAChain(rows, trail, k);
    }
  }

  lemma TrailExtends(rows: seq<Row>, trail: seq<string>, r: Row)
    requires Ends(rows) && Trail(rows, trail) && r in Below(rows, trail)
    ensures Trail(rows, trail + [r.id])
    ensures r.id in Ids(rows) && r.id !in trail
  {
    var longer := trail + [r.id];
    TrailGoesOn(rows, trail, r.id);
    LastIsAnId(rows, longer);
    forall k | 0 <= k < |trail|
      ensures trail[k] != r.id
    {
      TrailNeverRepeats(rows, longer, k);
    }
  }

  /** From an id on a closed chain a trail goes on for ever. */
  lemma {:induction false} ChainGoesOn(rows: seq<Row>, chain: seq<string>, i: nat, trail: seq<string>, n: nat)
    returns (longer: seq<string>)
    requires ClosedChain(rows, chain) && i < |chain|
    requires Trail(rows, trail) && trail != [] && trail[|trail| - 1] == chain[i]
    ensures Trail(rows, longer) && |longer| == |trail| + n
    decreases n
  {
    if n == 0 {
      longer := trail;
    } else {
      var next := chain[Next(chain, i)];
      var q :| q in rows && q.id == next && IsChildOf(q, chain[i]);
      BelongingSteps(rows, trail, q);
      TrailGoesOn(rows, trail, next);
      longer := ChainGoesOn(rows, chain, Next(chain, i), trail + [next], n - 1);
    }
  }

  lemma {:induction false} TrailVisitsNewIds(rows: seq<Row>, trail: seq<string>)
    requires Ends(rows) && Trail(rows, trail)
    ensures |Unvisited(rows, trail)| + |trail| == |Ids(rows)|
    decreases |trail|
  {
    if trail == [] {
      assert Unvisited(rows, trail) == Ids(rows);
    } else {
      var front, id := trail[..|trail| - 1], trail[|trail| - 1];
      assert trail == front + [id];
      TrailVisitsNewIds(rows, front);
      LastIsAnId(rows, trail);
      forall k | 0 <= k < |front|
        ensures front[k] != id
      {
        TrailNeverRepeats(rows, trail, k);
      }
      UnvisitedShrinks(rows, front, id);
    }
  }

  /**
   * The trails from the roots, and with them the depth of the recursion, are bounded exactly when no id
   * that can be reached from a root lies on a closed chain of parents.
   */
  lemma TrailsAreBoundedIffEnds(rows: seq<Row>)
    ensures TrailsAreBounded(rows) <==> Ends(rows)
  {
    if Ends(rows) {
      forall trail | Trail(rows, trail)
        ensures |trail| <= |Ids(rows)|
      {
        TrailVisitsNewIds(rows, trail);
      }
      assert NoTrailIsLonger(rows, |Ids(rows)|);
    } else {
      var chain :| ClosedChain(rows, chain) && HasTrail(rows, chain[0]);
      var trail :| Trail(rows, trail) && trail != [] && trail[|trail| - 1] == chain[0];
      forall n: nat
        ensures !NoTrailIsLonger(rows, n)
      {
        var longer := ChainGoesOn(rows, chain, 0, trail, n);
      }
    }
  }

  /** With distinct ids no trail leads onto a closed chain: going up it would go on for ever. */
  lemma {:induction false} NoTrailOntoAChain(rows: seq<Row>, chain: seq<string>, i: nat, trail: seq<string>)
    requires UniqueIds(rows) && ClosedChain(rows, chain) && i < |chain| && trail != [] && trail[|trail| - 1] == chain[i]
    ensures !Trail(rows, trail)
    decreases |trail|
  {
    if Trail(rows, trail) {
      var p := if i == 0 then |chain| - 1 else i - 1;
      assert Next(chain, p) == i && Names(rows, chain[p], chain[i]);
      var a :| a in rows && a.id == chain[i] && IsChildOf(a, chain[p]);
      var up := trail[..|trail| - 1];
      var r := StepRow(rows, up, chain[i]);
      SameIdSameRow(rows, r, a);
      NamedIsAnId(rows, chain, p);
      if up != [] {
        NoTrailOntoAChain(rows, chain, p, up);
      }
    }
  }

  lemma NamedIsAnId(rows: seq<Row>, chain: seq<string>, i: nat)
    requires ClosedChain(rows, chain) && i < |chain|
    ensures chain[i] in Ids(rows)
  {
    var p := if i == 0 then |chain| - 1 else i - 1;
    assert Next(chain, p) == i && Names(rows, chain[p], chain[i]);
    var q :| q in rows && q.id == chain[i] && IsChildOf(q, chain[p]);
    var k :| 0 <= k < |rows| && rows[k] == q;
    assert rows[k].id in Ids(rows);
  }

  /** Distinct ids are enough for the nesting to end, whatever the parents are. */
  lemma UniqueIdsEnd(rows: seq<Row>)
    requires UniqueIds(rows)
    ensures Ends(rows)
  {
    forall chain | ClosedChain(rows, chain)
      ensures !HasTrail(rows, chain[0])
    {
      forall trail | Trail(rows, trail) && trail != []
        ensures trail[|trail| - 1] != chain[0]
      {
        if trail[|trail| - 1] == chain[0] {
          NoTrailOntoAChain(rows, chain, 0, trail);
        }
      }
    }
  }

  lemma NobodyNamedEnds(rows: seq<Row>)
    requires forall q | q in rows :: !NamesParent(q)
    ensures Ends(rows)
  {
    forall chain
      ensures !ClosedChain(rows, chain)
    {
      if chain != [] {
        assert !Names(rows, chain[0], chain[Next(chain, 0)]);
      }
    }
  }

  /**
   * They are not needed: two equal root rows end. But a root row and a second one of the same id that
   * names itself as its parent do not.
   */
  lemma RepeatedIdMayEndOrNot(r: Row, q: Row)
    requires r.parentId.None? && q.id == r.id != "" && q.parentId == Some(r.id)
    ensures UniqueIds([q]) && !UniqueIds([r, r]) && Ends([r, r])
    ensures !Ends([r, q])
  {
    assert [r, r][0].id == [r, r][1].id;
    NobodyNamedEnds([r, r]);
    var rows := [r, q];
    assert rows[0] == r && rows[1] == q;
    BelongingSteps(rows, [], r);
    TrailGoesOn(rows, [], r.id);
    assert [] + [r.id] == [r.id];
    assert HasTrail(rows, r.id);
    assert Names(rows, r.id, r.id);
    assert ClosedChain(rows, [r.id]);
  }

  // ---- The forest ------------------------------------------------------------------

  function Unvisited(rows: seq<Row>, trail: seq<string>): set<string> {
    Ids(rows) - (set i | 0 <= i < |trail| :: trail[i])
  }

  lemma UnvisitedShrinks(rows: seq<Row>, trail: seq<string>, id: string)
    ensures Unvisited(rows, trail + [id]) == Unvisited(rows, trail) - {id}
    ensures id in Unvisited(rows, trail) ==> |Unvisited(rows, trail + [id])| < |Unvisited(rows, trail)|
  {
    var longer := trail + [id];
    var before, after := set i | 0 <= i < |trail| :: trail[i], set i | 0 <= i < |longer| :: longer[i];
    forall x
      ensures x in after <==> x in before || x == id
    {
      if x in before {
        var i :| 0 <= i < |trail| && trail[i] == x;
        assert longer[i] == x;
      }
      assert longer[|trail|] == id;
    }
  }

  /** The trees for a list of rows below a trail, siblings in list order. */
  function Grow(rows: seq<Row>, list: seq<Row>, trail: seq<string>, le: (string, string) -> bool): seq<Tree>
    decreases |Unvisited(rows, trail)|, |list|
  {
    if list == [] then []
    else
      var r := list[0];
      var children :=
        if r.id !in Unvisited(rows, trail) then []
        else (UnvisitedShrinks(rows, trail, r.id);
              Grow(rows, RowsBelow(rows, r.id, le), trail + [r.id], le));
      [Tree(r, children)] + Grow(rows, list[1..], trail, le)
  }

  function Forest(rows: seq<Row>, le: (string, string) -> bool): seq<Tree> {
    Grow(rows, Sort(Roots(rows), le), [], le)
  }

  function Flatten(forest: seq<Tree>): seq<Row> {
    if forest == [] then [] else [forest[0].row] + Flatten(forest[0].children) + Flatten(forest[1..])
  }

  ghost predicate AllBelow(rows: seq<Row>, list: seq<Row>, trail: seq<string>) {
    forall q | q in list :: q in Below(rows, trail)
  }

  /** `r` lies below the trail, through some row of the list. */
  ghost predicate Reached(rows: seq<Row>, list: seq<Row>, trail: seq<string>, r: Row) {
    exists way :: ReachedBy(rows, list, trail, r, way)
  }

  ghost predicate HasId(list: seq<Row>, id: string) {
    exists q :: q in list && q.id == id
  }

  ghost predicate ReachedBy(rows: seq<Row>, list: seq<Row>, trail: seq<string>, r: Row, way: seq<string>) {
    && r in rows && Trail(rows, way)
    && |way| > |trail| && way[..|trail|] == trail && way[|way| - 1] == r.id
    && HasId(list, way[|trail|])
  }

  function RowsBelow(rows: seq<Row>, id: string, le: (string, string) -> bool): seq<Row> {
    Sort(Children(rows, id), le)
  }

  lemma ChildrenSelect(rows: seq<Row>, id: string)
    requires UniqueIds(rows)
    ensures forall r :: r in Children(rows, id) <==> r in rows && IsChildOf(r, id)
    ensures DistinctRows(Children(rows, id))
  {
    BelongingIfUnique(rows, rows, Some(id));
  }

  lemma RowsBelowAreBelow(rows: seq<Row>, trail: seq<string>, q: Row, le: (string, string) -> bool)
    requires TotalPreorder(le)
    ensures AllBelow(rows, RowsBelow(rows, q.id, le), trail + [q.id])
    ensures UniqueIds(rows) ==> DistinctRows(RowsBelow(rows, q.id, le))
    ensures UniqueIds(rows) ==> forall r :: r in RowsBelow(rows, q.id, le) <==> r in rows && IsChildOf(r, q.id)
  {
    assert OwnerOf(trail + [q.id]) == Some(q.id);
    SortIsIdempotent(Children(rows, q.id), le);
    if UniqueIds(rows) {
      ChildrenSelect(rows, q.id);
      SortKeepsDistinct(Children(rows, q.id), le);
    }
  }

  lemma {:induction false} FirstIsReached(rows: seq<Row>, list: seq<Row>, trail: seq<string>)
    requires UniqueIds(rows) && Trail(rows, trail) && list != [] && AllBelow(rows, list, trail)
    ensures Reached(rows, list, trail, list[0])
  {
    var q := list[0];
    assert q in list;
    BelowSelects(rows, trail);
    UniqueIdsEnd(rows);
    TrailExtends(rows, trail, q);
    assert (trail + [q.id])[..|trail|] == trail;
    assert HasId(list, q.id);
    assert ReachedBy(rows, list, trail, q, trail + [q.id]);
  }

  lemma {:induction false} ReachedThroughFirst(rows: seq<Row>, list: seq<Row>, trail: seq<string>, r: Row, below: seq<Row>)
    requires list != [] && Reached(rows, below, trail + [list[0].id], r)
    ensures Reached(rows, list, trail, r)
  {
    var longer := trail + [list[0].id];
    var way :| ReachedBy(rows, below, longer, r, way);
    assert way[..|trail|] == way[..|longer|][..|trail|] == trail;
    assert way[|trail|] == way[..|longer|][|trail|] == list[0].id;
    assert list[0] in list && HasId(list, way[|trail|]);
    assert ReachedBy(rows, list, trail, r, way);
  }

  lemma {:induction false} ReachedThroughLater(rows: seq<Row>, list: seq<Row>, trail: seq<string>, r: Row)
    requires list != [] && Reached(rows, list[1..], trail, r)
    ensures Reached(rows, list, trail, r)
  {
    var way :| ReachedBy(rows, list[1..], trail, r, way);
    assert list == [list[0]] + list[1..];
    var q :| q in list[1..] && q.id == way[|trail|];
    assert q in list && HasId(list, way[|trail|]);
    assert ReachedBy(rows, list, trail, r, way);
  }

  lemma {:induction false} ReachedComesFrom(rows: seq<Row>, list: seq<Row>, trail: seq<string>, r: Row, le: (string, string) -> bool)
    requires UniqueIds(rows) && TotalPreorder(le) && list != [] && list[0] in rows
    requires Reached(rows, list, trail, r)
    ensures || r == list[0]
            || Reached(rows, RowsBelow(rows, list[0].id, le), trail + [list[0].id], r)
            || Reached(rows, list[1..], trail, r)
  {
    var q := list[0];
    var way :| ReachedBy(rows, list, trail, r, way);
    if way[|trail|] != q.id {
      var x :| x in list && x.id == way[|trail|];
      assert x in list[1..] && HasId(list[1..], way[|trail|]);
      assert ReachedBy(rows, list[1..], trail, r, way);
    } else if |way| == |trail| + 1 {
      SameIdSameRow(rows, r, q);
    } else {
      WayContinues(rows, trail, q, r, way, le);
    }
  }

  lemma {:induction false} WayContinues(rows: seq<Row>, trail: seq<string>, q: Row, r: Row, way: seq<string>, le: (string, string) -> bool)
    requires UniqueIds(rows) && TotalPreorder(le) && r in rows && Trail(rows, way)
    requires |way| > |trail| + 1 && way[..|trail|] == trail && way[|trail|] == q.id && way[|way| - 1] == r.id
    ensures Reached(rows, RowsBelow(rows, q.id, le), trail + [q.id], r)
  {
    var n := |trail| + 1;
    assert way[..n] == trail + [q.id];
    TrailSteps(rows, way, n);
    StepsHasId(rows, trail, q, way[n], le);
    assert ReachedBy(rows, RowsBelow(rows, q.id, le), trail + [q.id], r, way);
  }

  lemma StepsHasId(rows: seq<Row>, trail: seq<string>, q: Row, id: string, le: (string, string) -> bool)
    requires UniqueIds(rows) && TotalPreorder(le) && Steps(rows, trail + [q.id], id)
    ensures HasId(RowsBelow(rows, q.id, le), id)
  {
    ChildrenSelect(rows, q.id);
    RowsBelowAreBelow(rows, trail, q, le);
  }

  /** What is reached is the first row, what lies below it, and what the later rows reach. */
  lemma {:induction false} ReachedSplits(rows: seq<Row>, list: seq<Row>, trail: seq<string>, r: Row, le: (string, string) -> bool)
    requires UniqueIds(rows) && Trail(rows, trail) && TotalPreorder(le) && list != [] && AllBelow(rows, list, trail)
    ensures Reached(rows, list, trail, r) <==>
              || r == list[0]
              || Reached(rows, RowsBelow(rows, list[0].id, le), trail + [list[0].id], r)
              || Reached(rows, list[1..], trail, r)
  {
    BelowSelects(rows, trail);
    assert list[0] in list;
    FirstIsReached(rows, list, trail);
    if Reached(rows, list, trail, r) {
      ReachedComesFrom(rows, list, trail, r, le);
    }
    if Reached(rows, RowsBelow(rows, list[0].id, le), trail + [list[0].id], r) {
      ReachedThroughFirst(rows, list, trail, r, RowsBelow(rows, list[0].id, le));
    }
    if Reached(rows, list[1..], trail, r) {
      ReachedThroughLater(rows, list, trail, r);
    }
  }

  /** The parts are disjoint, because the trail to a row is unique. */
  lemma {:induction false} PartsAreDisjoint(rows: seq<Row>, list: seq<Row>, trail: seq<string>, r: Row, below: seq<Row>)
    requires UniqueIds(rows) && Trail(rows, trail) && DistinctRows(list) && list != [] && AllBelow(rows, list, trail)
    ensures var inside := Reached(rows, below, trail + [list[0].id], r);
            var after := Reached(rows, list[1..], trail, r);
            !(r == list[0] && inside) && !(r == list[0] && after) && !(inside && after)
  {
    var q := list[0];
    var longer := trail + [q.id];
    assert q in list;
    BelowSelects(rows, trail);
    UniqueIdsEnd(rows);
    TrailExtends(rows, trail, q);
    if Reached(rows, below, longer, r) {
      var way :| ReachedBy(rows, below, longer, r, way);
      if r == q {
        TrailIsUnique(rows, way, longer);
      }
      NotAmongLater(rows, list, trail, r, way);
    }
    if r == q {
      NotAmongLater(rows, list, trail, r, longer);
    }
  }

  lemma {:induction false} NotAmongLater(rows: seq<Row>, list: seq<Row>, trail: seq<string>, r: Row, way: seq<string>)
    requires UniqueIds(rows) && Trail(rows, way) && DistinctRows(list) && list != [] && AllBelow(rows, list, trail)
    requires |way| > |trail| && way[..|trail| + 1] == trail + [list[0].id] && way[|way| - 1] == r.id
    ensures !Reached(rows, list[1..], trail, r)
  {
    forall other
      ensures !ReachedBy(rows, list[1..], trail, r, other)
    {
      if ReachedBy(rows, list[1..], trail, r, other) {
        TrailIsUnique(rows, way, other);
        BelowSelects(rows, trail);
        assert way[|trail|] == way[..|trail| + 1][|trail|] == list[0].id;
        LaterRowsDiffer(rows, list);
      }
    }
  }

  lemma LaterRowsDiffer(rows: seq<Row>, list: seq<Row>)
    requires UniqueIds(rows) && DistinctRows(list) && list != []
    requires forall q | q in list :: q in rows
    ensures !HasId(list[1..], list[0].id)
  {
    forall k | 0 <= k < |list[1..]|
      ensures list[1..][k].id != list[0].id
    {
      assert list[k + 1] in list && list[0] in list && list[k + 1] != list[0];
      if list[k + 1].id == list[0].id {
        SameIdSameRow(rows, list[k + 1], list[0]);
      }
    }
  }

  lemma DistinctConcat(a: seq<Row>, b: seq<Row>)
    requires DistinctRows(a) && DistinctRows(b)
    requires forall r :: !(r in a && r in b)
    ensures DistinctRows(a + b)
  {
    var whole := a + b;
    forall i, j | 0 <= i < j < |whole|
      ensures whole[i] != whole[j]
    {
      if i < |a| <= j {
        assert a[i] in a && b[j - |a|] in b;
      }
    }
  }

  lemma {:induction false} GrowUnfolds(rows: seq<Row>, list: seq<Row>, trail: seq<string>, le: (string, string) -> bool)
    requires list != [] && list[0].id in Unvisited(rows, trail)
    ensures Grow(rows, list, trail, le)
            == [Tree(list[0], Grow(rows, RowsBelow(rows, list[0].id, le), trail + [list[0].id], le))]
               + Grow(rows, list[1..], trail, le)
    ensures Flatten(Grow(rows, list, trail, le))
            == [list[0]] + Flatten(Grow(rows, RowsBelow(rows, list[0].id, le), trail + [list[0].id], le))
               + Flatten(Grow(rows, list[1..], trail, le))
  {
    UnvisitedShrinks(rows, trail, list[0].id);
    var first := Tree(list[0], Grow(rows, RowsBelow(rows, list[0].id, le), trail + [list[0].id], le));
    var later := Grow(rows, list[1..], trail, le);
    assert Grow(rows, list, trail, le) == [first] + later;
    assert ([first] + later)[1..] == later;
  }

  ghost predicate Holds(rows: seq<Row>, list: seq<Row>, trail: seq<string>, flat: seq<Row>) {
    DistinctRows(flat) && forall r :: r in flat <==> Reached(rows, list, trail, r)
  }

  lemma {:induction false} HoldsJoins(rows: seq<Row>, list: seq<Row>, trail: seq<string>, inside: seq<Row>, after: seq<Row>,
                   le: (string, string) -> bool)
    requires UniqueIds(rows) && Trail(rows, trail) && TotalPreorder(le) && DistinctRows(list) && list != []
    requires AllBelow(rows, list, trail)
    requires Holds(rows, RowsBelow(rows, list[0].id, le), trail + [list[0].id], inside)
    requires Holds(rows, list[1..], trail, after)
    ensures Holds(rows, list, trail, [list[0]] + inside + after)
  {
    forall r
      ensures r in [list[0]] + inside + after <==> Reached(rows, list, trail, r)
      ensures !(r in [list[0]] && r in inside) && !(r in [list[0]] + inside && r in after)
    {
      ReachedSplits(rows, list, trail, r, le);
      PartsAreDisjoint(rows, list, trail, r, RowsBelow(rows, list[0].id, le));
    }
    DistinctConcat([list[0]], inside);
    DistinctConcat([list[0]] + inside, after);
  }

  /** The trees grown below a trail hold exactly the rows reached, each once. */
  lemma {:induction false} GrowHoldsReachedRows(rows: seq<Row>, list: seq<Row>, trail: seq<string>,
                                                le: (string, string) -> bool)
    requires UniqueIds(rows) && TotalPreorder(le) && Trail(rows, trail) && DistinctRows(list)
    requires AllBelow(rows, list, trail)
    ensures Holds(rows, list, trail, Flatten(Grow(rows, list, trail, le)))
    decreases |Unvisited(rows, trail)|, |list|
  {
    if list != [] {
      var q := list[0];
      assert q in list;
      UniqueIdsEnd(rows);
      TrailExtends(rows, trail, q);
      UnvisitedShrinks(rows, trail, q.id);
      RowsBelowAreBelow(rows, trail, q, le);
      GrowHoldsReachedRows(rows, RowsBelow(rows, q.id, le), trail + [q.id], le);
      GrowHoldsReachedRows(rows, list[1..], trail, le);
      GrowUnfolds(rows, list, trail, le);
      HoldsJoins(rows, list, trail, Flatten(Grow(rows, RowsBelow(rows, q.id, le), trail + [q.id], le)),
                 Flatten(Grow(rows, list[1..], trail, le)), le);
    }
  }

  lemma SortKeepsDistinct(s: seq<Row>, le: (string, string) -> bool)
    requires TotalPreorder(le) && DistinctRows(s)
    ensures DistinctRows(Sort(s, le))
  {
    SortSorts(s, le);
    DistinctMultiset(s);
    MultisetDistinct(Sort(s, le));
  }

  lemma {:induction false} DistinctMultiset(s: seq<Row>)
    requires DistinctRows(s)
    ensures forall r :: multiset(s)[r] <= 1
  {
    if s != [] {
      DistinctMultiset(s[1..]);
      assert s == [s[0]] + s[1..];
      assert s[0] !in s[1..];
    }
  }

  lemma MultisetDistinct(s: seq<Row>)
    requires forall r :: multiset(s)[r] <= 1
    ensures DistinctRows(s)
  {
    forall i, j | 0 <= i < j < |s|
      ensures s[i] != s[j]
    {
      assert s == s[..j] + [s[j]] + s[j + 1..];
      assert s[..j][i] == s[i];
      assert s[i] in multiset(s[..j]);
      assert multiset(s) == multiset(s[..j]) + multiset{s[j]} + multiset(s[j + 1..]);
      assert multiset(s)[s[i]] <= 1;
    }
  }

  /** The forest holds exactly the rows that have a trail from a root, each once. */
  lemma ForestHoldsRootedRows(rows: seq<Row>, le: (string, string) -> bool)
    requires UniqueIds(rows) && TotalPreorder(le)
    ensures DistinctRows(Flatten(Forest(rows, le)))
    ensures forall r :: r in Flatten(Forest(rows, le)) <==> Rooted(rows, r)
  {
    var roots := Roots(rows);
    BelowSelects(rows, []);
    SortIsIdempotent(roots, le);
    SortKeepsDistinct(roots, le);
    GrowHoldsReachedRows(rows, Sort(roots, le), [], le);
    forall r
      ensures Reached(rows, Sort(roots, le), [], r) <==> Rooted(rows, r)
    {
      if Rooted(rows, r) {
        var trail :| Trail(rows, trail) && trail != [] && trail[|trail| - 1] == r.id;
        TrailSteps(rows, trail, 0);
        assert trail[..0] == [];
        assert ReachedBy(rows, Sort(roots, le), [], r, trail);
      }
    }
  }

  // ---- Nesting: every child under its own parent ------------------------------------

  function TopRows(forest: seq<Tree>): seq<Row> {
    seq(|forest|, i requires 0 <= i < |forest| => forest[i].row)
  }

  /** The list of rows on top, and below each exactly the rows that name it as parent, in order. */
  ghost predicate Nested(rows: seq<Row>, forest: seq<Tree>, list: seq<Row>, le: (string, string) -> bool)
    decreases forest
  {
    if forest == [] then list == []
    else
      && list != [] && forest[0].row == list[0]
      && Nested(rows, forest[0].children, RowsBelow(rows, list[0].id, le), le)
      && Nested(rows, forest[1..], list[1..], le)
  }

  lemma {:induction false} NestedHasTopRows(rows: seq<Row>, forest: seq<Tree>, list: seq<Row>, le: (string, string) -> bool)
    requires Nested(rows, forest, list, le)
    ensures TopRows(forest) == list
  {
    if forest != [] {
      NestedHasTopRows(rows, forest[1..], list[1..], le);
      assert forest == [forest[0]] + forest[1..] && list == [list[0]] + list[1..];
      assert TopRows(forest) == [forest[0].row] + TopRows(forest[1..]);
    }
  }

  lemma {:induction false} GrowIsNested(rows: seq<Row>, list: seq<Row>, trail: seq<string>,
                                        le: (string, string) -> bool)
    requires Ends(rows) && TotalPreorder(le) && Trail(rows, trail) && AllBelow(rows, list, trail)
    ensures Nested(rows, Grow(rows, list, trail, le), list, le)
    decreases |Unvisited(rows, trail)|, |list|
  {
    if list != [] {
      var q := list[0];
      assert q in list;
      TrailExtends(rows, trail, q);
      UnvisitedShrinks(rows, trail, q.id);
      RowsBelowAreBelow(rows, trail, q, le);
      GrowIsNested(rows, RowsBelow(rows, q.id, le), trail + [q.id], le);
      GrowIsNested(rows, list[1..], trail, le);
      GrowUnfolds(rows, list, trail, le);
      NestedJoins(rows, Tree(q, Grow(rows, RowsBelow(rows, q.id, le), trail + [q.id], le)),
                  Grow(rows, list[1..], trail, le), list, le);
    }
  }

  lemma {:induction false} NestedJoins(rows: seq<Row>, first: Tree, later: seq<Tree>, list: seq<Row>,
                                       le: (string, string) -> bool)
    requires list != [] && first.row == list[0]
    requires Nested(rows, first.children, RowsBelow(rows, first.row.id, le), le)
    requires Nested(rows, later, list[1..], le)
    ensures Nested(rows, [first] + later, list, le)
  {
    assert ([first] + later)[1..] == later;
  }

  /** The roots are the rows whose parent is null or absent, and everything is nested below them in order. */
  lemma ForestIsNested(rows: seq<Row>, le: (string, string) -> bool)
    requires Ends(rows) && TotalPreorder(le)
    ensures Nested(rows, Forest(rows, le), Sort(Roots(rows), le), le)
    ensures forall r :: r in TopRows(Forest(rows, le)) <==> exists q :: ShownAs(rows, rows, None, q, r)
    ensures UniqueIds(rows) ==>
              forall r :: r in TopRows(Forest(rows, le)) <==>
                            r in rows && (r.parentId in {None, Some("")} || forall q | q in rows :: r.parentId != Some(q.id))
    ensures InOrder(TopRows(Forest(rows, le)), le)
  {
    SortIsIdempotent(Roots(rows), le);
    SortSorts(Roots(rows), le);
    GrowIsNested(rows, Sort(Roots(rows), le), [], le);
    NestedHasTopRows(rows, Forest(rows, le), Sort(Roots(rows), le), le);
    forall r
      ensures r in Roots(rows) <==> exists q :: ShownAs(rows, rows, None, q, r)
    {
      BelongingSelects(rows, rows, None, r);
    }
    if UniqueIds(rows) {
      BelowSelects(rows, []);
      forall r
        ensures IsRoot(r, Ids(rows)) <==> r.parentId in {None, Some("")} || forall q | q in rows :: r.parentId != Some(q.id)
      {
        RootNamesNobody(rows, r);
      }
    }
  }

  lemma RootNamesNobody(rows: seq<Row>, r: Row)
    ensures IsRoot(r, Ids(rows)) <==> r.parentId in {None, Some("")} || forall q | q in rows :: r.parentId != Some(q.id)
  {
    if r.parentId.Some? && r.parentId.value in Ids(rows) {
      var k :| 0 <= k < |rows| && rows[k].id == r.parentId.value;
      assert rows[k] in rows;
    }
    if q :| q in rows && r.parentId == Some(q.id) {
      var k :| 0 <= k < |rows| && rows[k] == q;
      assert q.id in Ids(rows);
    }
  }

  /** Every list of siblings, at any depth, in ascending order. */
  ghost predicate OrderedForest(forest: seq<Tree>, le: (string, string) -> bool) {
    InOrder(TopRows(forest), le) && forall t | t in forest :: OrderedForest(t.children, le)
  }

  lemma {:induction false} NestedIsOrdered(rows: seq<Row>, forest: seq<Tree>, list: seq<Row>, le: (string, string) -> bool)
    requires TotalPreorder(le) && Nested(rows, forest, list, le) && InOrder(list, le)
    ensures OrderedForest(forest, le)
    decreases forest
  {
    NestedHasTopRows(rows, forest, list, le);
    if forest != [] {
      SortSorts(Children(rows, list[0].id), le);
      NestedIsOrdered(rows, forest[0].children, RowsBelow(rows, list[0].id, le), le);
      NestedIsOrdered(rows, forest[1..], list[1..], le);
      assert forall t | t in forest :: t == forest[0] || t in forest[1..];
    }
  }

  lemma ForestIsOrdered(rows: seq<Row>, le: (string, string) -> bool)
    requires Ends(rows) && TotalPreorder(le)
    ensures OrderedForest(Forest(rows, le), le)
  {
    ForestIsNested(rows, le);
    SortSorts(Roots(rows), le);
    NestedIsOrdered(rows, Forest(rows, le), Sort(Roots(rows), le), le);
  }

  /**
   * What lies directly below an id, in order: the shown forms of exactly the rows that name it as parent.
   * With distinct ids these are the rows themselves, each once.
   */
  lemma SiblingsAreChildrenInOrder(rows: seq<Row>, id: string, le: (string, string) -> bool)
    requires TotalPreorder(le)
    ensures forall r :: r in RowsBelow(rows, id, le) <==> exists q :: ShownAs(rows, rows, Some(id), q, r)
    ensures InOrder(RowsBelow(rows, id, le), le)
    ensures UniqueIds(rows) ==>
              && DistinctRows(RowsBelow(rows, id, le))
              && forall r :: r in RowsBelow(rows, id, le) <==> r in rows && id != "" && r.parentId == Some(id)
  {
    SortIsIdempotent(Children(rows, id), le);
    SortSorts(Children(rows, id), le);
    forall r
      ensures r in Children(rows, id) <==> exists q :: ShownAs(rows, rows, Some(id), q, r)
    {
      BelongingSelects(rows, rows, Some(id), r);
    }
    if UniqueIds(rows) {
      ChildrenSelect(rows, id);
      SortKeepsDistinct(Children(rows, id), le);
    }
  }

  // ---- Which rows are lost: those on or below a cycle of parents ---------------------

  /** Each row is the child of the next, and the last the child of the first. */
  ghost predicate Cycle(rows: seq<Row>, c: seq<Row>) {
    && c != []
    && (forall i | 0 <= i < |c| :: c[i] in rows)
    && (forall i | 0 <= i < |c| :: IsChildOf(c[i], c[Next(c, i)].id))
  }

  /** Going up a trail from a row on a cycle would go on for ever. */
  lemma {:induction false} NoTrailOntoACycle(rows: seq<Row>, c: seq<Row>, i: nat, trail: seq<string>)
    requires UniqueIds(rows) && Cycle(rows, c) && i < |c| && trail != [] && trail[|trail| - 1] == c[i].id
    ensures !Trail(rows, trail)
    decreases |trail|
  {
    if Trail(rows, trail) {
      var up := trail[..|trail| - 1];
      BelowSelects(rows, up);
      var r :| r in Below(rows, up) && r.id == trail[|trail| - 1];
      SameIdSameRow(rows, r, c[i]);
      var above := c[Next(c, i)];
      var k :| 0 <= k < |rows| && rows[k] == above;
      assert rows[k].id in Ids(rows);
      NoTrailOntoACycle(rows, c, Next(c, i), up);
    }
  }

  /** Each row is the child of the next. */
  ghost predicate Climb(rows: seq<Row>, c: seq<Row>) {
    && (forall i | 0 <= i < |c| :: c[i] in rows && !Rooted(rows, c[i]))
    && (forall i | 0 <= i < |c| - 1 :: IsChildOf(c[i], c[i + 1].id))
  }

  /** A row without a trail has a parent without a trail, so one can climb for ever. */
  lemma {:induction false} UnrootedClimbs(rows: seq<Row>, r: Row, n: nat) returns (c: seq<Row>)
    requires UniqueIds(rows) && r in rows && !Rooted(rows, r) && n > 0
    ensures |c| == n && c[0] == r && Climb(rows, c)
    decreases n
  {
    if n == 1 {
      c := [r];
    } else {
      var p := UnrootedParent(rows, r);
      var rest := UnrootedClimbs(rows, p, n - 1);
      c := [r] + rest;
    }
  }

  lemma RootedBelow(rows: seq<Row>, trail: seq<string>, r: Row)
    requires UniqueIds(rows) && Trail(rows, trail) && r in Below(rows, trail)
    ensures Rooted(rows, r)
  {
    BelowSelects(rows, trail);
    UniqueIdsEnd(rows);
    TrailExtends(rows, trail, r);
    var longer := trail + [r.id];
    assert Trail(rows, longer) && longer[|longer| - 1] == r.id;
  }

  lemma {:induction false} UnrootedParent(rows: seq<Row>, r: Row) returns (p: Row)
    requires UniqueIds(rows) && r in rows && !Rooted(rows, r)
    ensures p in rows && !Rooted(rows, p) && IsChildOf(r, p.id)
  {
    BelowSelects(rows, []);
    if IsRoot(r, Ids(rows)) {
      RootedBelow(rows, [], r);
    }
    var i :| 0 <= i < |rows| && rows[i].id == r.parentId.value;
    p := rows[i];
    if Rooted(rows, p) {
      var trail :| Trail(rows, trail) && trail != [] && trail[|trail| - 1] == p.id;
      BelowSelects(rows, trail);
      RootedBelow(rows, trail, r);
    }
  }

  /** More places than values: some value is met twice. */
  lemma {:induction false} Pigeonhole(c: seq<Row>, values: set<Row>) returns (i: nat, j: nat)
    requires |c| > |values| && forall k | 0 <= k < |c| :: c[k] in values
    ensures i < j < |c| && c[i] == c[j]
    decreases |c|
  {
    if k :| 1 <= k < |c| && c[k] == c[0] {
      i, j := 0, k;
    } else {
      var x, y := Pigeonhole(c[1..], values - {c[0]});
      i, j := x + 1, y + 1;
    }
  }

  lemma {:induction false} RowsAreFew(rows: seq<Row>)
    ensures |set r | r in rows| <= |rows|
  {
    if rows != [] {
      var n := |rows| - 1;
      RowsAreFew(rows[..n]);
      assert rows == rows[..n] + [rows[n]];
      assert (set r | r in rows) == (set r | r in rows[..n]) + {rows[n]};
    }
  }

  lemma ClimbMeetsACycle(rows: seq<Row>, c: seq<Row>) returns (cycle: seq<Row>)
    requires UniqueIds(rows) && Climb(rows, c) && |c| > |rows|
    ensures Cycle(rows, cycle)
  {
    RowsAreFew(rows);
    var i, j := Pigeonhole(c, set r | r in rows);
    cycle := c[i..j];
    forall k | 0 <= k < |cycle|
      ensures cycle[k] in rows && IsChildOf(cycle[k], cycle[Next(cycle, k)].id)
    {
      assert cycle[k] == c[i + k] && IsChildOf(c[i + k], c[i + k + 1].id);
    }
  }

  /** Every row appears in the forest exactly when no rows form a cycle of parents. */
  lemma NothingLostIffAcyclic(rows: seq<Row>, le: (string, string) -> bool)
    requires UniqueIds(rows) && TotalPreorder(le)
    ensures (forall r :: r in Flatten(Forest(rows, le)) <==> r in rows) <==> !exists c :: Cycle(rows, c)
  {
    ForestHoldsRootedRows(rows, le);
    forall c: seq<Row> | Cycle(rows, c)
      ensures c[0] in rows && !Rooted(rows, c[0])
    {
      forall trail: seq<string> | trail != [] && trail[|trail| - 1] == c[0].id
        ensures !Trail(rows, trail)
      {
        NoTrailOntoACycle(rows, c, 0, trail);
      }
    }
    if r :| r in rows && !Rooted(rows, r) {
      var climb := UnrootedClimbs(rows, r, |rows| + 1);
      var cycle := ClimbMeetsACycle(rows, climb);
    }
  }
}

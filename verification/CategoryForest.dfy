/**
 * The category table as a value, the forest invariant on it, and what the
 * three tree operations do to it.
 */
module CategoryForest {
  import opened Options
  import opened TreePath

  datatype Row = Row(code: string, slug: string, parent: Option<Id>, path: string, depth: nat, deleted: bool)

  type Table = map<Id, Row>

  predicate Live(t: Table, id: Id) {
    id in t && !t[id].deleted
  }

  /** The row's stored path and depth say where its parent pointer puts it. */
  ghost predicate WellPlaced(t: Table, id: Id)
    requires Live(t, id)
  {
    var row := t[id];
    && row.depth == DepthOf(row.path)
    && match row.parent
       case None => row.path == [SEPARATOR] + id + [SEPARATOR]
       case Some(p) => Live(t, p) && row.path == t[p].path + id + [SEPARATOR]
  }

  /** The representation invariant: every live row is well placed. */
  ghost predicate Forest(t: Table) {
    forall id: Id {:trigger WellPlaced(t, id)} | Live(t, id) :: WellPlaced(t, id)
  }

  /** Codes and slugs are unique over all rows, deleted ones included (unique indexes). */
  ghost predicate UniqueKeys(t: Table) {
    forall x: Id, y: Id | x in t && y in t && x != y :: t[x].code != t[y].code && t[x].slug != t[y].slug
  }

  // ---- Ancestry through parent pointers -----------------------------------

  /** The `n`-th row above `id`, following parent pointers of live rows. */
  ghost function Up(t: Table, id: Id, n: nat): Option<Id>
    decreases n
  {
    if n == 0 then Some(id)
    else if !Live(t, id) || t[id].parent.None? then None
    else Up(t, t[id].parent.value, n - 1)
  }

  ghost predicate AncestorOrSelf(t: Table, a: Id, m: Id) {
    exists n: nat :: Up(t, m, n) == Some(a)
  }

  ghost predicate Acyclic(t: Table) {
    forall id: Id, n: nat | n > 0 :: Up(t, id, n) != Some(id)
  }

  lemma {:induction false} UpAdds(t: Table, id: Id, m: nat, n: nat)
    requires Up(t, id, m).Some?
    ensures Up(t, id, m + n) == Up(t, Up(t, id, m).value, n)
    decreases m
  {
    if m > 0 {
      UpAdds(t, t[id].parent.value, m - 1, n);
    }
  }

  // ---- Paths are unambiguous ----------------------------------------------

  /** A live path ends in its own id between two separators, and the id holds none. */
  lemma {:induction false} PathShape(t: Table, id: Id)
    requires Forest(t) && Live(t, id)
    ensures var p := t[id].path; |p| >= |id| + 2 && p[0] == SEPARATOR && p[|p| - 1] == SEPARATOR
    ensures t[id].path[|t[id].path| - 1 - |id|..|t[id].path| - 1] == id
    ensures t[id].path[|t[id].path| - 2 - |id|] == SEPARATOR
    ensures forall k | |t[id].path| - 1 - |id| <= k < |t[id].path| - 1 :: t[id].path[k] != SEPARATOR
    decreases |t[id].path|
  {
    assert WellPlaced(t, id);
    var stem := [SEPARATOR];
    if t[id].parent.Some? {
      PathShape(t, t[id].parent.value);
      stem := t[t[id].parent.value].path;
    }
    var p := t[id].path;
    assert p == stem + id + [SEPARATOR];
    forall k | |stem| <= k < |p| - 1
      ensures p[k] != SEPARATOR
    {
      assert p[k] == id[k - |stem|];
    }
  }

  /** Two live rows with the same path are the same row. */
  lemma PathIsInjective(t: Table, a: Id, m: Id)
    requires Forest(t) && Live(t, a) && Live(t, m) && t[a].path == t[m].path
    ensures a == m
  {
    PathShape(t, a);
    PathShape(t, m);
    assert |a| == |m|;
  }

  /** A live path that is a prefix of `m`'s path, and not all of it, is a prefix of the parent's. */
  lemma PrefixOfParent(t: Table, a: Id, m: Id)
    requires Forest(t) && Live(t, a) && Live(t, m) && a != m && t[a].path <= t[m].path
    ensures t[m].parent.Some? && Live(t, t[m].parent.value) && t[a].path <= t[t[m].parent.value].path
  {
    PathShape(t, a);
    PathShape(t, m);
    assert WellPlaced(t, m);
    var pa, pm := t[a].path, t[m].path;
    if |pa| == |pm| {
      PathIsInjective(t, a, m);
    }
    var stem := if t[m].parent.None? then [SEPARATOR] else t[t[m].parent.value].path;
    assert pm == stem + m + [SEPARATOR];
    assert pa[|pa| - 1] == pm[|pa| - 1];
    assert |pa| <= |stem|;
    assert pa == pm[..|pa|] == stem[..|pa|];
  }

  /** The path test the service uses decides ancestry, for every pair of live rows. */
  lemma {:induction false} PrefixIsAncestry(t: Table, a: Id, m: Id)
    requires Forest(t) && Live(t, a) && Live(t, m)
    ensures t[a].path <= t[m].path <==> AncestorOrSelf(t, a, m)
    decreases |t[m].path|
  {
    assert WellPlaced(t, m);
    if a == m {
      assert Up(t, m, 0) == Some(a);
    } else {
      if t[m].parent.Some? {
        PrefixIsAncestry(t, a, t[m].parent.value);
      }
      if t[a].path <= t[m].path {
        PrefixOfParent(t, a, m);
        var n: nat :| Up(t, t[m].parent.value, n) == Some(a);
        assert Up(t, m, n + 1) == Some(a);
      }
      if AncestorOrSelf(t, a, m) {
        var n: nat :| Up(t, m, n) == Some(a);
        assert n > 0 && t[m].parent.Some?;
        assert Up(t, t[m].parent.value, n - 1) == Some(a);
        assert t[t[m].parent.value].path <= t[m].path;
      }
    }
  }

  lemma {:induction false} UpShortens(t: Table, id: Id, n: nat)
    requires Forest(t) && Live(t, id) && Up(t, id, n).Some?
    ensures Live(t, Up(t, id, n).value)
    ensures |t[Up(t, id, n).value].path| + n <= |t[id].path|
    decreases n
  {
    assert WellPlaced(t, id);
    if n > 0 {
      UpShortens(t, t[id].parent.value, n - 1);
    }
  }

  lemma ForestIsAcyclic(t: Table)
    requires Forest(t)
    ensures Acyclic(t)
  {
    forall id: Id, n: nat | n > 0
      ensures Up(t, id, n) != Some(id)
    {
      if Up(t, id, n) == Some(id) {
        UpShortens(t, id, n);
      }
    }
  }

  // ---- The path as the chain of ancestor ids ------------------------------

  /** Ancestor ids, root first, ending in the row itself. */
  ghost function Chain(t: Table, id: Id): (chain: seq<string>)
    requires Forest(t) && Live(t, id)
    ensures |chain| >= 1 && chain[|chain| - 1] == id
    decreases |t[id].path|
  {
    assert WellPlaced(t, id);
    match t[id].parent
    case None => [id]
    case Some(p) => Chain(t, p) + [id]
  }

  /** `ancestorIdsOf`: cutting the path at the dots gives the chain, and depth counts it. */
  lemma {:induction false} PathPartsAreTheChain(t: Table, id: Id)
    requires Forest(t) && Live(t, id)
    ensures Parts(t[id].path) == Chain(t, id)
    ensures t[id].depth == |Chain(t, id)| - 1
    decreases |t[id].path|
  {
    assert WellPlaced(t, id);
    match t[id].parent
    case None => PartsOfRoot(id);
    case Some(p) =>
      PathPartsAreTheChain(t, p);
      PathShape(t, p);
      PartsOfChild(t[p].path, id);
  }

  lemma {:induction false} ChainIsAncestors(t: Table, a: Id, m: Id)
    requires Forest(t) && Live(t, m)
    ensures a in Chain(t, m) <==> AncestorOrSelf(t, a, m)
    decreases |t[m].path|
  {
    assert WellPlaced(t, m);
    assert Up(t, m, 0) == Some(m);
    match t[m].parent
    case None =>
      forall n: nat | Up(t, m, n) == Some(a) ensures n == 0 {}
    case Some(p) =>
      ChainIsAncestors(t, a, p);
      if AncestorOrSelf(t, a, p) {
        var n: nat :| Up(t, p, n) == Some(a);
        assert Up(t, m, n + 1) == Some(a);
      }
      if AncestorOrSelf(t, a, m) && a != m {
        var n: nat :| Up(t, m, n) == Some(a);
        assert Up(t, p, n - 1) == Some(a);
      }
  }

  // ---- The three operations -----------------------------------------------

  function Inserted(t: Table, id: Id, code: string, slug: string, parent: Option<Id>): Table
    requires parent.Some? ==> parent.value in t
  {
    var parentPath := match parent case None => None case Some(p) => Some(t[p].path);
    var path := BuildPath(parentPath, id);
    t[id := Row(code, slug, parent, path, DepthOf(path), false)]
  }

  /** A row after its subtree moved from `oldPath` to `newPath`. */
  function Rewritten(row: Row, oldPath: string, newPath: string): Row {
    var path := RewritePath(row.path, oldPath, newPath);
    row.(path := path, depth := DepthOf(path))
  }

  predicate InSubtree(t: Table, id: Id, x: Id)
    requires id in t
  {
    Live(t, x) && t[id].path <= t[x].path
  }

  /** Every live row whose path starts with `oldPath`, rewritten. */
  function Swept(t: Table, oldPath: string, newPath: string): Table {
    map x: Id | x in t :: if Live(t, x) && oldPath <= t[x].path then Rewritten(t[x], oldPath, newPath) else t[x]
  }

  /** The subtree of `id` rewritten, then `id` itself given its new parent. */
  function Moved(t: Table, id: Id, newParent: Option<Id>): Table
    requires id in t && (newParent.Some? ==> newParent.value in t)
  {
    var swept := Swept(t, t[id].path, NewPath(t, id, newParent));
    swept[id := swept[id].(parent := newParent)]
  }

  function NewPath(t: Table, id: Id, newParent: Option<Id>): string
    requires newParent.Some? ==> newParent.value in t
  {
    BuildPath(match newParent case None => None case Some(p) => Some(t[p].path), id)
  }

  function Removed(t: Table, id: Id): Table
    requires id in t
  {
    t[id := t[id].(deleted := true)]
  }

  lemma InsertKeepsForest(t: Table, id: Id, code: string, slug: string, parent: Option<Id>)
    requires Forest(t) && id !in t && (parent.Some? ==> Live(t, parent.value))
    ensures Forest(Inserted(t, id, code, slug, parent))
  {
    var t' := Inserted(t, id, code, slug, parent);
    if parent.Some? {
      PathShape(t, parent.value);
    }
    forall x: Id | Live(t', x)
      ensures WellPlaced(t', x)
    {
      if x != id {
        assert WellPlaced(t, x);
      }
    }
  }

  lemma RemoveKeepsForest(t: Table, id: Id)
    requires Forest(t) && id in t
    requires forall x: Id | x in t :: t[x].parent != Some(id)
    ensures Forest(Removed(t, id))
  {
    var t' := Removed(t, id);
    forall x: Id | Live(t', x)
      ensures WellPlaced(t', x)
    {
      assert WellPlaced(t, x);
    }
  }

  /** Where every parent pointer of a live row leads to the same row as before, so does its chain. */
  lemma {:induction false} ChainKept(t: Table, t': Table, x: Id)
    requires Forest(t) && Forest(t') && Live(t, x) && Live(t', x)
    requires forall y: Id {:trigger t'[y]} | Live(t, y) && Live(t', y) :: t'[y].parent == t[y].parent
    ensures Chain(t', x) == Chain(t, x)
    decreases |t[x].path|
  {
    assert WellPlaced(t, x) && WellPlaced(t', x);
    if t[x].parent.Some? {
      ChainKept(t, t', t[x].parent.value);
    }
  }

  /** A created row hangs under its parent's chain, and no other chain changes. */
  lemma InsertHangsChain(t: Table, id: Id, code: string, slug: string, parent: Option<Id>, x: Id)
    requires Forest(t) && id !in t && (parent.Some? ==> Live(t, parent.value))
    ensures Forest(Inserted(t, id, code, slug, parent))
    ensures Live(t, x) ==> Chain(Inserted(t, id, code, slug, parent), x) == Chain(t, x)
    ensures Chain(Inserted(t, id, code, slug, parent), id) == (if parent.None? then [] else Chain(t, parent.value)) + [id]
  {
    var t' := Inserted(t, id, code, slug, parent);
    InsertKeepsForest(t, id, code, slug, parent);
    if Live(t, x) {
      ChainKept(t, t', x);
    }
    if parent.Some? {
      ChainKept(t, t', parent.value);
    }
  }

  /** Deleting a row without children changes no other chain. */
  lemma RemoveKeepsChains(t: Table, id: Id, x: Id)
    requires Forest(t) && Live(t, id) && Live(t, x) && x != id
    requires forall y: Id | y in t :: t[y].parent != Some(id)
    ensures Forest(Removed(t, id)) && Live(Removed(t, id), x)
    ensures Chain(Removed(t, id), x) == Chain(t, x)
  {
    RemoveKeepsForest(t, id);
    ChainKept(t, Removed(t, id), x);
  }

  ghost predicate MoveAllowed(t: Table, id: Id, newParent: Option<Id>) {
    && Live(t, id)
    && (newParent.Some? ==> Live(t, newParent.value) && !(t[id].path <= t[newParent.value].path))
  }

  /** The row each parent pointer reaches after the move lies on the same side as its child. */
  lemma SubtreeClosedUpwards(t: Table, id: Id, x: Id)
    requires Forest(t) && Live(t, id) && Live(t, x) && x != id && t[x].parent.Some?
    ensures Live(t, t[x].parent.value)
    ensures InSubtree(t, id, x) <==> InSubtree(t, id, t[x].parent.value)
  {
    assert WellPlaced(t, x);
    var q := t[x].parent.value;
    assert t[q].path <= t[x].path;
    if InSubtree(t, id, x) {
      PrefixOfParent(t, id, x);
    }
  }

  /** Rewriting commutes with going one level down. */
  lemma RewriteThenExtend(path: string, tail: string, oldPath: string, newPath: string)
    requires oldPath <= path
    ensures RewritePath(path + tail, oldPath, newPath) == RewritePath(path, oldPath, newPath) + tail
  {
    assert (path + tail)[|oldPath|..] == path[|oldPath|..] + tail;
  }

  lemma MovedRootWellPlaced(t: Table, id: Id, newParent: Option<Id>)
    requires Forest(t) && MoveAllowed(t, id, newParent)
    ensures WellPlaced(Moved(t, id, newParent), id)
  {
    var newPath := NewPath(t, id, newParent);
    assert Moved(t, id, newParent)[id].path == newPath + [] == newPath;
    if newParent.Some? {
      PathShape(t, newParent.value);
      assert Moved(t, id, newParent)[newParent.value] == t[newParent.value];
    }
  }

  lemma MovedRowInside(t: Table, id: Id, newParent: Option<Id>, x: Id)
    requires Forest(t) && MoveAllowed(t, id, newParent) && InSubtree(t, id, x) && x != id
    ensures WellPlaced(Moved(t, id, newParent), x)
    ensures t[x].parent.Some? && InSubtree(t, id, t[x].parent.value)
    ensures Moved(t, id, newParent)[x].path == Moved(t, id, newParent)[t[x].parent.value].path + x + [SEPARATOR]
  {
    assert WellPlaced(t, x);
    PrefixOfParent(t, id, x);
    var q := t[x].parent.value;
    var newPath := NewPath(t, id, newParent);
    RewriteThenExtend(t[q].path, x + [SEPARATOR], t[id].path, newPath);
    assert t[q].path + (x + [SEPARATOR]) == t[x].path;
    var t' := Moved(t, id, newParent);
    assert t'[x] == Rewritten(t[x], t[id].path, newPath);
    assert t'[q].path == RewritePath(t[q].path, t[id].path, newPath);
  }

  lemma MovedRowOutside(t: Table, id: Id, newParent: Option<Id>, x: Id)
    requires Forest(t) && MoveAllowed(t, id, newParent) && Live(t, x) && !InSubtree(t, id, x)
    ensures WellPlaced(Moved(t, id, newParent), x)
  {
    assert WellPlaced(t, x);
    var t' := Moved(t, id, newParent);
    assert t'[x] == t[x];
    if t[x].parent.Some? {
      SubtreeClosedUpwards(t, id, x);
      assert t'[t[x].parent.value] == t[t[x].parent.value];
    }
  }

  lemma MoveKeepsForest(t: Table, id: Id, newParent: Option<Id>)
    requires Forest(t) && MoveAllowed(t, id, newParent)
    ensures Forest(Moved(t, id, newParent))
  {
    forall x: Id | Live(Moved(t, id, newParent), x)
      ensures WellPlaced(Moved(t, id, newParent), x)
    {
      if x == id {
        MovedRootWellPlaced(t, id, newParent);
      } else if InSubtree(t, id, x) {
        MovedRowInside(t, id, newParent, x);
      } else {
        MovedRowOutside(t, id, newParent, x);
      }
    }
  }

  /**
   * What a move means: a row below the moved one keeps its chain from the moved row down,
   * hung under the new parent's chain; every other row is untouched.
   */
  lemma MoveRehangsChain(t: Table, id: Id, newParent: Option<Id>, x: Id)
    requires Forest(t) && MoveAllowed(t, id, newParent) && x in t
    ensures Forest(Moved(t, id, newParent))
    ensures !(Live(t, x) && AncestorOrSelf(t, id, x)) ==> Moved(t, id, newParent)[x] == t[x]
    ensures Live(t, x) && AncestorOrSelf(t, id, x) ==>
              && |Chain(t, id)| <= |Chain(t, x)|
              && Chain(Moved(t, id, newParent), x)
                 == (if newParent.None? then [] else Chain(t, newParent.value)) + Chain(t, x)[|Chain(t, id)| - 1..]
  {
    MoveKeepsForest(t, id, newParent);
    if Live(t, x) {
      PrefixIsAncestry(t, id, x);
      if InSubtree(t, id, x) {
        var t' := Moved(t, id, newParent);
        forall y: Id | InSubtree(t, id, y) && y != id
          ensures Carried(t, t', id, y)
        {
          MovedRowInside(t, id, newParent, y);
        }
        if newParent.Some? {
          ChainElsewhere(t, id, newParent, newParent.value);
        }
        ChainRehung(t, t', id, if newParent.None? then [] else Chain(t, newParent.value), x);
      }
    }
  }

  /** `y` kept its parent, and the parent is in the moved subtree too. */
  ghost predicate Carried(t: Table, t': Table, id: Id, y: Id)
    requires id in t && Live(t, y)
  {
    && Live(t', y) && t'[y].parent == t[y].parent
    && t[y].parent.Some? && InSubtree(t, id, t[y].parent.value)
  }

  lemma SnocTail(s: seq<string>, x: string, k: nat)
    requires k <= |s|
    ensures (s + [x])[k..] == s[k..] + [x]
  {
  }

  lemma SnocAssociates(a: seq<string>, b: seq<string>, x: string)
    ensures a + (b + [x]) == a + b + [x]
  {
  }

  lemma {:induction false} ChainRehung(t: Table, t': Table, id: Id, head: seq<string>, x: Id)
    requires Forest(t) && Forest(t') && Live(t, id) && InSubtree(t, id, x) && Live(t', id)
    requires forall y: Id {:trigger Carried(t, t', id, y)} | InSubtree(t, id, y) && y != id :: Carried(t, t', id, y)
    requires Chain(t', id) == head + [id]
    ensures Live(t', x) && |Chain(t, id)| <= |Chain(t, x)|
    ensures Chain(t', x) == head + Chain(t, x)[|Chain(t, id)| - 1..]
    decreases |t[x].path|
  {
    assert WellPlaced(t, x);
    if x == id {
      assert Chain(t, x)[|Chain(t, x)| - 1..] == [id];
    } else {
      assert Carried(t, t', id, x);
      var q := t[x].parent.value;
      ChainRehung(t, t', id, head, q);
      assert WellPlaced(t', x);
      assert Chain(t, x) == Chain(t, q) + [x] && Chain(t', x) == Chain(t', q) + [x];
      SnocTail(Chain(t, q), x, |Chain(t, id)| - 1);
      SnocAssociates(head, Chain(t, q)[|Chain(t, id)| - 1..], x);
    }
  }

  lemma {:induction false} ChainElsewhere(t: Table, id: Id, newParent: Option<Id>, x: Id)
    requires Forest(t) && MoveAllowed(t, id, newParent) && Live(t, x) && !InSubtree(t, id, x)
    requires Forest(Moved(t, id, newParent))
    ensures Chain(Moved(t, id, newParent), x) == Chain(t, x)
    decreases |t[x].path|
  {
    assert WellPlaced(t, x);
    if t[x].parent.Some? {
      SubtreeClosedUpwards(t, id, x);
      ChainElsewhere(t, id, newParent, t[x].parent.value);
    }
  }

  // ---- The cycle guard refuses exactly the moves that would make a cycle --

  function Reparented(t: Table, id: Id, newParent: Id): Table
    requires id in t
  {
    t[id := t[id].(parent := Some(newParent))]
  }

  lemma {:induction false} UpAvoidsReparented(t: Table, id: Id, p: Id, m: Id, n: nat)
    requires Acyclic(t) && Live(t, id) && Up(t, m, n) == Some(id)
    ensures Up(Reparented(t, id, p), m, n) == Some(id)
    decreases n
  {
    if n > 0 {
      assert m != id;
      UpAvoidsReparented(t, id, p, t[m].parent.value, n - 1);
    }
  }

  lemma {:induction false} UpSeesParentsOnly(t: Table, t': Table, m: Id, n: nat)
    requires t.Keys == t'.Keys
    requires forall x: Id | x in t :: t[x].parent == t'[x].parent && t[x].deleted == t'[x].deleted
    ensures Up(t, m, n) == Up(t', m, n)
    decreases n
  {
    if n > 0 && Live(t, m) && t[m].parent.Some? {
      UpSeesParentsOnly(t, t', t[m].parent.value, n - 1);
    }
  }

  lemma CycleGuardIsExact(t: Table, id: Id, p: Id)
    requires Forest(t) && Live(t, id) && Live(t, p)
    ensures WouldCreateCycle(t[id].path, t[p].path) <==> !Acyclic(Reparented(t, id, p))
  {
    var t' := Reparented(t, id, p);
    PrefixIsAncestry(t, id, p);
    ForestIsAcyclic(t);
    if t[id].path <= t[p].path {
      var n: nat :| Up(t, p, n) == Some(id);
      UpAvoidsReparented(t, id, p, p, n);
      assert Up(t', id, n + 1) == Some(id);
    } else {
      MoveKeepsForest(t, id, Some(p));
      var moved := Moved(t, id, Some(p));
      ForestIsAcyclic(moved);
      forall x: Id, n: nat | n > 0
        ensures Up(t', x, n) != Some(x)
      {
        UpSeesParentsOnly(t', moved, x, n);
      }
    }
  }
}

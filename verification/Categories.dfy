/**
 * What the categories service's create, move and remove do to the stored table when nothing comes in
 * between their steps; ids come from the database and are supplied by the caller.
 */
module Categories {
  import opened Options
  import opened TreePath
  import opened CategoryForest

  datatype Outcome =
    | Done
    | NotFound(id: Id)
    | ParentNotFound(id: Id)
    | AlreadyExists
    | UniqueViolation
    | SelfParent
    | WouldCycle
    | HasProducts
    | HasChildren

  datatype NewCategory = NewCategory(code: string, slug: Option<string>, fallbackSlug: string, parent: Option<Id>)
  {
    function StoredSlug(): string {
      match slug case Some(s) => s case None => fallbackSlug
    }
  }

  /** The pre-check looks at live rows only, and at the slug only when one was given. */
  predicate Clashes(t: Table, c: NewCategory) {
    exists x: Id | x in t ::
      && Live(t, x)
      && (t[x].code == c.code || (c.slug.Some? && c.slug.value != "" && t[x].slug == c.slug.value))
  }

  /** The unique indexes look at every row. */
  predicate Taken(t: Table, c: NewCategory, id: Id) {
    id in t || exists x: Id | x in t :: t[x].code == c.code || t[x].slug == c.StoredSlug()
  }

  /** The child count is a relation count, so it includes soft-deleted children. */
  predicate HasChild(t: Table, id: Id) {
    exists x: Id | x in t :: t[x].parent == Some(id)
  }

  function Create(t: Table, c: NewCategory, id: Id): (Table, Outcome) {
    if Clashes(t, c) then (t, AlreadyExists)
    else if c.parent.Some? && !Live(t, c.parent.value) then (t, ParentNotFound(c.parent.value))
    else if Taken(t, c, id) then (t, UniqueViolation)
    else (Inserted(t, id, c.code, c.StoredSlug(), c.parent), Done)
  }

  function Move(t: Table, id: Id, newParent: Option<Id>): (Table, Outcome) {
    if !Live(t, id) then (t, NotFound(id))
    else if newParent == Some(id) then (t, SelfParent)
    else if newParent.Some? && !Live(t, newParent.value) then (t, ParentNotFound(newParent.value))
    else if newParent.Some? && WouldCreateCycle(t[id].path, t[newParent.value].path) then (t, WouldCycle)
    else (Moved(t, id, newParent), Done)
  }

  function Remove(t: Table, id: Id, products: nat): (Table, Outcome) {
    if !Live(t, id) then (t, NotFound(id))
    else if products > 0 then (t, HasProducts)
    else if HasChild(t, id) then (t, HasChildren)
    else (Removed(t, id), Done)
  }

  lemma CreateKeepsInvariant(t: Table, c: NewCategory, id: Id)
    requires Forest(t) && UniqueKeys(t)
    ensures Forest(Create(t, c, id).0) && UniqueKeys(Create(t, c, id).0)
  {
    if Create(t, c, id).1 == Done {
      InsertKeepsForest(t, id, c.code, c.StoredSlug(), c.parent);
    }
  }

  lemma SameKeysStayUnique(t: Table, t': Table)
    requires UniqueKeys(t) && t'.Keys == t.Keys
    requires forall x: Id {:trigger t'[x]} | x in t :: t'[x].code == t[x].code && t'[x].slug == t[x].slug
    ensures UniqueKeys(t')
  {
  }

  lemma SweptKeepsKeys(t: Table, oldPath: string, newPath: string)
    ensures var t' := Swept(t, oldPath, newPath);
            && t'.Keys == t.Keys
            && forall x: Id {:trigger t'[x]} | x in t :: t'[x].code == t[x].code && t'[x].slug == t[x].slug
  {
  }

  lemma MoveKeepsKeys(t: Table, id: Id, newParent: Option<Id>)
    requires id in t && (newParent.Some? ==> newParent.value in t) && UniqueKeys(t)
    ensures UniqueKeys(Moved(t, id, newParent))
  {
    var swept := Swept(t, t[id].path, NewPath(t, id, newParent));
    SweptKeepsKeys(t, t[id].path, NewPath(t, id, newParent));
    SameKeysStayUnique(t, swept);
    SameKeysStayUnique(swept, swept[id := swept[id].(parent := newParent)]);
  }

  lemma MoveKeepsInvariant(t: Table, id: Id, newParent: Option<Id>)
    requires Forest(t) && UniqueKeys(t)
    ensures Forest(Move(t, id, newParent).0) && UniqueKeys(Move(t, id, newParent).0)
  {
    if Move(t, id, newParent).1 == Done {
      MoveKeepsForest(t, id, newParent);
      MoveKeepsKeys(t, id, newParent);
    }
  }

  lemma RemoveKeepsInvariant(t: Table, id: Id, products: nat)
    requires Forest(t) && UniqueKeys(t)
    ensures Forest(Remove(t, id, products).0) && UniqueKeys(Remove(t, id, products).0)
  {
    if Remove(t, id, products).1 == Done {
      RemoveKeepsForest(t, id);
    }
  }

  /**
   * When a new category is refused and why, in terms of the rows: a live one has its code or the slug it
   * asks for; its parent is not live; or any row at all, deleted ones included, has its id, code or slug.
   * A refused call changes nothing.
   */
  lemma CreateRefusals(t: Table, c: NewCategory, id: Id)
    ensures var (t', outcome) := Create(t, c, id);
            var slug := if c.slug.Some? then c.slug.value else c.fallbackSlug;
            var clash := exists x: Id | x in t ::
                           !t[x].deleted && (t[x].code == c.code || (c.slug == Some(t[x].slug) && t[x].slug != ""));
            && (outcome != Done ==> t' == t)
            && (outcome == AlreadyExists <==> clash)
            && (outcome == Done <==>
                  && (c.parent.Some? ==> c.parent.value in t && !t[c.parent.value].deleted)
                  && id !in t && forall x: Id | x in t :: t[x].code != c.code && t[x].slug != slug)
            && (!clash && c.parent.Some? && !(c.parent.value in t && !t[c.parent.value].deleted) ==>
                  outcome == ParentNotFound(c.parent.value))
            && outcome in {Done, AlreadyExists, UniqueViolation, if c.parent.Some? then ParentNotFound(c.parent.value) else Done}
  {
  }

  /** A successful call adds exactly the row asked for, under its parent. */
  lemma CreateDoesWhatItSays(t: Table, c: NewCategory, id: Id, x: Id)
    requires Forest(t) && Create(t, c, id).1 == Done
    ensures var t' := Create(t, c, id).0;
            && Forest(t') && t'.Keys == t.Keys + {id} && Live(t', id)
            && t'[id].code == c.code && t'[id].slug == (if c.slug.Some? then c.slug.value else c.fallbackSlug)
            && t'[id].parent == c.parent
            && Chain(t', id) == (if c.parent.None? then [] else Chain(t, c.parent.value)) + [id]
            && (x in t ==> t'[x] == t[x]) && (Live(t, x) ==> Chain(t', x) == Chain(t, x))
  {
    InsertHangsChain(t, id, c.code, c.StoredSlug(), c.parent, x);
    InsertedRow(t, id, c.code, c.StoredSlug(), c.parent);
  }

  lemma InsertedRow(t: Table, id: Id, code: string, slug: string, parent: Option<Id>)
    requires parent.Some? ==> parent.value in t
    ensures var t' := Inserted(t, id, code, slug, parent);
            && t'.Keys == t.Keys + {id} && Live(t', id)
            && t'[id].code == code && t'[id].slug == slug && t'[id].parent == parent
            && forall x: Id {:trigger t'[x]} | x in t && x != id :: t'[x] == t[x]
  {
  }

  /**
   * A move is refused exactly for a row that is not live, for itself as parent, for a parent that is not
   * live, and for a parent at or below the row; refused, it changes nothing. Otherwise one parent changes,
   * and no code, slug or deletion, and paths and depths follow the parents again.
   */
  lemma MoveDoesWhatItSays(t: Table, id: Id, newParent: Option<Id>, x: Id)
    requires Forest(t)
    ensures var (t', outcome) := Move(t, id, newParent);
            && (outcome != Done ==> t' == t)
            && outcome == (if !Live(t, id) then NotFound(id)
                           else if newParent.None? then Done
                           else if newParent.value == id then SelfParent
                           else if !Live(t, newParent.value) then ParentNotFound(newParent.value)
                           else if AncestorOrSelf(t, id, newParent.value) then WouldCycle
                           else Done)
            && (outcome == Done ==>
                  && Forest(t') && t'.Keys == t.Keys
                  && (x in t ==>
                        && t'[x].parent == (if x == id then newParent else t[x].parent)
                        && t'[x].code == t[x].code && t'[x].slug == t[x].slug && t'[x].deleted == t[x].deleted))
  {
    if Live(t, id) && newParent.Some? && Live(t, newParent.value) {
      PrefixIsAncestry(t, id, newParent.value);
    }
    if Move(t, id, newParent).1 == Done {
      MoveKeepsForest(t, id, newParent);
      SweptKeepsKeys(t, t[id].path, NewPath(t, id, newParent));
      assert x in t ==> Swept(t, t[id].path, NewPath(t, id, newParent))[x].parent == t[x].parent;
    }
  }

  /**
   * A removal is refused exactly for a row that is not live, that has products, or that some row, deleted
   * or not, names as parent; refused, it changes nothing. Otherwise it hides that row and no other.
   */
  lemma RemoveDoesWhatItSays(t: Table, id: Id, products: nat, x: Id)
    requires Forest(t)
    ensures var (t', outcome) := Remove(t, id, products);
            && (outcome != Done ==> t' == t)
            && outcome == (if !Live(t, id) then NotFound(id)
                           else if products > 0 then HasProducts
                           else if exists y: Id | y in t :: t[y].parent == Some(id) then HasChildren
                           else Done)
            && (outcome == Done ==>
                  && Forest(t') && t'.Keys == t.Keys
                  && (Live(t', x) <==> Live(t, x) && x != id)
                  && (x in t && x != id ==> t'[x] == t[x])
                  && (Live(t, x) && x != id ==> Chain(t', x) == Chain(t, x)))
  {
    if Remove(t, id, products).1 == Done {
      RemoveKeepsForest(t, id);
      if Live(t, x) && x != id {
        RemoveKeepsChains(t, id, x);
      }
    }
  }

  // ---- Whole runs ----------------------------------------------------------

  datatype Op = CreateOp(c: NewCategory, id: Id) | MoveOp(id: Id, newParent: Option<Id>) | RemoveOp(id: Id, products: nat)

  function Apply(t: Table, op: Op): (Table, Outcome) {
    match op
    case CreateOp(c, id) => Create(t, c, id)
    case MoveOp(id, p) => Move(t, id, p)
    case RemoveOp(id, products) => Remove(t, id, products)
  }

  function Run(t: Table, ops: seq<Op>): Table
    decreases |ops|
  {
    if ops == [] then t else Run(Apply(t, ops[0]).0, ops[1..])
  }

  lemma ApplyKeepsInvariant(t: Table, op: Op)
    requires Forest(t) && UniqueKeys(t)
    ensures Forest(Apply(t, op).0) && UniqueKeys(Apply(t, op).0)
  {
    match op
    case CreateOp(c, id) => CreateKeepsInvariant(t, c, id);
    case MoveOp(id, p) => MoveKeepsInvariant(t, id, p);
    case RemoveOp(id, products) => RemoveKeepsInvariant(t, id, products);
  }

  /** Every table reachable from a good one, by any sequence of calls, is a forest without cycles. */
  lemma {:induction false} RunKeepsForest(t: Table, ops: seq<Op>)
    requires Forest(t) && UniqueKeys(t)
    ensures Forest(Run(t, ops)) && UniqueKeys(Run(t, ops)) && Acyclic(Run(t, ops))
    decreases |ops|
  {
    if ops == [] {
      ForestIsAcyclic(t);
    } else {
      ApplyKeepsInvariant(t, ops[0]);
      RunKeepsForest(Apply(t, ops[0]).0, ops[1..]);
    }
  }

  /**
   * After any run a move is refused for a cycle exactly when re-pointing the parent alone
   * would make one, and when it goes through the row has its new parent.
   */
  lemma MoveRefusesExactlyCycles(ops: seq<Op>, id: Id, p: Id)
    requires Live(Run(map[], ops), id) && Live(Run(map[], ops), p)
    ensures var t := Run(map[], ops);
            && (Move(t, id, Some(p)).1 in {SelfParent, WouldCycle} <==> !Acyclic(Reparented(t, id, p)))
            && (Move(t, id, Some(p)).1 == Done <==> Acyclic(Reparented(t, id, p)))
            && (Move(t, id, Some(p)).1 == Done ==> Move(t, id, Some(p)).0[id].parent == Some(p))
  {
    RunKeepsForest(map[], ops);
    CycleGuardIsExact(Run(map[], ops), id, p);
  }
}

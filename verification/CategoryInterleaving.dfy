/**
 * The categories service, whose calls overlap: each reads what it is about, then the parent, and writes
 * in a transaction of its own later, and other calls may write in between.
 */
module CategoryInterleaving {
  import opened Options
  import opened TreePath
  import opened CategoryForest
  import opened Categories

  /** What a call takes from its guard reads into its transaction. */
  datatype Plan =
    | CreatePlan(c: NewCategory, id: Id, parentPath: Option<string>)
    | MovePlan(id: Id, newParent: Option<Id>, oldPath: string, parentPath: Option<string>)
    | RemovePlan(id: Id)

  function PathOf(t: Table, parent: Option<Id>): Option<string>
    requires parent.Some? ==> parent.value in t
  {
    match parent case None => None case Some(p) => Some(t[p].path)
  }

  /** What a call remembers of its first read. */
  datatype Seen = CreateSeen(c: NewCategory, id: Id) | MoveSeen(id: Id, newParent: Option<Id>, oldPath: string) | RemoveSeen(id: Id)

  /** The first read: of clashing rows, of the row to move, or of the row to remove with its counts. */
  function Look(t: Table, op: Op): Result<Seen, Outcome> {
    match op
    case CreateOp(c, id) => if Clashes(t, c) then Err(AlreadyExists) else Ok(CreateSeen(c, id))
    case MoveOp(id, p) =>
      if !Live(t, id) then Err(NotFound(id))
      else if p == Some(id) then Err(SelfParent)
      else Ok(MoveSeen(id, p, t[id].path))
    case RemoveOp(id, products) =>
      if !Live(t, id) then Err(NotFound(id))
      else if products > 0 then Err(HasProducts)
      else if HasChild(t, id) then Err(HasChildren)
      else Ok(RemoveSeen(id))
  }

  /** The second read, of the parent, where there is one. */
  function Guard(t: Table, seen: Seen): Result<Plan, Outcome> {
    match seen
    case CreateSeen(c, id) =>
      if c.parent.Some? && !Live(t, c.parent.value) then Err(ParentNotFound(c.parent.value))
      else Ok(CreatePlan(c, id, PathOf(t, c.parent)))
    case MoveSeen(id, p, oldPath) =>
      if p.Some? && !Live(t, p.value) then Err(ParentNotFound(p.value))
      else if p.Some? && WouldCreateCycle(oldPath, t[p.value].path) then Err(WouldCycle)
      else Ok(MovePlan(id, p, oldPath, PathOf(t, p)))
    case RemoveSeen(id) => Ok(RemovePlan(id))
  }

  /**
   * The transaction, on the table as it is by then. A broken unique index rolls it back, and so does an
   * update of a row that is deleted by then.
   */
  function Write(t: Table, plan: Plan): (Table, Outcome) {
    match plan
    case CreatePlan(c, id, parentPath) =>
      if Taken(t, c, id) then (t, UniqueViolation)
      else
        var path := BuildPath(parentPath, id);
        (t[id := Row(c.code, c.StoredSlug(), c.parent, path, DepthOf(path), false)], Done)
    case MovePlan(id, newParent, oldPath, parentPath) =>
      if !Live(t, id) then (t, NotFound(id))
      else
        var swept := Swept(t, oldPath, BuildPath(parentPath, id));
        (swept[id := swept[id].(parent := newParent)], Done)
    case RemovePlan(id) =>
      if !Live(t, id) then (t, NotFound(id)) else (Removed(t, id), Done)
  }

  /** What a call means to write, if the tables it reads let it come to its transaction. */
  function PlanOf(atLook: Table, atGuard: Table, op: Op): Result<Plan, Outcome> {
    match Look(atLook, op)
    case Err(outcome) => Err(outcome)
    case Ok(seen) => Guard(atGuard, seen)
  }

  /** The whole call: the table as its first read finds it, as its second does, and as its transaction does. */
  function Call(atLook: Table, atGuard: Table, atWrite: Table, op: Op): (Table, Outcome) {
    match Look(atLook, op)
    case Err(outcome) => (atLook, outcome)
    case Ok(seen) =>
      match Guard(atGuard, seen)
      case Err(outcome) => (atGuard, outcome)
      case Ok(plan) => Write(atWrite, plan)
  }

  /** With nothing in between, the three steps are the one step the call is in `Categories`. */
  lemma UndisturbedCallIsAtomic(t: Table, op: Op)
    ensures Call(t, t, t, op) == Apply(t, op)
  {
  }

  // ---- What a plan is known to be ------------------------------------------------------

  /** A stored path ends in the row's own id between two separators. */
  ghost predicate EndsIn(path: string, id: Id) {
    exists stem: string :: IsStem(stem) && path == stem + id + [SEPARATOR]
  }

  predicate IsStem(stem: string) {
    stem != "" && stem[|stem| - 1] == SEPARATOR
  }

  /** What the guards leave of a plan, however old it is. */
  ghost predicate PlanIsSound(plan: Plan) {
    match plan
    case CreatePlan(c, _, parentPath) => (c.parent.Some? <==> parentPath.Some?) && (parentPath.Some? ==> IsStem(parentPath.value))
    case MovePlan(id, newParent, oldPath, parentPath) =>
      && EndsIn(oldPath, id)
      && (newParent.Some? <==> parentPath.Some?)
      && (parentPath.Some? ==> newParent != Some(id) && IsStem(parentPath.value) && !(oldPath <= parentPath.value))
    case RemovePlan(_) => true
  }

  lemma StoredPathEndsIn(t: Table, id: Id)
    requires Forest(t) && Live(t, id)
    ensures EndsIn(t[id].path, id) && IsStem(t[id].path)
  {
    assert WellPlaced(t, id);
    var stem := if t[id].parent.None? then [SEPARATOR] else t[t[id].parent.value].path;
    if t[id].parent.Some? {
      PathShape(t, t[id].parent.value);
    }
    assert IsStem(stem) && t[id].path == stem + id + [SEPARATOR];
  }

  ghost predicate SeenIsSound(seen: Seen) {
    seen.MoveSeen? ==> EndsIn(seen.oldPath, seen.id) && seen.newParent != Some(seen.id)
  }

  lemma LookIsSound(t: Table, op: Op)
    requires Forest(t) && Look(t, op).Ok?
    ensures SeenIsSound(Look(t, op).value)
  {
    if op.MoveOp? {
      StoredPathEndsIn(t, op.id);
    }
  }

  lemma GuardIsSound(t: Table, seen: Seen)
    requires Forest(t) && SeenIsSound(seen) && Guard(t, seen).Ok?
    ensures PlanIsSound(Guard(t, seen).value)
  {
    if seen.CreateSeen? && seen.c.parent.Some? {
      StoredPathEndsIn(t, seen.c.parent.value);
    }
    if seen.MoveSeen? && seen.newParent.Some? {
      StoredPathEndsIn(t, seen.newParent.value);
    }
  }

  // ---- What a prefix says about a later table -------------------------------------------------

  lemma NoSeparatorInId(stem: string, x: Id)
    ensures var whole := stem + x + [SEPARATOR];
            forall k | |stem| <= k < |whole| - 1 :: whole[k] != SEPARATOR
  {
    var whole := stem + x + [SEPARATOR];
    forall k | |stem| <= k < |whole| - 1
      ensures whole[k] != SEPARATOR
    {
      assert whole[k] == x[k - |stem|];
    }
  }

  lemma LastSegment(a: string, x: Id, b: string, y: Id)
    requires IsStem(a) && IsStem(b) && a + x + [SEPARATOR] == b + y + [SEPARATOR]
    ensures x == y && a == b
  {
    var whole := a + x + [SEPARATOR];
    NoSeparatorInId(a, x);
    NoSeparatorInId(b, y);
    assert whole[|a| - 1] == SEPARATOR && whole[|b| - 1] == SEPARATOR;
    assert |a| == |b|;
    assert a == whole[..|a|] && b == whole[..|b|];
    assert x == whole[|a|..|whole| - 1] && y == whole[|b|..|whole| - 1];
  }

  /** A row under a path that ends in an id is that row, or below it: the row is live and has that path. */
  lemma {:induction false} PrefixNamesLiveRow(t: Table, path: string, id: Id, x: Id)
    requires Forest(t) && Live(t, x) && EndsIn(path, id) && path <= t[x].path
    ensures Live(t, id) && t[id].path == path
    decreases |t[x].path|
  {
    StoredPathEndsIn(t, x);
    assert WellPlaced(t, x);
    var stem := if t[x].parent.None? then [SEPARATOR] else t[t[x].parent.value].path;
    if t[x].parent.Some? {
      StoredPathEndsIn(t, t[x].parent.value);
    }
    assert t[x].path == stem + x + [SEPARATOR];
    if |path| == |t[x].path| {
      var front: string :| IsStem(front) && path == front + id + [SEPARATOR];
      LastSegment(front, id, stem, x);
    } else {
      PrefixOfStem(path, id, stem, x);
      PrefixNamesLiveRow(t, path, id, t[x].parent.value);
    }
  }

  lemma PrefixOfStem(path: string, id: Id, stem: string, x: Id)
    requires EndsIn(path, id) && IsStem(stem) && path <= stem + x + [SEPARATOR] && |path| < |stem| + |x| + 1
    ensures path <= stem && |stem| > 1
  {
    var whole := stem + x + [SEPARATOR];
    NoSeparatorInId(stem, x);
    assert path[|path| - 1] == SEPARATOR && path[|path| - 1] == whole[|path| - 1];
    assert path == whole[..|path|] == stem[..|path|];
  }

  /** Nothing is swept when the row is gone or elsewhere by now. */
  lemma NothingSwept(t: Table, oldPath: string, newPath: string, id: Id)
    requires Forest(t) && EndsIn(oldPath, id) && !(Live(t, id) && t[id].path == oldPath)
    ensures Swept(t, oldPath, newPath) == t
  {
    forall x: Id | Live(t, x)
      ensures !(oldPath <= t[x].path)
    {
      if oldPath <= t[x].path {
        PrefixNamesLiveRow(t, oldPath, id, x);
      }
    }
  }

  // ---- Exactly when a late write keeps the forest -----------------------------------------------

  /** The parent is still there, under the path that was read. */
  predicate ParentUnmoved(t: Table, parent: Option<Id>, parentPath: Option<string>) {
    parent.Some? ==> Live(t, parent.value) && parentPath == Some(t[parent.value].path)
  }

  /**
   * What has to hold at the write. A move of a row that is deleted by then is rolled back, and one of a
   * row that another move has put where this one wants it does no harm either.
   */
  ghost predicate Fresh(t: Table, plan: Plan) {
    match plan
    case CreatePlan(c, id, parentPath) => Taken(t, c, id) || ParentUnmoved(t, c.parent, parentPath)
    case MovePlan(id, newParent, oldPath, parentPath) =>
      || !Live(t, id)
      || (t[id].path == oldPath && ParentUnmoved(t, newParent, parentPath))
      || (t[id].path != oldPath && t[id].parent == newParent)
    case RemovePlan(id) => forall x: Id | Live(t, x) :: t[x].parent != Some(id)
  }

  lemma LateCreate(t: Table, c: NewCategory, id: Id, parentPath: Option<string>)
    requires Forest(t) && PlanIsSound(CreatePlan(c, id, parentPath)) && !Taken(t, c, id)
    ensures Forest(Write(t, CreatePlan(c, id, parentPath)).0) <==> ParentUnmoved(t, c.parent, parentPath)
  {
    var t' := Write(t, CreatePlan(c, id, parentPath)).0;
    if ParentUnmoved(t, c.parent, parentPath) {
      InsertKeepsForest(t, id, c.code, c.StoredSlug(), c.parent);
      assert t' == Inserted(t, id, c.code, c.StoredSlug(), c.parent);
    }
    if Forest(t') {
      assert WellPlaced(t', id);
      if c.parent.Some? {
        var p := c.parent.value;
        assert p != id by {
          assert |t'[id].path| > |parentPath.value|;
        }
        SameStem(t[p].path, parentPath.value, id);
      }
    }
  }

  lemma SameStem(a: string, b: string, id: Id)
    requires a + id + [SEPARATOR] == b + id + [SEPARATOR]
    ensures a == b
  {
    assert a == (a + id + [SEPARATOR])[..|a|] && b == (b + id + [SEPARATOR])[..|b|];
  }

  lemma LateRemove(t: Table, id: Id)
    requires Forest(t) && id in t
    ensures Forest(Removed(t, id)) <==> forall x: Id | Live(t, x) :: t[x].parent != Some(id)
  {
    var t' := Removed(t, id);
    if Forest(t') {
      forall x: Id | Live(t, x)
        ensures t[x].parent != Some(id)
      {
        assert WellPlaced(t, x);
        if x != id {
          assert WellPlaced(t', x);
        }
      }
    } else {
      var x: Id :| Live(t', x) && !WellPlaced(t', x);
      assert WellPlaced(t, x) && Live(t, x);
    }
  }

  lemma SweptPathsAreLonger(t: Table, oldPath: string, newPath: string, x: Id)
    requires Live(t, x)
    ensures oldPath <= t[x].path ==> |Swept(t, oldPath, newPath)[x].path| >= |newPath|
    ensures !(oldPath <= t[x].path) ==> Swept(t, oldPath, newPath)[x] == t[x]
  {
  }

  /** The row is where it was: the write is a move whose parent path is the one that was read. */
  lemma LateMoveFromSamePlace(t: Table, id: Id, newParent: Option<Id>, parentPath: Option<string>)
    requires Forest(t) && Live(t, id) && PlanIsSound(MovePlan(id, newParent, t[id].path, parentPath))
    ensures Forest(Write(t, MovePlan(id, newParent, t[id].path, parentPath)).0) <==> ParentUnmoved(t, newParent, parentPath)
  {
    var t' := Write(t, MovePlan(id, newParent, t[id].path, parentPath)).0;
    if ParentUnmoved(t, newParent, parentPath) {
      MoveKeepsForest(t, id, newParent);
      assert t' == Moved(t, id, newParent);
    }
    if Forest(t') && newParent.Some? {
      var p, newPath := newParent.value, BuildPath(parentPath, id);
      assert WellPlaced(t', id);
      assert t'[id].path == newPath + [] == newPath == parentPath.value + id + [SEPARATOR];
      assert t'[id].path == t'[p].path + id + [SEPARATOR];
      SameStem(t'[p].path, parentPath.value, id);
      SweptPathsAreLonger(t, t[id].path, newPath, p);
    }
  }

  /** The row is elsewhere: only its parent pointer is written, and it must be what it is already. */
  lemma LateMoveFromElsewhere(t: Table, id: Id, newParent: Option<Id>)
    requires Forest(t) && Live(t, id)
    ensures Forest(t[id := t[id].(parent := newParent)]) <==> t[id].parent == newParent
  {
    var t' := t[id := t[id].(parent := newParent)];
    assert WellPlaced(t, id);
    if t[id].parent == newParent {
      assert t' == t;
    }
    if Forest(t') {
      assert WellPlaced(t', id);
      var stem := if t[id].parent.None? then [SEPARATOR] else t[t[id].parent.value].path;
      var stem' := if newParent.None? then [SEPARATOR] else t'[newParent.value].path;
      SameStem(stem, stem', id);
      SameParentPath(t, t[id].parent, newParent, id);
    }
  }

  lemma SameParentPath(t: Table, a: Option<Id>, b: Option<Id>, id: Id)
    requires Forest(t) && (a.Some? ==> Live(t, a.value)) && (b.Some? ==> Live(t, b.value))
    requires (if a.None? then [SEPARATOR] else t[a.value].path) == (if b.None? then [SEPARATOR] else t[b.value].path)
    ensures a == b
  {
    if a.Some? {
      PathShape(t, a.value);
    }
    if b.Some? {
      PathShape(t, b.value);
    }
    if a.Some? && b.Some? {
      PathIsInjective(t, a.value, b.value);
    }
  }

  lemma LateMove(t: Table, id: Id, newParent: Option<Id>, oldPath: string, parentPath: Option<string>)
    requires Forest(t) && PlanIsSound(MovePlan(id, newParent, oldPath, parentPath))
    ensures Forest(Write(t, MovePlan(id, newParent, oldPath, parentPath)).0)
            <==> Fresh(t, MovePlan(id, newParent, oldPath, parentPath))
  {
    if Live(t, id) && t[id].path == oldPath {
      LateMoveFromSamePlace(t, id, newParent, parentPath);
    } else {
      NothingSwept(t, oldPath, BuildPath(parentPath, id), id);
      if Live(t, id) {
        LateMoveFromElsewhere(t, id, newParent);
      }
    }
  }

  lemma NoChildOfMissing(t: Table, id: Id)
    requires Forest(t) && !Live(t, id)
    ensures forall x: Id | Live(t, x) :: t[x].parent != Some(id)
  {
    forall x: Id | Live(t, x)
      ensures t[x].parent != Some(id)
    {
      assert WellPlaced(t, x);
    }
  }

  lemma NewKeysStayUnique(t: Table, c: NewCategory, id: Id, row: Row)
    requires UniqueKeys(t) && !Taken(t, c, id) && row.code == c.code && row.slug == c.StoredSlug()
    ensures UniqueKeys(t[id := row])
  {
  }

  lemma MoveWritesOneParent(t: Table, id: Id, newParent: Option<Id>, oldPath: string, parentPath: Option<string>)
    requires Live(t, id)
    ensures var t' := Write(t, MovePlan(id, newParent, oldPath, parentPath)).0;
            && t'.Keys == t.Keys
            && forall x: Id {:trigger t'[x]} | x in t ::
                 && t'[x].parent == (if x == id then newParent else t[x].parent)
                 && t'[x].deleted == t[x].deleted && t'[x].code == t[x].code && t'[x].slug == t[x].slug
  {
  }

  lemma WriteKeepsKeys(t: Table, plan: Plan)
    requires UniqueKeys(t)
    ensures UniqueKeys(Write(t, plan).0)
  {
    match plan
    case CreatePlan(c, id, parentPath) =>
      if !Taken(t, c, id) {
        var path := BuildPath(parentPath, id);
        NewKeysStayUnique(t, c, id, Row(c.code, c.StoredSlug(), c.parent, path, DepthOf(path), false));
      }
    case MovePlan(id, newParent, oldPath, parentPath) =>
      if Live(t, id) {
        MoveWritesOneParent(t, id, newParent, oldPath, parentPath);
        SameKeysStayUnique(t, Write(t, plan).0);
      }
    case RemovePlan(id) =>
      if Live(t, id) {
        SameKeysStayUnique(t, Removed(t, id));
      }
  }

  /**
   * A transaction on a forest leaves a forest exactly when its plan is still fresh, whatever was
   * written since the plan was read. Codes and slugs stay unique in any case.
   */
  lemma WriteKeepsForestIffFresh(t: Table, plan: Plan)
    requires Forest(t) && UniqueKeys(t) && PlanIsSound(plan)
    ensures Forest(Write(t, plan).0) <==> Fresh(t, plan)
    ensures UniqueKeys(Write(t, plan).0)
  {
    WriteKeepsKeys(t, plan);
    match plan
    case CreatePlan(c, id, parentPath) =>
      if !Taken(t, c, id) {
        LateCreate(t, c, id, parentPath);
      }
    case MovePlan(id, newParent, oldPath, parentPath) =>
      LateMove(t, id, newParent, oldPath, parentPath);
    case RemovePlan(id) =>
      if Live(t, id) {
        LateRemove(t, id);
      } else {
        NoChildOfMissing(t, id);
      }
  }

  // ---- Any interleaving --------------------------------------------------------------------------

  datatype State = State(table: Table, seen: seq<Seen>, plans: seq<Plan>)

  /** A call's first read, the second read of one that passed it, the transaction of one that passed both. */
  datatype Event = Looking(op: Op) | Guarding(k: nat) | Writing(k: nat)

  function Next(s: State, e: Event): State {
    match e
    case Looking(op) => if Look(s.table, op).Ok? then s.(seen := s.seen + [Look(s.table, op).value]) else s
    case Guarding(k) =>
      if k < |s.seen| && Guard(s.table, s.seen[k]).Ok?
      then s.(plans := s.plans + [Guard(s.table, s.seen[k]).value])
      else s
    case Writing(k) => if k < |s.plans| then s.(table := Write(s.table, s.plans[k]).0) else s
  }

  function After(s: State, events: seq<Event>): State {
    if events == [] then s else Next(After(s, events[..|events| - 1]), events[|events| - 1])
  }

  const EMPTY := State(map[], [], [])

  ghost predicate WrittenFresh(s: State, e: Event) {
    e.Writing? && e.k < |s.plans| ==> Fresh(s.table, s.plans[e.k])
  }

  /** Every transaction of the run finds its plan fresh. */
  ghost predicate AllWrittenFresh(events: seq<Event>) {
    events != [] ==>
      && AllWrittenFresh(events[..|events| - 1])
      && WrittenFresh(After(EMPTY, events[..|events| - 1]), events[|events| - 1])
  }

  /** At every moment of the run the table is a forest. */
  ghost predicate ForestThroughout(events: seq<Event>) {
    Forest(After(EMPTY, events).table) && (events != [] ==> ForestThroughout(events[..|events| - 1]))
  }

  ghost predicate Sound(s: State) {
    && Forest(s.table) && UniqueKeys(s.table)
    && (forall k | 0 <= k < |s.seen| :: SeenIsSound(s.seen[k]))
    && (forall k | 0 <= k < |s.plans| :: PlanIsSound(s.plans[k]))
  }

  lemma NextIsSoundIffFresh(s: State, e: Event)
    requires Sound(s)
    ensures Forest(Next(s, e).table) <==> WrittenFresh(s, e)
    ensures Forest(Next(s, e).table) ==> Sound(Next(s, e))
  {
    if e.Looking? && Look(s.table, e.op).Ok? {
      LookIsSound(s.table, e.op);
    } else if e.Guarding? && e.k < |s.seen| && Guard(s.table, s.seen[e.k]).Ok? {
      GuardIsSound(s.table, s.seen[e.k]);
    } else if e.Writing? && e.k < |s.plans| {
      WriteKeepsForestIffFresh(s.table, s.plans[e.k]);
    }
  }

  lemma {:induction false} SoundWhileForest(events: seq<Event>)
    requires ForestThroughout(events)
    ensures Sound(After(EMPTY, events))
  {
    if events != [] {
      var front, last := events[..|events| - 1], events[|events| - 1];
      SoundWhileForest(front);
      NextIsSoundIffFresh(After(EMPTY, front), last);
    }
  }

  /**
   * From an empty table, however calls overlap: the table is a forest at every moment exactly when
   * every transaction ran while its plan was fresh.
   */
  lemma {:induction false} ForestIffAllWrittenFresh(events: seq<Event>)
    ensures ForestThroughout(events) <==> AllWrittenFresh(events)
  {
    if events != [] {
      var front, last := events[..|events| - 1], events[|events| - 1];
      ForestIffAllWrittenFresh(front);
      if ForestThroughout(front) {
        SoundWhileForest(front);
        NextIsSoundIffFresh(After(EMPTY, front), last);
      }
    }
  }

  // ---- Two moves that close a cycle -------------------------------------------------------------

  /**
   * Take any two rows neither of which is above the other. Each may be moved under the other, both
   * calls pass their guards when both read first, and the second write closes a cycle.
   */
  lemma CrossedMovesCloseACycle(t: Table, a: Id, b: Id)
    requires Live(t, a) && Live(t, b) && !(t[a].path <= t[b].path) && !(t[b].path <= t[a].path)
    ensures var first, second := MovePlan(a, Some(b), t[a].path, Some(t[b].path)), MovePlan(b, Some(a), t[b].path, Some(t[a].path));
            && PlanOf(t, t, MoveOp(a, Some(b))) == Ok(first) && PlanOf(t, t, MoveOp(b, Some(a))) == Ok(second)
            && !Acyclic(Write(Write(t, first).0, second).0)
  {
    GuardsPass(t, a, b);
    GuardsPass(t, b, a);
    var first, second := MovePlan(a, Some(b), t[a].path, Some(t[b].path)), MovePlan(b, Some(a), t[b].path, Some(t[a].path));
    MoveWritesOneParent(t, a, Some(b), t[a].path, Some(t[b].path));
    MoveWritesOneParent(Write(t, first).0, b, Some(a), t[b].path, Some(t[a].path));
    TwoCycle(Write(Write(t, first).0, second).0, a, b);
  }

  lemma GuardsPass(t: Table, a: Id, b: Id)
    requires Live(t, a) && Live(t, b) && !(t[a].path <= t[b].path)
    ensures PlanOf(t, t, MoveOp(a, Some(b))) == Ok(MovePlan(a, Some(b), t[a].path, Some(t[b].path)))
  {
  }

  lemma TwoCycle(t: Table, a: Id, b: Id)
    requires Live(t, a) && Live(t, b) && t[a].parent == Some(b) && t[b].parent == Some(a)
    ensures !Acyclic(t)
  {
    assert Up(t, a, 0) == Some(a);
    assert Up(t, b, 1) == Some(a);
    assert Up(t, a, 2) == Some(a);
  }

  // ---- The service ----------------------------------------------------------------------------------

  lemma CallKeepsForestIffFresh(atLook: Table, atGuard: Table, atWrite: Table, op: Op)
    requires Good(atLook) && Good(atGuard) && Good(atWrite)
    ensures KeepsForestIffFresh(atLook, atGuard, atWrite, op, Call(atLook, atGuard, atWrite, op).0)
  {
    var plan := PlanOf(atLook, atGuard, op);
    if plan.Ok? {
      LookIsSound(atLook, op);
      GuardIsSound(atGuard, Look(atLook, op).value);
      WriteKeepsForestIffFresh(atWrite, plan.value);
    }
  }

  ghost predicate Good(t: Table) {
    Forest(t) && UniqueKeys(t)
  }

  /** The call leaves a forest exactly when it wrote nothing or wrote while its plan was fresh. */
  ghost predicate KeepsForestIffFresh(atLook: Table, atGuard: Table, atWrite: Table, op: Op, after: Table) {
    && UniqueKeys(after)
    && (Forest(after) <==> (PlanOf(atLook, atGuard, op).Ok? ==> Fresh(atWrite, PlanOf(atLook, atGuard, op).value)))
  }

  /**
   * From good tables the call keeps the forest exactly while it is fresh; with nothing in between it is
   * the one step of `Categories` and keeps it always.
   */
  ghost predicate DoneRightly(atLook: Table, atGuard: Table, atWrite: Table, op: Op, after: Table, outcome: Outcome) {
    && (Good(atLook) && Good(atGuard) && Good(atWrite) ==> KeepsForestIffFresh(atLook, atGuard, atWrite, op, after))
    && (atGuard == atLook && atWrite == atLook ==>
          (after, outcome) == Apply(atLook, op) && (Good(atLook) ==> Good(after)))
  }

  lemma CallIsDoneRightly(atLook: Table, atGuard: Table, atWrite: Table, op: Op)
    ensures var (after, outcome) := Call(atLook, atGuard, atWrite, op);
            DoneRightly(atLook, atGuard, atWrite, op, after, outcome)
  {
    UndisturbedCallIsAtomic(atLook, op);
    if Good(atLook) {
      ApplyKeepsInvariant(atLook, op);
    }
    if Good(atLook) && Good(atGuard) && Good(atWrite) {
      CallKeepsForestIffFresh(atLook, atGuard, atWrite, op);
    }
  }

  /**
   * While a call waits for its second read and for its transaction, other calls leave the table as
   * `atGuard` and `atWrite`; at its end `rows` is the table as the call last saw or left it.
   */
  class CategoriesService {
    var rows: Table

    ghost predicate Valid()
      reads this
    {
      Good(rows)
    }

    constructor ()
      ensures Valid() && rows == map[]
    {
      rows := map[];
    }

    method CreateCategory(c: NewCategory, id: Id, atGuard: Table, atWrite: Table) returns (outcome: Outcome)
      modifies this
      ensures (rows, outcome) == Call(old(rows), atGuard, atWrite, CreateOp(c, id))
      ensures DoneRightly(old(rows), atGuard, atWrite, CreateOp(c, id), rows, outcome)
      ensures var slug := if c.slug.Some? then c.slug.value else c.fallbackSlug;
              outcome == if exists x: Id | x in old(rows) ::
                              && !old(rows)[x].deleted
                              && (old(rows)[x].code == c.code || (c.slug == Some(old(rows)[x].slug) && old(rows)[x].slug != ""))
                         then AlreadyExists
                         else if c.parent.Some? && !Live(atGuard, c.parent.value) then ParentNotFound(c.parent.value)
                         else if id in atWrite || exists x: Id | x in atWrite :: atWrite[x].code == c.code || atWrite[x].slug == slug
                         then UniqueViolation
                         else Done
    {
      CallIsDoneRightly(rows, atGuard, atWrite, CreateOp(c, id));
      if Clashes(rows, c) {
        return AlreadyExists;
      }
      rows := atGuard;
      var parentPath := None;
      if c.parent.Some? {
        if !Live(rows, c.parent.value) {
          return ParentNotFound(c.parent.value);
        }
        parentPath := Some(rows[c.parent.value].path);
      }
      rows := atWrite;
      if Taken(rows, c, id) {
        return UniqueViolation;
      }
      InsertRow(c, id, parentPath);
      outcome := Done;
    }

    /** The path contains the row's own id, so the row is inserted without one and then given it. */
    method InsertRow(c: NewCategory, id: Id, parentPath: Option<string>)
      modifies this
      ensures var path := BuildPath(parentPath, id);
              rows == old(rows)[id := Row(c.code, c.StoredSlug(), c.parent, path, DepthOf(path), false)]
    {
      rows := rows[id := Row(c.code, c.StoredSlug(), c.parent, "", 0, false)];
      var path := BuildPath(parentPath, id);
      rows := rows[id := rows[id].(path := path, depth := DepthOf(path))];
    }

    method MoveCategory(id: Id, newParent: Option<Id>, atGuard: Table, atWrite: Table) returns (outcome: Outcome)
      modifies this
      ensures (rows, outcome) == Call(old(rows), atGuard, atWrite, MoveOp(id, newParent))
      ensures DoneRightly(old(rows), atGuard, atWrite, MoveOp(id, newParent), rows, outcome)
      ensures outcome == if !Live(old(rows), id) then NotFound(id)
                         else if newParent == Some(id) then SelfParent
                         else if newParent.Some? && !Live(atGuard, newParent.value) then ParentNotFound(newParent.value)
                         else if newParent.Some? && old(rows)[id].path <= atGuard[newParent.value].path then WouldCycle
                         else if !Live(atWrite, id) then NotFound(id)
                         else Done
    {
      CallIsDoneRightly(rows, atGuard, atWrite, MoveOp(id, newParent));
      if !Live(rows, id) {
        return NotFound(id);
      }
      if newParent == Some(id) {
        return SelfParent;
      }
      var oldPath := rows[id].path;
      rows := atGuard;
      var newParentPath := None;
      if newParent.Some? {
        if !Live(rows, newParent.value) {
          return ParentNotFound(newParent.value);
        }
        if WouldCreateCycle(oldPath, rows[newParent.value].path) {
          return WouldCycle;
        }
        newParentPath := Some(rows[newParent.value].path);
      }
      rows := atWrite;
      RewriteSubtree(oldPath, BuildPath(newParentPath, id));
      if !Live(rows, id) {
        rows := atWrite;
        return NotFound(id);
      }
      rows := rows[id := rows[id].(parent := newParent)];
      outcome := Done;
    }

    /** The loop over the subtree selected by path prefix, in no particular order. */
    method RewriteSubtree(oldPath: string, newPath: string)
      modifies this
      ensures rows == Swept(old(rows), oldPath, newPath)
    {
      ghost var before := rows;
      var pending := set x: Id | x in rows && Live(rows, x) && oldPath <= rows[x].path;
      while pending != {}
        invariant pending <= before.Keys == rows.Keys
        invariant forall x: Id | x in before :: rows[x] ==
                    if x !in pending && Live(before, x) && oldPath <= before[x].path
                    then Rewritten(before[x], oldPath, newPath) else before[x]
        invariant forall x: Id | x in pending :: Live(before, x) && oldPath <= before[x].path
      {
        var x :| x in pending;
        var path := RewritePath(rows[x].path, oldPath, newPath);
        rows := rows[x := rows[x].(path := path, depth := DepthOf(path))];
        pending := pending - {x};
      }
    }

    method RemoveCategory(id: Id, products: nat, atWrite: Table) returns (outcome: Outcome)
      modifies this
      ensures (rows, outcome) == Call(old(rows), old(rows), atWrite, RemoveOp(id, products))
      ensures DoneRightly(old(rows), old(rows), atWrite, RemoveOp(id, products), rows, outcome)
      ensures outcome == if !Live(old(rows), id) then NotFound(id)
                         else if products > 0 then HasProducts
                         else if exists x: Id | x in old(rows) :: old(rows)[x].parent == Some(id) then HasChildren
                         else if !Live(atWrite, id) then NotFound(id)
                         else Done
    {
      CallIsDoneRightly(rows, rows, atWrite, RemoveOp(id, products));
      if !Live(rows, id) {
        return NotFound(id);
      }
      if products > 0 {
        return HasProducts;
      }
      if HasChild(rows, id) {
        return HasChildren;
      }
      rows := atWrite;
      if !Live(rows, id) {
        return NotFound(id);
      }
      rows := rows[id := rows[id].(deleted := true)];
      outcome := Done;
    }

    /** `ancestorIdsOf`: the ids on the way from the root, the category included. */
    method AncestorIdsOf(id: Id) returns (ids: seq<string>)
      requires Valid()
      ensures ids == if Live(rows, id) then Chain(rows, id) else []
    {
      if !Live(rows, id) {
        return [];
      }
      PathPartsAreTheChain(rows, id);
      ids := Parts(rows[id].path);
    }
  }
}

/**
 * The dispatcher against the protocol: its handling of one event, its poll cycle and its recovery are
 * runs of the protocol's steps for one worker, so what every run keeps, the program keeps.
 */
module OutboxRefinement {
  import opened Options
  import opened OutboxTable
  import opened OutboxDispatcher
  import opened OutboxProtocol
  import opened OutboxOwnership

  // ---- One event ------------------------------------------------------------------------

  ghost function MoveAll(routing: Routing, s: State, w: nat, moves: seq<Move>): (s': State)
    requires w < |s.workers|
    ensures |s'.workers| == |s.workers|
    decreases |moves|
  {
    if moves == [] then s else MoveAll(routing, Moved(routing, s, w, moves[0]), w, moves[1..])
  }

  /** The moves a dispatch makes, given how its calls end. */
  function MovesOf(routing: Routing, rows: Rows, c: Claim, f: Faults): seq<Move> {
    if !RouteOf(routing, c.event.eventType).ToQueue? then [MarkProcessed(f.processed)]
    else if !f.add.Works? then [AddThrows(f.add.LandsThenThrows?), MarkFailed(f.failed)]
    else if MarkWorks(rows, c.id, f.processed) then [AddJob, MarkProcessed(f.processed)]
    else [AddJob, MarkProcessed(f.processed), MarkFailed(f.failed)]
  }

  lemma MoveOne(routing: Routing, s: State, w: nat, a: Move)
    requires w < |s.workers|
    ensures MoveAll(routing, s, w, [a]) == Moved(routing, s, w, a)
  {
    assert [a][1..] == [];
  }

  lemma MoveTwo(routing: Routing, s: State, w: nat, a: Move, b: Move)
    requires w < |s.workers|
    ensures MoveAll(routing, s, w, [a, b]) == Moved(routing, Moved(routing, s, w, a), w, b)
  {
    assert [a, b][1..] == [b];
    MoveOne(routing, Moved(routing, s, w, a), w, b);
  }

  lemma MoveThree(routing: Routing, s: State, w: nat, a: Move, b: Move, c: Move)
    requires w < |s.workers|
    ensures MoveAll(routing, s, w, [a, b, c]) == Moved(routing, Moved(routing, Moved(routing, s, w, a), w, b), w, c)
  {
    assert [a, b, c][1..] == [b, c];
    MoveTwo(routing, Moved(routing, s, w, a), w, b, c);
  }

  /** `s'` is `s` after worker `w` has dispatched the first event of its batch. */
  ghost predicate IsDispatched(routing: Routing, s: State, w: nat, f: Faults, s': State)
    requires w < |s.workers| && s.workers[w].Busy? && s.workers[w].batch != []
  {
    var x := s.workers[w];
    var (db, result) := DispatchOne(routing, Db(s.rows, s.queues), x.batch[0], f);
    s' == s.(rows := db.rows, queues := db.queues, workers := s.workers[w := if result.Threw? then Idle else Rest(x)])
  }

  ghost predicate MayDispatch(s: State, w: nat, f: Faults) {
    w < |s.workers| && s.workers[w].Busy? && s.workers[w].batch != [] && s.workers[w].stage.Starting? && f.now == s.clock
  }

  lemma WithoutQueue(routing: Routing, s: State, w: nat, f: Faults)
    requires MayDispatch(s, w, f) && !RouteOf(routing, s.workers[w].batch[0].event.eventType).ToQueue?
    ensures IsDispatched(routing, s, w, f, Moved(routing, s, w, MarkProcessed(f.processed)))
  {
  }

  /** The job added, or not, and the worker at the next stage. */
  lemma AfterAdding(routing: Routing, s: State, w: nat, q: QueueName, lands: bool, threw: bool)
    requires w < |s.workers| && s.workers[w].Busy? && s.workers[w].batch != [] && s.workers[w].stage.Starting?
    requires RouteOf(routing, s.workers[w].batch[0].event.eventType) == ToQueue(q) && (lands || threw)
    ensures var x := s.workers[w];
            var job := Job(x.batch[0].id, x.batch[0].event);
            Moved(routing, s, w, if threw then AddThrows(lands) else AddJob)
            == s.(queues := if lands then Enqueue(s.queues, q, job) else s.queues,
                  workers := s.workers[w := Busy(x.batch, if threw then Failing(false) else Landed)])
  {
  }

  lemma AddThrew(routing: Routing, s: State, w: nat, f: Faults)
    requires MayDispatch(s, w, f) && RouteOf(routing, s.workers[w].batch[0].event.eventType).ToQueue? && !f.add.Works?
    ensures IsDispatched(routing, s, w, f,
                         Moved(routing, Moved(routing, s, w, AddThrows(f.add.LandsThenThrows?)), w, MarkFailed(f.failed)))
  {
    var q := RouteOf(routing, s.workers[w].batch[0].event.eventType).queue;
    AfterAdding(routing, s, w, q, f.add.LandsThenThrows?, true);
  }

  lemma AddedAndMarked(routing: Routing, s: State, w: nat, f: Faults)
    requires MayDispatch(s, w, f) && RouteOf(routing, s.workers[w].batch[0].event.eventType).ToQueue? && f.add.Works?
    requires MarkWorks(s.rows, s.workers[w].batch[0].id, f.processed)
    ensures IsDispatched(routing, s, w, f, Moved(routing, Moved(routing, s, w, AddJob), w, MarkProcessed(f.processed)))
  {
    AfterAdding(routing, s, w, RouteOf(routing, s.workers[w].batch[0].event.eventType).queue, true, false);
  }

  /** The processed mark throws, to no effect or after taking effect, and the row is marked failed. */
  lemma AddedNotMarked(routing: Routing, s: State, w: nat, f: Faults)
    requires MayDispatch(s, w, f) && RouteOf(routing, s.workers[w].batch[0].event.eventType).ToQueue? && f.add.Works?
    requires !MarkWorks(s.rows, s.workers[w].batch[0].id, f.processed)
    ensures IsDispatched(routing, s, w, f,
                         Moved(routing, Moved(routing, Moved(routing, s, w, AddJob), w, MarkProcessed(f.processed)), w,
                               MarkFailed(f.failed)))
  {
    var x := s.workers[w];
    var id := x.batch[0].id;
    AfterAdding(routing, s, w, RouteOf(routing, x.batch[0].event.eventType).queue, true, false);
    var landed := Moved(routing, s, w, AddJob);
    var lands := MarkLands(s.rows, id, f.processed);
    assert Moved(routing, landed, w, MarkProcessed(f.processed))
           == landed.(rows := if lands then MarkedProcessed(s.rows, id, s.clock) else s.rows,
                      workers := landed.workers[w := Busy(x.batch, Failing(lands))]);
  }

  /** One dispatch has the effect of its moves; the worker goes on, or gives the batch up if one threw. */
  lemma DispatchIsARunOfMoves(routing: Routing, s: State, w: nat, f: Faults)
    requires MayDispatch(s, w, f)
    ensures IsDispatched(routing, s, w, f, MoveAll(routing, s, w, MovesOf(routing, s.rows, s.workers[w].batch[0], f)))
  {
    var c := s.workers[w].batch[0];
    if !RouteOf(routing, c.event.eventType).ToQueue? {
      WithoutQueue(routing, s, w, f);
      MoveOne(routing, s, w, MarkProcessed(f.processed));
    } else if !f.add.Works? {
      AddThrew(routing, s, w, f);
      MoveTwo(routing, s, w, AddThrows(f.add.LandsThenThrows?), MarkFailed(f.failed));
    } else if MarkWorks(s.rows, c.id, f.processed) {
      AddedAndMarked(routing, s, w, f);
      MoveTwo(routing, s, w, AddJob, MarkProcessed(f.processed));
    } else {
      AddedNotMarked(routing, s, w, f);
      MoveThree(routing, s, w, AddJob, MarkProcessed(f.processed), MarkFailed(f.failed));
    }
  }

  // ---- A cycle ------------------------------------------------------------------------------

  function ActionsOf(w: nat, moves: seq<Move>): seq<Action> {
    seq(|moves|, i requires 0 <= i < |moves| => Of(w, moves[i]))
  }

  lemma RunFirst(routing: Routing, s: State, first: Action, rest: seq<Action>)
    ensures Run(routing, s, [first] + rest) == Run(routing, Step(routing, s, first), rest)
  {
    RunAppend(routing, s, [first], rest);
    RunOne(routing, s, first);
  }

  lemma FirstMove(routing: Routing, s: State, w: nat, moves: seq<Move>)
    requires w < |s.workers| && moves != []
    ensures Run(routing, s, ActionsOf(w, moves)) == Run(routing, Moved(routing, s, w, moves[0]), ActionsOf(w, moves[1..]))
  {
    assert ActionsOf(w, moves) == [Of(w, moves[0])] + ActionsOf(w, moves[1..]);
    RunFirst(routing, s, Of(w, moves[0]), ActionsOf(w, moves[1..]));
  }

  lemma {:induction false} MovesAreSteps(routing: Routing, s: State, w: nat, moves: seq<Move>)
    requires w < |s.workers|
    ensures Run(routing, s, ActionsOf(w, moves)) == MoveAll(routing, s, w, moves)
    decreases |moves|
  {
    if moves != [] {
      FirstMove(routing, s, w, moves);
      var next := Moved(routing, s, w, moves[0]);
      assert |next.workers| == |s.workers| by {
        MoveOne(routing, s, w, moves[0]);
      }
      MovesAreSteps(routing, next, w, moves[1..]);
    }
  }

  /** The readings of the clock follow one another. */
  ghost predicate InTime(claims: seq<Claim>, faults: Id -> Faults, clock: int)
    decreases |claims|
  {
    claims != [] ==>
      && clock <= faults(claims[0].id).now
      && InTime(claims[1..], faults, faults(claims[0].id).now)
  }

  /** Only the clock and one worker act. */
  ghost predicate OnlyWorker(actions: seq<Action>, w: nat) {
    forall n | 0 <= n < |actions| :: actions[n].Tick? || (actions[n].Of? && actions[n].w == w)
  }

  /** `t` is `s` with the table and the queues as given, later, and worker `w` free. */
  ghost predicate EndsWith(s: State, w: nat, db: Db, t: State)
    requires w < |s.workers|
  {
    && s.clock <= t.clock
    && t == s.(clock := t.clock, rows := db.rows, queues := db.queues, workers := s.workers[w := Idle])
  }

  lemma DispatchIsARun(routing: Routing, s: State, w: nat, f: Faults) returns (actions: seq<Action>)
    requires w < |s.workers| && s.workers[w].Busy? && s.workers[w].batch != [] && s.workers[w].stage.Starting?
    requires s.clock <= f.now
    ensures OnlyWorker(actions, w) && IsDispatched(routing, s.(clock := f.now), w, f, Run(routing, s, actions))
  {
    var later := s.(clock := f.now);
    var moves := MovesOf(routing, s.rows, s.workers[w].batch[0], f);
    actions := [Action.Tick(f.now - s.clock)] + ActionsOf(w, moves);
    RunFirst(routing, s, Action.Tick(f.now - s.clock), ActionsOf(w, moves));
    MovesAreSteps(routing, later, w, moves);
    DispatchIsARunOfMoves(routing, later, w, f);
  }

  lemma {:induction false} BatchIsARun(routing: Routing, s: State, w: nat, claims: seq<Claim>, faults: Id -> Faults)
    returns (actions: seq<Action>)
    requires w < |s.workers| && s.workers[w] == (if claims == [] then Idle else Busy(claims, Starting))
    requires InTime(claims, faults, s.clock)
    ensures OnlyWorker(actions, w)
    ensures EndsWith(s, w, DispatchAll(routing, Db(s.rows, s.queues), claims, faults).0, Run(routing, s, actions))
    decreases |claims|
  {
    if claims == [] {
      actions := [];
    } else {
      var f := faults(claims[0].id);
      var first := DispatchIsARun(routing, s, w, f);
      var t := Run(routing, s, first);
      var (db, result) := DispatchOne(routing, Db(s.rows, s.queues), claims[0], f);
      if result.Threw? {
        actions := first;
      } else {
        var rest := BatchIsARun(routing, t, w, claims[1..], faults);
        RunAppend(routing, s, first, rest);
        actions := first + rest;
      }
    }
  }

  lemma ClaimIsAStep(routing: Routing, s: State, w: nat, size: nat, batch: seq<Id>, locked: set<Id>)
    requires w < |s.workers| && s.workers[w].Idle? && IsBatch(s.rows, s.clock, size, locked, batch) && batch != []
    ensures var rows := ClaimRows(s.rows, batch);
            && Step(routing, s, Of(w, ClaimBatch(size, batch, locked)))
               == Put(s.(rows := rows), w, Busy(ClaimsOf(rows, batch), Starting))
            && Run(routing, s, [Of(w, ClaimBatch(size, batch, locked)), Of(w, Crash)]) == s.(rows := rows)
  {
    RunTwo(routing, s, Of(w, ClaimBatch(size, batch, locked)), Of(w, Crash));
    assert s.workers[w := Idle] == s.workers;
  }

  /** The claim went through: the batch is worked through from there. */
  lemma ClaimedCycleIsARun(routing: Routing, s: State, w: nat, size: nat, batch: seq<Id>, locked: set<Id>,
                           faults: Id -> Faults) returns (actions: seq<Action>)
    requires w < |s.workers| && s.workers[w].Idle? && IsBatch(s.rows, s.clock, size, locked, batch) && batch != []
    requires InTime(ClaimsOf(ClaimRows(s.rows, batch), batch), faults, s.clock)
    ensures OnlyWorker(actions, w)
    ensures var rows := ClaimRows(s.rows, batch);
            EndsWith(s, w, DispatchAll(routing, Db(rows, s.queues), ClaimsOf(rows, batch), faults).0, Run(routing, s, actions))
  {
    var taking := Of(w, ClaimBatch(size, batch, locked));
    var rows := ClaimRows(s.rows, batch);
    var claims := ClaimsOf(rows, batch);
    ClaimIsAStep(routing, s, w, size, batch, locked);
    var rest := BatchIsARun(routing, Put(s.(rows := rows), w, Busy(claims, Starting)), w, claims, faults);
    RunFirst(routing, s, taking, rest);
    actions := [taking] + rest;
  }

  lemma NothingClaimed(rows: Rows)
    ensures ClaimRows(rows, []) == rows
  {
  }

  /**
   * A poll cycle, however its calls end, is a run of one worker: it claims, works through its batch, or
   * stops where an exception escaped. `Tick` in the dispatcher is proved to have this effect.
   */
  lemma CycleIsARun(routing: Routing, s: State, w: nat, size: nat, batch: seq<Id>, locked: set<Id>, claim: CallOutcome,
                    faults: Id -> Faults) returns (actions: seq<Action>)
    requires w < |s.workers| && s.workers[w].Idle? && IsBatch(s.rows, s.clock, size, locked, batch)
    requires InTime(ClaimsOf(ClaimRows(s.rows, batch), batch), faults, s.clock)
    ensures OnlyWorker(actions, w)
    ensures EndsWith(s, w, Cycle(routing, Db(s.rows, s.queues), batch, claim, faults).0, Run(routing, s, actions))
  {
    NothingClaimed(s.rows);
    if claim.Refused? || batch == [] {
      actions := [];
    } else if claim.LandsThenThrows? {
      ClaimIsAStep(routing, s, w, size, batch, locked);
      actions := [Of(w, ClaimBatch(size, batch, locked)), Of(w, Crash)];
    } else {
      actions := ClaimedCycleIsARun(routing, s, w, size, batch, locked, faults);
    }
  }

  /** A recovery call is the protocol's recovery step at its reading of the clock. */
  lemma RecoveryIsAStep(routing: Routing, s: State, now: int, olderThanMs: int)
    requires s.clock <= now
    ensures Run(routing, s, [Action.Tick(now - s.clock), Recover(olderThanMs)])
            == s.(clock := now, rows := Recovered(s.rows, now, olderThanMs))
  {
    RunTwo(routing, s, Action.Tick(now - s.clock), Recover(olderThanMs));
  }
}

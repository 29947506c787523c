/**
 * Whose hands an event is in, and when a processed row can become a failed one again: exactly when a
 * worker that still has it in hand can come to its failed mark.
 */
module OutboxOwnership {
  import opened Options
  import opened OutboxTable
  import opened OutboxProtocol

  ghost predicate Holds(s: State, w: int, k: int, id: Id) {
    && 0 <= w < |s.workers| && s.workers[w].Busy? && 0 <= k < |s.workers[w].batch|
    && s.workers[w].batch[k].id == id
  }

  // ---- Two workers on one event ------------------------------------------------------------------------

  /** An event in hand is in processing, unless its holder's processed mark took effect and threw. */
  ghost predicate HoldsRightly(s: State, w: int, k: int, id: Id)
    requires Holds(s, w, k, id)
  {
    if k == 0 && s.workers[w].stage == Failing(true) then id in s.rows ==> s.rows[id].status.Processed?
    else id in s.rows && s.rows[id].status.Processing?
  }

  ghost predicate HeldOnce(s: State, id: Id) {
    forall w, k, v, i {:trigger Holds(s, w, k, id), Holds(s, v, i, id)} | Holds(s, w, k, id) && Holds(s, v, i, id) ::
      w == v && k == i
  }

  ghost predicate ExclusiveAt(s: State, id: Id) {
    && HeldOnce(s, id)
    && forall w, k {:trigger Holds(s, w, k, id)} | Holds(s, w, k, id) :: HoldsRightly(s, w, k, id)
  }

  /** Every event in hand is in one worker's hands only. */
  ghost predicate Exclusive(s: State) {
    forall id :: ExclusiveAt(s, id)
  }

  /** The recovery that takes a row from a worker still at it. */
  ghost predicate TakesRow(s: State, a: Action, id: Id) {
    && a.Recover? && id in s.rows && Stuck(s.rows[id], s.clock, a.olderThanMs)
    && exists w, k :: Holds(s, w, k, id)
  }

  ghost predicate TakesFromWorker(s: State, a: Action) {
    exists id :: TakesRow(s, a, id)
  }

  /** Nothing new in any hand, when worker `v` has let go of the first of its batch. */
  lemma FewerHands(s: State, s': State, id: Id, v: int)
    requires ExclusiveAt(s, id)
    requires forall w, k {:trigger Holds(s', w, k, id)} | Holds(s', w, k, id) ::
               Holds(s, w, if w == v then k + 1 else k, id) && HoldsRightly(s', w, k, id)
    ensures ExclusiveAt(s', id)
  {
    forall w, k, u, i | Holds(s', w, k, id) && Holds(s', u, i, id)
      ensures w == u && k == i
    {
      assert Holds(s, w, if w == v then k + 1 else k, id) && Holds(s, u, if u == v then i + 1 else i, id);
    }
  }

  lemma ClaimIsExclusive(s: State, w: nat, size: nat, batch: seq<Id>, locked: set<Id>, id: Id)
    requires ExclusiveAt(s, id) && w < |s.workers| && s.workers[w].Idle?
    ensures ExclusiveAt(DoClaim(s, w, size, batch, locked), id)
  {
    if IsBatch(s.rows, s.clock, size, locked, batch) && batch != [] {
      var s' := DoClaim(s, w, size, batch, locked);
      BatchIsClaimable(s.rows, s.clock, size, locked, batch);
      assert forall k | 0 <= k < |batch| :: batch[k] in batch && batch[k] in s.rows;
      forall v, k | Holds(s', v, k, id)
        ensures HoldsRightly(s', v, k, id)
        ensures v == w ==> batch[k] == id && Claimable(s.rows[id], s.clock)
        ensures v != w ==> Holds(s, v, k, id)
      {
        assert v != w ==> Holds(s, v, k, id);
      }
      forall v, k, u, i | Holds(s', v, k, id) && Holds(s', u, i, id)
        ensures v == u && k == i
      {
        if v == w && u == w {
          assert batch[k] == batch[i];
        }
      }
    }
  }

  lemma ProcessedMoveIsExclusive(s: State, w: nat, outcome: CallOutcome, id: Id)
    requires ExclusiveAt(s, id) && w < |s.workers| && s.workers[w].Busy? && s.workers[w].batch != []
    requires !s.workers[w].stage.Failing?
    ensures ExclusiveAt(DoProcessed(s, w, outcome), id)
  {
    var s' := DoProcessed(s, w, outcome);
    var x := s.workers[w];
    var shifted := if MarkWorks(s.rows, x.batch[0].id, outcome) then w as int else -1;
    forall v, k | Holds(s', v, k, id)
      ensures Holds(s, v, if v == shifted then k + 1 else k, id) && HoldsRightly(s', v, k, id)
    {
      assert Holds(s, v, if v == shifted then k + 1 else k, id);
      assert x.batch[0].id == id ==> Holds(s, w, 0, id);
    }
    FewerHands(s, s', id, shifted);
  }

  lemma FailedMoveIsExclusive(s: State, w: nat, outcome: CallOutcome, id: Id)
    requires ExclusiveAt(s, id) && w < |s.workers| && s.workers[w].Busy? && s.workers[w].batch != []
    ensures ExclusiveAt(DoFailed(s, w, outcome), id)
  {
    var s' := DoFailed(s, w, outcome);
    var x := s.workers[w];
    var shifted := if MarkWorks(s.rows, x.batch[0].id, outcome) then w as int else -1;
    forall v, k | Holds(s', v, k, id)
      ensures Holds(s, v, if v == shifted then k + 1 else k, id) && HoldsRightly(s', v, k, id)
    {
      assert Holds(s, v, if v == shifted then k + 1 else k, id);
      assert x.batch[0].id == id ==> Holds(s, w, 0, id);
    }
    FewerHands(s, s', id, shifted);
  }

  lemma MoveIsExclusive(routing: Routing, s: State, w: nat, move: Move, id: Id)
    requires ExclusiveAt(s, id) && w < |s.workers|
    ensures ExclusiveAt(Moved(routing, s, w, move), id)
  {
    var x := s.workers[w];
    if move.ClaimBatch? && x.Idle? {
      ClaimIsExclusive(s, w, move.size, move.batch, move.locked, id);
    } else if move.MarkProcessed? && x.Busy? && x.batch != [] && (x.stage.Landed? || NeedsNoQueue(routing, x)) {
      ProcessedMoveIsExclusive(s, w, move.outcome, id);
    } else if move.MarkFailed? && x.Busy? && x.batch != [] && x.stage.Failing? {
      FailedMoveIsExclusive(s, w, move.outcome, id);
    } else {
      QuietMoveIsExclusive(routing, s, w, move, id);
    }
  }

  lemma QuietMoveIsExclusive(routing: Routing, s: State, w: nat, move: Move, id: Id)
    requires ExclusiveAt(s, id) && w < |s.workers|
    requires move.MarkProcessed? || move.MarkFailed? || move.ClaimBatch? ==> Moved(routing, s, w, move) == s
    ensures ExclusiveAt(Moved(routing, s, w, move), id)
  {
    var s' := Moved(routing, s, w, move);
    forall v, k | Holds(s', v, k, id)
      ensures Holds(s, v, k, id) && HoldsRightly(s', v, k, id)
    {
      assert Holds(s, v, k, id);
    }
    FewerHands(s, s', id, -1);
  }

  lemma OtherStepIsExclusive(routing: Routing, s: State, a: Action, id: Id)
    requires Sound(routing, s) && ExclusiveAt(s, id) && !a.Recover? && (a.Of? ==> a.w >= |s.workers|)
    ensures ExclusiveAt(Step(routing, s, a), id)
  {
    var s' := Step(routing, s, a);
    forall w, k | Holds(s', w, k, id)
      ensures Holds(s, w, k, id) && HoldsRightly(s', w, k, id)
    {
      assert Holds(s, w, k, id) && WorkerIsSound(routing, s, s.workers[w]);
      assert ClaimIsSound(s, s.workers[w].batch[k]);
      if a.Commit? && a.tx < |s.open| {
        assert id in s.open[a.tx].events ==> id !in s.committed;
      }
    }
    FewerHands(s, s', id, -1);
  }

  lemma RecoveryIsExclusive(s: State, a: Action, id: Id)
    requires ExclusiveAt(s, id) && a.Recover?
    ensures ExclusiveAt(s.(rows := Recovered(s.rows, s.clock, a.olderThanMs)), id) <==> !TakesRow(s, a, id)
  {
    var s' := s.(rows := Recovered(s.rows, s.clock, a.olderThanMs));
    forall w, k
      ensures Holds(s', w, k, id) <==> Holds(s, w, k, id)
    {
    }
    if TakesRow(s, a, id) {
      var w, k :| Holds(s, w, k, id);
      assert Holds(s', w, k, id) && HoldsRightly(s, w, k, id) && !HoldsRightly(s', w, k, id);
    } else {
      FewerHands(s, s', id, -1);
    }
  }

  lemma ExclusiveUnlessTaken(routing: Routing, s: State, a: Action, id: Id)
    requires Sound(routing, s) && ExclusiveAt(s, id)
    ensures ExclusiveAt(Step(routing, s, a), id) <==> !TakesRow(s, a, id)
  {
    if a.Recover? {
      RecoveryIsExclusive(s, a, id);
    } else if a.Of? && a.w < |s.workers| {
      MoveIsExclusive(routing, s, a.w, a.move, id);
    } else {
      OtherStepIsExclusive(routing, s, a, id);
    }
  }

  /** One step keeps every event in one worker's hands, unless it is a recovery that takes one away. */
  lemma ExclusiveUnlessRecovered(routing: Routing, s: State, a: Action)
    requires Sound(routing, s) && Exclusive(s)
    ensures Exclusive(Step(routing, s, a)) <==> !TakesFromWorker(s, a)
  {
    forall id
      ensures ExclusiveAt(Step(routing, s, a), id) <==> !TakesRow(s, a, id)
    {
      ExclusiveUnlessTaken(routing, s, a, id);
    }
  }

  /** No recovery of the run takes this row from a worker. */
  ghost predicate RecoveriesSpare(routing: Routing, clock: int, actions: seq<Action>, id: Id) {
    forall n | 0 <= n < |actions| :: !TakesRow(Run(routing, Initial(clock), actions[..n]), actions[n], id)
  }

  lemma {:induction false} RunIsExclusive(routing: Routing, clock: int, actions: seq<Action>, id: Id)
    requires RecoveriesSpare(routing, clock, actions, id)
    ensures ExclusiveAt(Run(routing, Initial(clock), actions), id)
  {
    if actions != [] {
      var n := |actions| - 1;
      SparedUpTo(routing, clock, actions, n, id);
      RunIsExclusive(routing, clock, actions[..n], id);
      RunIsSound(routing, clock, actions[..n]);
      ExclusiveUnlessTaken(routing, Run(routing, Initial(clock), actions[..n]), actions[n], id);
    }
  }

  lemma SparedUpTo(routing: Routing, clock: int, actions: seq<Action>, n: nat, id: Id)
    requires RecoveriesSpare(routing, clock, actions, id) && n <= |actions|
    ensures RecoveriesSpare(routing, clock, actions[..n], id)
  {
    forall m | 0 <= m < n
      ensures !TakesRow(Run(routing, Initial(clock), actions[..n][..m]), actions[..n][m], id)
    {
      assert actions[..n][..m] == actions[..m] && actions[..n][m] == actions[m];
    }
  }

  // ---- Which step undoes a processed row -------------------------------------------------------------

  ghost predicate IsProcessed(s: State, id: Id) {
    id in s.rows && s.rows[id].status.Processed?
  }

  ghost predicate Undone(s: State, id: Id) {
    id in s.rows && !s.rows[id].status.Processed?
  }

  /** The failed mark, taking effect, of a worker that has the event at the head of its batch. */
  ghost predicate FailsIt(s: State, a: Action, id: Id) {
    && a.Of? && a.move.MarkFailed? && !a.move.outcome.Refused?
    && Holds(s, a.w, 0, id) && s.workers[a.w].stage.Failing?
  }

  lemma UndoneIffFailed(routing: Routing, s: State, a: Action, id: Id)
    requires Sound(routing, s) && IsProcessed(s, id)
    ensures Undone(Step(routing, s, a), id) <==> FailsIt(s, a, id)
  {
    assert RowIsSound(routing, s, id);
    if a.Commit? && a.tx < |s.open| {
      assert id in s.open[a.tx].events ==> id !in s.committed;
    }
  }

  /**
   * While an event is in one worker's hands, the only step that undoes its processed row is the failed
   * mark of that worker after its own processed mark took effect and threw; any other step leaves the
   * row as it is until it is purged.
   */
  lemma ProcessedIsFinalWhileExclusive(routing: Routing, s: State, a: Action, id: Id)
    requires Sound(routing, s) && ExclusiveAt(s, id) && IsProcessed(s, id)
    ensures Undone(Step(routing, s, a), id) <==> FailsIt(s, a, id)
    ensures FailsIt(s, a, id) ==> s.workers[a.w].stage == Failing(true)
    ensures !FailsIt(s, a, id) && id in Step(routing, s, a).rows ==> Step(routing, s, a).rows[id] == s.rows[id]
  {
    UndoneIffFailed(routing, s, a, id);
    assert RowIsSound(routing, s, id);
    if a.Of? && a.w < |s.workers| && s.workers[a.w].Busy? && s.workers[a.w].batch != [] {
      assert Holds(s, a.w, 0, s.workers[a.w].batch[0].id);
    }
    if a.Commit? && a.tx < |s.open| {
      assert id in s.open[a.tx].events ==> id !in s.committed;
    }
  }

  // ---- When a processed row may still be undone ---------------------------------------------------------

  /** The worker can come to the failed mark of this event: nothing before it in the batch is gone. */
  ghost predicate Reaches(routing: Routing, s: State, w: int, k: int, id: Id) {
    && Holds(s, w, k, id) && RouteOf(routing, s.workers[w].batch[k].event.eventType).ToQueue?
    && forall i | 0 <= i <= k :: s.workers[w].batch[i].id in s.rows
  }

  ghost predicate InReach(routing: Routing, s: State, id: Id) {
    exists w, k :: Reaches(routing, s, w, k, id)
  }

  /** Some way to go on turns the row into one that is not processed. */
  ghost predicate MayBeUndone(routing: Routing, s: State, id: Id) {
    exists more :: Undone(Run(routing, s, more), id)
  }

  /** A batch goes on unchanged, loses its head once that is marked, or is newly claimed. */
  ghost predicate BatchGoesOn(s: State, w: nat, batch: seq<Claim>) {
    || (w < |s.workers| && s.workers[w].Busy? && batch == s.workers[w].batch)
    || (w < |s.workers| && s.workers[w].Busy? && |s.workers[w].batch| > 0 && batch == s.workers[w].batch[1..]
        && s.workers[w].batch[0].id in s.rows)
    || forall k {:trigger batch[k]} | 0 <= k < |batch| :: batch[k].id in s.rows && Claimable(s.rows[batch[k].id], s.clock)
  }

  lemma BatchAfterClaim(s: State, w: nat, size: nat, batch: seq<Id>, locked: set<Id>)
    requires w < |s.workers| && s.workers[w].Idle? && DoClaim(s, w, size, batch, locked).workers[w].Busy?
    ensures BatchGoesOn(s, w, DoClaim(s, w, size, batch, locked).workers[w].batch)
  {
    BatchIsClaimable(s.rows, s.clock, size, locked, batch);
    var claims := DoClaim(s, w, size, batch, locked).workers[w].batch;
    forall k | 0 <= k < |claims|
      ensures claims[k].id in s.rows && Claimable(s.rows[claims[k].id], s.clock)
    {
      assert claims[k].id == batch[k];
    }
  }

  lemma BatchAfterMove(routing: Routing, s: State, w: nat, move: Move)
    requires w < |s.workers| && Moved(routing, s, w, move).workers[w].Busy?
    ensures BatchGoesOn(s, w, Moved(routing, s, w, move).workers[w].batch)
  {
    if move.ClaimBatch? && s.workers[w].Idle? {
      BatchAfterClaim(s, w, move.size, move.batch, move.locked);
    }
  }

  /** A step leaves the workers it is not of alone; one newly hired is idle. */
  ghost predicate OthersStay(s: State, s': State, v: int) {
    forall w {:trigger s'.workers[w]} | 0 <= w < |s'.workers| && w != v ::
      if w < |s.workers| then s'.workers[w] == s.workers[w] else s'.workers[w].Idle?
  }

  lemma StepLeavesOthers(routing: Routing, s: State, a: Action)
    ensures OthersStay(s, Step(routing, s, a), if a.Of? then a.w else -1)
    ensures a.Of? && a.w < |s.workers| ==> Step(routing, s, a) == Moved(routing, s, a.w, a.move)
    ensures a.Of? && a.w >= |s.workers| ==> Step(routing, s, a) == s
  {
    if a.Of? && a.w < |s.workers| {
      MoveLeavesOthers(routing, s, a.w, a.move);
    }
  }

  lemma MoveLeavesOthers(routing: Routing, s: State, w: nat, move: Move)
    requires w < |s.workers|
    ensures OthersStay(s, Moved(routing, s, w, move), w)
  {
  }

  lemma BatchAfterStep(routing: Routing, s: State, a: Action, w: nat)
    requires w < |Step(routing, s, a).workers| && Step(routing, s, a).workers[w].Busy?
    ensures BatchGoesOn(s, w, Step(routing, s, a).workers[w].batch)
  {
    StepLeavesOthers(routing, s, a);
    if a.Of? && a.w == w && w < |s.workers| {
      BatchAfterMove(routing, s, w, a.move);
    }
  }

  /** What a worker reaches, it reached when its batch had one more at the head, or the same. */
  lemma ReachedBefore(routing: Routing, s: State, s': State, w: int, k: int, dropped: nat, id: Id)
    requires WorkersAreSound(routing, s) && Progress(s, s') && Reaches(routing, s', w, k, id)
    requires 0 <= w < |s.workers| && s.workers[w].Busy? && dropped <= 1 && dropped <= |s.workers[w].batch|
    requires s'.workers[w].batch == s.workers[w].batch[dropped..]
    requires dropped == 1 ==> s.workers[w].batch[0].id in s.rows
    ensures Reaches(routing, s, w, k + dropped, id)
  {
    var x := s.workers[w];
    assert WorkerIsSound(routing, s, x);
    assert x.batch[k + dropped] == s'.workers[w].batch[k];
    forall i | 0 <= i <= k + dropped
      ensures x.batch[i].id in s.rows
    {
      if i >= dropped {
        assert ClaimIsSound(s, x.batch[i]);
        assert s'.workers[w].batch[i - dropped] == x.batch[i];
        assert s'.workers[w].batch[i - dropped].id in s'.rows;
      }
    }
  }

  lemma OutOfReachStays(routing: Routing, s: State, a: Action, id: Id)
    requires Sound(routing, s) && id in s.committed && !Undone(s, id) && !InReach(routing, s, id)
    ensures !InReach(routing, Step(routing, s, a), id)
  {
    var s' := Step(routing, s, a);
    StepIsSound(routing, s, a);
    forall w, k
      ensures !Reaches(routing, s', w, k, id)
    {
      if Reaches(routing, s', w, k, id) {
        BatchAfterStep(routing, s, a, w);
        NotReachedAnew(routing, s, s', w, k, id);
      }
    }
  }

  lemma NotReachedAnew(routing: Routing, s: State, s': State, w: int, k: int, id: Id)
    requires WorkersAreSound(routing, s) && Progress(s, s') && Reaches(routing, s', w, k, id)
    requires id in s.committed && !Undone(s, id)
    requires BatchGoesOn(s, w, s'.workers[w].batch)
    ensures InReach(routing, s, id)
  {
    var batch := s'.workers[w].batch;
    assert s'.workers[w].batch[k].id in s'.rows;
    assert id in s.rows && !Claimable(s.rows[id], s.clock);
    if batch == s.workers[w].batch {
      assert batch == s.workers[w].batch[0..];
      ReachedBefore(routing, s, s', w, k, 0, id);
    } else {
      ReachedBefore(routing, s, s', w, k, 1, id);
    }
  }

  lemma {:induction false} NeverUndone(routing: Routing, s: State, more: seq<Action>, id: Id)
    requires Sound(routing, s) && IsProcessed(s, id) && !InReach(routing, s, id)
    ensures var t := Run(routing, s, more);
            Sound(routing, t) && id in t.committed && !Undone(t, id) && !InReach(routing, t, id)
    decreases |more|
  {
    assert RowIsSound(routing, s, id);
    if more != [] {
      var n := |more| - 1;
      NeverUndone(routing, s, more[..n], id);
      var t := Run(routing, s, more[..n]);
      StepIsSound(routing, t, more[n]);
      OutOfReachStays(routing, t, more[n], id);
      if id in t.rows {
        UndoneIffFailed(routing, t, more[n], id);
        if FailsIt(t, more[n], id) {
          assert WorkerIsSound(routing, t, t.workers[more[n].w]);
          assert Reaches(routing, t, more[n].w, 0, id);
        }
      }
    }
  }

  lemma RunOneMore(routing: Routing, s: State, actions: seq<Action>, a: Action)
    ensures Run(routing, s, actions + [a]) == Step(routing, Run(routing, s, actions), a)
  {
    assert (actions + [a])[..|actions|] == actions;
  }

  lemma RunOne(routing: Routing, s: State, a: Action)
    ensures Run(routing, s, [a]) == Step(routing, s, a)
  {
    assert [a][..0] == [];
  }

  lemma RunTwo(routing: Routing, s: State, a: Action, b: Action)
    ensures Run(routing, s, [a, b]) == Step(routing, Step(routing, s, a), b)
  {
    RunOne(routing, s, a);
    assert [a, b][..1] == [a];
  }

  /** What a worker has still to do to fail the event it is at. */
  function ToFailure(w: nat, stage: Stage): seq<Action> {
    match stage
    case Starting => [Of(w, AddThrows(false)), Of(w, MarkFailed(Works))]
    case Landed => [Of(w, MarkProcessed(Refused)), Of(w, MarkFailed(Works))]
    case Failing(_) => [Of(w, MarkFailed(Works))]
  }

  /** The worker's state and row after its failed mark for the head of its batch. */
  ghost function HeadFailed(s: State, w: nat): State
    requires w < |s.workers| && s.workers[w].Busy? && s.workers[w].batch != []
  {
    Put(s.(rows := MarkedFailed(s.rows, s.workers[w].batch[0], s.clock)), w, Rest(s.workers[w]))
  }

  lemma FailsWhenFailing(routing: Routing, s: State, w: nat, x: Worker)
    requires w < |s.workers| && x.Busy? && x.batch != [] && x.stage.Failing? && x.batch[0].id in s.rows
    ensures Step(routing, Put(s, w, x), Of(w, MarkFailed(Works))) == HeadFailed(Put(s, w, x), w)
  {
  }

  lemma ComesToFailing(routing: Routing, s: State, w: nat)
    requires w < |s.workers| && s.workers[w].Busy? && s.workers[w].batch != []
    requires !NeedsNoQueue(routing, s.workers[w])
    ensures var x := s.workers[w];
            && (x.stage.Starting? ==> Step(routing, s, Of(w, AddThrows(false))) == Put(s, w, x.(stage := Failing(false))))
            && (x.stage.Landed? ==> Step(routing, s, Of(w, MarkProcessed(Refused))) == Put(s, w, x.(stage := Failing(false))))
  {
  }

  lemma FailsHead(routing: Routing, s: State, w: nat)
    requires w < |s.workers| && s.workers[w].Busy? && s.workers[w].batch != []
    requires s.workers[w].batch[0].id in s.rows && !NeedsNoQueue(routing, s.workers[w])
    ensures Run(routing, s, ToFailure(w, s.workers[w].stage)) == HeadFailed(s, w)
  {
    var x := s.workers[w];
    ComesToFailing(routing, s, w);
    if x.stage.Failing? {
      assert Put(s, w, x) == s;
      FailsWhenFailing(routing, s, w, x);
      RunOne(routing, s, Of(w, MarkFailed(Works)));
    } else {
      FailsWhenFailing(routing, s, w, x.(stage := Failing(false)));
      RunTwo(routing, s, ToFailure(w, x.stage)[0], Of(w, MarkFailed(Works)));
    }
  }

  /** A worker gets past the head of its batch as long as its row is there. */
  lemma PassesHead(routing: Routing, s: State, w: nat) returns (more: seq<Action>)
    requires w < |s.workers| && s.workers[w].Busy? && s.workers[w].batch != [] && s.workers[w].batch[0].id in s.rows
    ensures var t, x := Run(routing, s, more), s.workers[w];
            && t.workers == s.workers[w := Rest(x)] && t.rows.Keys == s.rows.Keys
            && forall id {:trigger t.rows[id]} | id in s.rows && id != x.batch[0].id :: t.rows[id] == s.rows[id]
  {
    if NeedsNoQueue(routing, s.workers[w]) {
      more := [Of(w, MarkProcessed(Works))];
      RunOne(routing, s, Of(w, MarkProcessed(Works)));
    } else {
      more := ToFailure(w, s.workers[w].stage);
      FailsHead(routing, s, w);
    }
  }

  lemma {:induction false} RunAppend(routing: Routing, s: State, a: seq<Action>, b: seq<Action>)
    ensures Run(routing, s, a + b) == Run(routing, Run(routing, s, a), b)
    decreases |b|
  {
    if b == [] {
      assert a + b == a;
    } else {
      var front, last := b[..|b| - 1], b[|b| - 1];
      assert b == front + [last] && a + b == (a + front) + [last];
      RunAppend(routing, s, a, front);
      RunOneMore(routing, s, a + front, last);
      RunOneMore(routing, Run(routing, s, a), front, last);
    }
  }

  /** A worker that reaches a processed event works its way there and fails it. */
  lemma {:induction false} ReachedIsUndone(routing: Routing, s: State, w: nat, k: nat, id: Id) returns (more: seq<Action>)
    requires Reaches(routing, s, w, k, id)
    ensures Undone(Run(routing, s, more), id)
    decreases k
  {
    var x := s.workers[w];
    assert x.batch[0].id in s.rows;
    if k == 0 {
      more := ToFailure(w, x.stage);
      FailsHead(routing, s, w);
    } else if x.batch[0].id == id && !NeedsNoQueue(routing, x) {
      more := ToFailure(w, x.stage);
      FailsHead(routing, s, w);
    } else {
      var first := PassesHead(routing, s, w);
      var t := Run(routing, s, first);
      forall i | 0 <= i <= k - 1
        ensures t.workers[w].batch[i].id in t.rows
      {
        assert x.batch[i + 1].id in s.rows;
      }
      var rest := ReachedIsUndone(routing, t, w, k - 1, id);
      RunAppend(routing, s, first, rest);
      more := first + rest;
    }
  }

  /**
   * A processed row may still become a failed one exactly when some worker that has it in hand, for a
   * queue, can still get to it.
   */
  lemma UndoneIffInReach(routing: Routing, s: State, id: Id)
    requires Sound(routing, s) && IsProcessed(s, id)
    ensures MayBeUndone(routing, s, id) <==> InReach(routing, s, id)
  {
    if InReach(routing, s, id) {
      var w, k :| Reaches(routing, s, w, k, id);
      var more := ReachedIsUndone(routing, s, w, k, id);
    } else {
      forall more
        ensures !Undone(Run(routing, s, more), id)
      {
        NeverUndone(routing, s, more, id);
      }
    }
  }

  // ---- Two ways a processed row comes to be undone -----------------------------------------------------------

  /** Its holder's own processed mark took effect and threw. */
  ghost predicate MarkThrew(s: State, id: Id) {
    exists w :: Holds(s, w, 0, id) && s.workers[w].stage == Failing(true)
  }

  /** The step by which that happens. */
  ghost predicate ThrowsMark(s: State, a: Action, id: Id) {
    && a.Of? && a.move == MarkProcessed(LandsThenThrows)
    && Holds(s, a.w, 0, id) && s.workers[a.w].stage.Landed? && id in s.rows
  }

  lemma InReachIffMarkThrew(routing: Routing, s: State, id: Id)
    requires Sound(routing, s) && ExclusiveAt(s, id) && IsProcessed(s, id)
    ensures InReach(routing, s, id) <==> MarkThrew(s, id)
  {
    if MarkThrew(s, id) {
      var w :| Holds(s, w, 0, id) && s.workers[w].stage == Failing(true);
      assert WorkerIsSound(routing, s, s.workers[w]);
      assert Reaches(routing, s, w, 0, id);
    }
    if InReach(routing, s, id) {
      var w, k :| Reaches(routing, s, w, k, id);
      assert Holds(s, w, k, id) && HoldsRightly(s, w, k, id);
    }
  }

  /**
   * In every run whose recoveries have taken the row from no worker, a processed row may still become a
   * failed one exactly when its holder's processed mark took effect and threw.
   */
  lemma ProcessedMayFailIffMarkThrew(routing: Routing, clock: int, actions: seq<Action>, id: Id)
    requires RecoveriesSpare(routing, clock, actions, id) && IsProcessed(Run(routing, Initial(clock), actions), id)
    ensures MayBeUndone(routing, Run(routing, Initial(clock), actions), id)
            <==> MarkThrew(Run(routing, Initial(clock), actions), id)
  {
    var s := Run(routing, Initial(clock), actions);
    RunIsSound(routing, clock, actions);
    RunIsExclusive(routing, clock, actions, id);
    UndoneIffInReach(routing, s, id);
    InReachIffMarkThrew(routing, s, id);
  }

  /** No processed mark of the row throws after taking effect. */
  ghost predicate MarksReturn(routing: Routing, clock: int, actions: seq<Action>, id: Id) {
    forall n | 0 <= n < |actions| :: !ThrowsMark(Run(routing, Initial(clock), actions[..n]), actions[n], id)
  }

  lemma MarkThrewByMove(routing: Routing, s: State, w: nat, move: Move, id: Id)
    requires w < |s.workers| && !MarkThrew(s, id) && !ThrowsMark(s, Of(w, move), id)
    requires var x' := Moved(routing, s, w, move).workers[w]; x'.Busy? && x'.batch != [] && x'.batch[0].id == id
    ensures Moved(routing, s, w, move).workers[w].stage != Failing(true)
  {
    var x := s.workers[w];
    if x.Busy? && x.batch != [] && x.batch[0].id == id {
      assert Holds(s, w, 0, id);
    }
  }

  lemma OthersHaveNotThrown(s: State, s': State, v: int, id: Id)
    requires !MarkThrew(s, id) && OthersStay(s, s', v)
    requires Holds(s', v, 0, id) ==> s'.workers[v].stage != Failing(true)
    ensures !MarkThrew(s', id)
  {
    forall w | Holds(s', w, 0, id)
      ensures s'.workers[w].stage != Failing(true)
    {
      assert w != v ==> Holds(s, w, 0, id);
    }
  }

  lemma MarkThrewByStep(routing: Routing, s: State, a: Action, id: Id)
    requires !MarkThrew(s, id) && !ThrowsMark(s, a, id)
    ensures !MarkThrew(Step(routing, s, a), id)
  {
    StepLeavesOthers(routing, s, a);
    if a.Of? && a.w < |s.workers| {
      if Holds(Moved(routing, s, a.w, a.move), a.w, 0, id) {
        MarkThrewByMove(routing, s, a.w, a.move, id);
      }
      OthersHaveNotThrown(s, Moved(routing, s, a.w, a.move), a.w, id);
    } else if !a.Of? {
      OthersHaveNotThrown(s, Step(routing, s, a), -1, id);
    }
  }

  lemma {:induction false} MarkThrewInRun(routing: Routing, clock: int, actions: seq<Action>, id: Id)
    requires MarksReturn(routing, clock, actions, id)
    ensures !MarkThrew(Run(routing, Initial(clock), actions), id)
  {
    if actions != [] {
      var n := |actions| - 1;
      ReturnedUpTo(routing, clock, actions, n, id);
      MarkThrewInRun(routing, clock, actions[..n], id);
      MarkThrewByStep(routing, Run(routing, Initial(clock), actions[..n]), actions[n], id);
    }
  }

  lemma ReturnedUpTo(routing: Routing, clock: int, actions: seq<Action>, n: nat, id: Id)
    requires MarksReturn(routing, clock, actions, id) && n <= |actions|
    ensures MarksReturn(routing, clock, actions[..n], id)
  {
    forall m | 0 <= m < n
      ensures !ThrowsMark(Run(routing, Initial(clock), actions[..n][..m]), actions[..n][m], id)
    {
      assert actions[..n][..m] == actions[..m] && actions[..n][m] == actions[m];
    }
  }

  /** Processed as given, or purged. */
  ghost predicate KeptAs(s: State, id: Id, row: Row) {
    id in s.committed && (id in s.rows ==> s.rows[id] == row)
  }

  lemma KeptByStep(routing: Routing, s: State, a: Action, id: Id, row: Row)
    requires Sound(routing, s) && ExclusiveAt(s, id) && !MarkThrew(s, id)
    requires KeptAs(s, id, row) && row.status.Processed?
    ensures KeptAs(Step(routing, s, a), id, row)
  {
    StepIsSound(routing, s, a);
    if id in s.rows {
      ProcessedIsFinalWhileExclusive(routing, s, a, id);
    }
  }

  /**
   * In a run that has neither, no recovery that takes the row from a worker and no mark of it that
   * throws after taking effect, a row once processed is as it was until it is purged.
   */
  lemma {:induction false} ProcessedIsFinal(routing: Routing, clock: int, actions: seq<Action>, m: nat, id: Id)
    requires RecoveriesSpare(routing, clock, actions, id) && MarksReturn(routing, clock, actions, id)
    requires m <= |actions| && IsProcessed(Run(routing, Initial(clock), actions[..m]), id)
    ensures KeptAs(Run(routing, Initial(clock), actions), id, Run(routing, Initial(clock), actions[..m]).rows[id])
    decreases |actions|
  {
    if m == |actions| {
      assert actions[..m] == actions;
      KeptAtOnce(routing, clock, actions, id);
    } else {
      var front, last := actions[..|actions| - 1], actions[|actions| - 1];
      assert front[..m] == actions[..m] && actions == front + [last];
      var row := Run(routing, Initial(clock), actions[..m]).rows[id];
      SparedUpTo(routing, clock, actions, |front|, id);
      ReturnedUpTo(routing, clock, actions, |front|, id);
      ProcessedIsFinal(routing, clock, front, m, id);
      KeptByOneMore(routing, clock, front, last, id, row);
    }
  }

  lemma KeptAtOnce(routing: Routing, clock: int, actions: seq<Action>, id: Id)
    requires IsProcessed(Run(routing, Initial(clock), actions), id)
    ensures KeptAs(Run(routing, Initial(clock), actions), id, Run(routing, Initial(clock), actions).rows[id])
  {
    RunIsSound(routing, clock, actions);
    assert RowIsSound(routing, Run(routing, Initial(clock), actions), id);
  }

  lemma KeptByOneMore(routing: Routing, clock: int, front: seq<Action>, last: Action, id: Id, row: Row)
    requires RecoveriesSpare(routing, clock, front, id) && MarksReturn(routing, clock, front, id)
    requires KeptAs(Run(routing, Initial(clock), front), id, row) && row.status.Processed?
    ensures KeptAs(Run(routing, Initial(clock), front + [last]), id, row)
  {
    RunOneMore(routing, Initial(clock), front, last);
    RunIsSound(routing, clock, front);
    RunIsExclusive(routing, clock, front, id);
    MarkThrewInRun(routing, clock, front, id);
    KeptByStep(routing, Run(routing, Initial(clock), front), last, id, row);
  }

  // ---- A run for each ---------------------------------------------------------------------------------------

  /** A single row claimed by an idle worker. */
  lemma ClaimsTheOneRow(routing: Routing, s: State, w: nat, row: Row)
    requires w < |s.workers| && s.workers[w].Idle? && s.rows == map[0 := row] && Claimable(row, s.clock)
    ensures var claimed := row.(status := Processing, attempts := row.attempts + 1);
            Moved(routing, s, w, ClaimBatch(1, [0], {}))
            == Put(s.(rows := map[0 := claimed]), w, Busy([Claim(0, row.event, row.attempts + 1)], Starting))
  {
    assert IsSelection(s.rows, s.clock, 1, {}, [0]);
    SelectionIsBatch(s.rows, s.clock, 1, {}, [0]);
    assert ClaimRows(s.rows, [0]) == map[0 := row.(status := Processing, attempts := row.attempts + 1)];
    assert ClaimsOf(ClaimRows(s.rows, [0]), [0]) == [Claim(0, row.event, row.attempts + 1)];
  }

  /** The first worker claims the row and stalls; recovery puts it back in line. */
  lemma FirstWorkerStalls(routing: Routing, s: State, e: Event)
    requires s.clock == 0 && s.rows == map[0 := Row(e, Pending, 0, 0, 0, None)] && s.workers == [Idle, Idle]
    ensures var t := Step(routing, Step(routing, Step(routing, s, Of(0, ClaimBatch(1, [0], {}))), Tick(400_000)), Recover(300_000));
            && t.clock == 400_000 && t.rows == map[0 := Row(e, Pending, 1, 400_000, 0, None)]
            && t.workers == [Busy([Claim(0, e, 1)], Starting), Idle] && t.queues == s.queues
  {
    ClaimsTheOneRow(routing, s, 0, s.rows[0]);
    var claimed := Step(routing, Step(routing, s, Of(0, ClaimBatch(1, [0], {}))), Tick(400_000));
    assert claimed.rows == map[0 := Row(e, Processing, 1, 0, 0, None)];
    assert Recovered(claimed.rows, 400_000, 300_000) == map[0 := Row(e, Pending, 1, 400_000, 0, None)];
  }

  /** A second worker claims the row, enqueues its job and marks it. */
  lemma SecondWorkerProcesses(routing: Routing, s: State, e: Event)
    requires s.clock == 400_000 && s.rows == map[0 := Row(e, Pending, 1, 400_000, 0, None)]
    requires |s.workers| == 2 && s.workers[1].Idle? && RouteOf(routing, e.eventType).ToQueue?
    ensures var t := Step(routing, Step(routing, Step(routing, s, Of(1, ClaimBatch(1, [0], {}))), Of(1, AddJob)), Of(1, MarkProcessed(Works)));
            && t.rows == map[0 := Row(e, Processed, 2, 400_000, 0, Some(400_000))]
            && t.workers == [s.workers[0], Idle] && t.clock == 400_000
  {
    ClaimsTheOneRow(routing, s, 1, s.rows[0]);
    var claimed := Step(routing, s, Of(1, ClaimBatch(1, [0], {})));
    assert claimed.workers[1] == Busy([Claim(0, e, 2)], Starting);
    var landed := Step(routing, claimed, Of(1, AddJob));
    assert landed.workers[1] == Busy([Claim(0, e, 2)], Landed) && landed.rows == map[0 := Row(e, Processing, 2, 400_000, 0, None)];
  }

  /** The first worker wakes up to a failing queue and marks the row by what it saw. */
  lemma FirstWorkerFails(routing: Routing, s: State, e: Event)
    requires s.rows == map[0 := Row(e, Processed, 2, 400_000, 0, Some(400_000))]
    requires |s.workers| == 2 && s.workers[0] == Busy([Claim(0, e, 1)], Starting) && RouteOf(routing, e.eventType).ToQueue?
    ensures var t := Step(routing, Step(routing, s, Of(0, AddThrows(false))), Of(0, MarkFailed(Works)));
            0 in t.rows && t.rows[0].status == Status.Failed
  {
    var thrown := Step(routing, s, Of(0, AddThrows(false)));
    assert thrown.workers[0] == Busy([Claim(0, e, 1)], Failing(false)) && thrown.rows == s.rows;
  }

  /**
   * The age that recovery goes by is the event's, so it can take an old event from a worker that has
   * only just claimed it; that worker then turns the row another one processed into a failed one.
   */
  lemma StaleWorkerUndoesProcessed(e: Event, q: QueueName) returns (actions: seq<Action>, m: nat)
    ensures m <= |actions|
    ensures var routing := map[e.eventType := Some(q)];
            var before, after := Run(routing, Initial(0), actions[..m]), Run(routing, Initial(0), actions);
            && 0 in before.rows && before.rows[0].status.Processed?
            && 0 in after.rows && after.rows[0].status == Status.Failed
  {
    var routing, i := map[e.eventType := Some(q)], Initial(0);
    var a0 := [Begin, Emit(0, e), Commit(0), Hire, Hire];
    var s0 := AfterEmitting(routing, e);
    var a3 := RunThree(routing, i, a0, Of(0, ClaimBatch(1, [0], {})), Tick(400_000), Recover(300_000));
    FirstWorkerStalls(routing, s0, e);
    var a6 := RunThree(routing, i, a3, Of(1, ClaimBatch(1, [0], {})), Of(1, AddJob), Of(1, MarkProcessed(Works)));
    SecondWorkerProcesses(routing, Run(routing, i, a3), e);
    FirstWorkerFails(routing, Run(routing, i, a6), e);
    RunOneMore(routing, i, a6, Of(0, AddThrows(false)));
    RunOneMore(routing, i, a6 + [Of(0, AddThrows(false))], Of(0, MarkFailed(Works)));
    actions, m := a6 + [Of(0, AddThrows(false))] + [Of(0, MarkFailed(Works))], |a6|;
    assert actions[..m] == a6;
  }

  lemma RunThree(routing: Routing, s: State, actions: seq<Action>, a: Action, b: Action, c: Action)
    returns (longer: seq<Action>)
    ensures longer == actions + [a] + [b] + [c]
    ensures Run(routing, s, longer) == Step(routing, Step(routing, Step(routing, Run(routing, s, actions), a), b), c)
  {
    RunOneMore(routing, s, actions, a);
    RunOneMore(routing, s, actions + [a], b);
    RunOneMore(routing, s, actions + [a] + [b], c);
    longer := actions + [a] + [b] + [c];
  }

  lemma AfterEmitting(routing: Routing, e: Event) returns (s: State)
    ensures s == Run(routing, Initial(0), [Begin, Emit(0, e), Commit(0), Hire, Hire])
    ensures s.clock == 0 && s.rows == map[0 := Row(e, Pending, 0, 0, 0, None)] && s.workers == [Idle, Idle]
  {
    var i := Initial(0);
    RunOneMore(routing, i, [Begin, Emit(0, e), Commit(0)], Hire);
    RunOneMore(routing, i, [Begin, Emit(0, e), Commit(0), Hire], Hire);
    RunOneMore(routing, i, [Begin, Emit(0, e)], Commit(0));
    RunOneMore(routing, i, [Begin], Emit(0, e));
    RunOneMore(routing, i, [], Begin);
    assert [] + [Begin] == [Begin];
    assert [Begin] + [Emit(0, e)] == [Begin, Emit(0, e)];
    assert [Begin, Emit(0, e)] + [Commit(0)] == [Begin, Emit(0, e), Commit(0)];
    assert [Begin, Emit(0, e), Commit(0)] + [Hire] == [Begin, Emit(0, e), Commit(0), Hire];
    assert [Begin, Emit(0, e), Commit(0), Hire] + [Hire] == [Begin, Emit(0, e), Commit(0), Hire, Hire];
    EmittedAndCommitted(routing, e);
    s := Run(routing, i, [Begin, Emit(0, e), Commit(0), Hire, Hire]);
  }

  lemma EmittedAndCommitted(routing: Routing, e: Event)
    ensures var s := Step(routing, Step(routing, Step(routing, Initial(0), Begin), Emit(0, e)), Commit(0));
            s.clock == 0 && s.rows == map[0 := Row(e, Pending, 0, 0, 0, None)] && s.workers == []
  {
    var emitted := Step(routing, Step(routing, Initial(0), Begin), Emit(0, e));
    assert emitted.open == [Transaction(0, map[0 := e])];
  }

  /** The worker marks the row as failed after its mark took effect and threw. */
  lemma ThrownMarkFails(routing: Routing, s: State, e: Event)
    requires s.rows == map[0 := Row(e, Processed, 1, 0, 0, Some(0))] && s.workers == [Busy([Claim(0, e, 1)], Failing(true)), Idle]
    ensures IsProcessed(s, 0) && MarkThrew(s, 0)
    ensures var t := Step(routing, s, Of(0, MarkFailed(Works))); 0 in t.rows && t.rows[0].status == Status.Failed
  {
    assert Holds(s, 0, 0, 0);
  }

  /**
   * A worker whose processed mark takes effect and throws marks the same row failed, with no recovery
   * and no second worker involved.
   */
  lemma ThrownMarkUndoesProcessed(e: Event, q: QueueName) returns (actions: seq<Action>, m: nat)
    ensures m <= |actions| && forall n | 0 <= n < |actions| :: !actions[n].Recover?
    ensures var routing := map[e.eventType := Some(q)];
            var before, after := Run(routing, Initial(0), actions[..m]), Run(routing, Initial(0), actions);
            && IsProcessed(before, 0) && MarkThrew(before, 0)
            && 0 in after.rows && after.rows[0].status == Status.Failed
  {
    var routing, i := map[e.eventType := Some(q)], Initial(0);
    var a0 := [Begin, Emit(0, e), Commit(0), Hire, Hire];
    var s0 := AfterEmitting(routing, e);
    var marked := RunThree(routing, i, a0, Of(0, ClaimBatch(1, [0], {})), Of(0, AddJob), Of(0, MarkProcessed(LandsThenThrows)));
    MarkLandsAndThrows(routing, s0, e);
    ThrownMarkFails(routing, Run(routing, i, marked), e);
    RunOneMore(routing, i, marked, Of(0, MarkFailed(Works)));
    actions, m := marked + [Of(0, MarkFailed(Works))], |marked|;
    assert actions[..m] == marked;
  }

  lemma MarkLandsAndThrows(routing: Routing, s: State, e: Event)
    requires s.clock == 0 && s.rows == map[0 := Row(e, Pending, 0, 0, 0, None)] && s.workers == [Idle, Idle]
    requires RouteOf(routing, e.eventType).ToQueue?
    ensures var t := Step(routing, Step(routing, Step(routing, s, Of(0, ClaimBatch(1, [0], {}))), Of(0, AddJob)),
                          Of(0, MarkProcessed(LandsThenThrows)));
            && t.rows == map[0 := Row(e, Processed, 1, 0, 0, Some(0))]
            && t.workers == [Busy([Claim(0, e, 1)], Failing(true)), Idle]
  {
    ClaimsTheOneRow(routing, s, 0, s.rows[0]);
    var claimed := Step(routing, s, Of(0, ClaimBatch(1, [0], {})));
    assert claimed.workers == [Busy([Claim(0, e, 1)], Starting), Idle];
    AddsAndThrows(routing, claimed, e);
  }

  lemma AddsAndThrows(routing: Routing, s: State, e: Event)
    requires s.clock == 0 && s.rows == map[0 := Row(e, Processing, 1, 0, 0, None)]
    requires s.workers == [Busy([Claim(0, e, 1)], Starting), Idle] && RouteOf(routing, e.eventType).ToQueue?
    ensures var t := Step(routing, Step(routing, s, Of(0, AddJob)), Of(0, MarkProcessed(LandsThenThrows)));
            && t.rows == map[0 := Row(e, Processed, 1, 0, 0, Some(0))]
            && t.workers == [Busy([Claim(0, e, 1)], Failing(true)), Idle]
  {
    var landed := Step(routing, s, Of(0, AddJob));
    assert landed.workers == [Busy([Claim(0, e, 1)], Landed), Idle] && landed.rows == s.rows;
  }
}

/**
 * The outbox as interleaved single steps: transactions that emit, several workers that claim,
 * enqueue and mark, crashes, failing calls, stale workers, recovery and the purge. Everything here
 * holds for every routing table.
 */
module OutboxProtocol {
  import opened Options
  import opened OutboxTable

  /**
   * What a worker does next for the first event of its batch. Failing after its own processed mark
   * took effect and threw is told apart from failing with the row still unmarked.
   */
  datatype Stage = Starting | Landed | Failing(marked: bool)

  datatype Worker = Idle | Busy(batch: seq<Claim>, stage: Stage)

  datatype Transaction = Transaction(startedAt: int, events: map<Id, Event>)

  datatype State = State(
    clock: int, rows: Rows, queues: Queues, workers: seq<Worker>, open: seq<Transaction>,
    nextId: Id, committed: map<Id, Event>, dropped: set<Id>)

  datatype Move =
    | ClaimBatch(size: nat, batch: seq<Id>, locked: set<Id>)
    | AddJob
    | AddThrows(landed: bool)
    | MarkProcessed(outcome: CallOutcome)
    | MarkFailed(outcome: CallOutcome)
    | Crash

  datatype Action =
    | Tick(ms: nat)
    | Hire
    | Begin
    | Emit(tx: nat, event: Event)
    | Commit(tx: nat)
    | Rollback(tx: nat)
    | Recover(olderThanMs: int)
    | Purge
    | Of(w: nat, move: Move)

  function Initial(clock: int): State {
    State(clock, map[], map[], [], [], 0, map[], {})
  }

  // ---- Steps ------------------------------------------------------------------------------

  function Put(s: State, w: nat, x: Worker): State
    requires w < |s.workers|
  {
    s.(workers := s.workers[w := x])
  }

  /** On to the next event of the batch. */
  function Rest(x: Worker): Worker
    requires x.Busy? && x.batch != []
  {
    if |x.batch| == 1 then Idle else Busy(x.batch[1..], Starting)
  }

  ghost function DoClaim(s: State, w: nat, size: nat, batch: seq<Id>, locked: set<Id>): State
    requires w < |s.workers|
  {
    if IsBatch(s.rows, s.clock, size, locked, batch) && batch != [] then
      var rows := ClaimRows(s.rows, batch);
      assert forall k | 0 <= k < |batch| :: batch[k] in batch && batch[k] in s.rows;
      Put(s.(rows := rows), w, Busy(ClaimsOf(rows, batch), Starting))
    else s
  }

  /** Adding to the queue; `threw` tells an add that landed from one that also failed. */
  function DoEnqueue(routing: Routing, s: State, w: nat, lands: bool, threw: bool): State
    requires w < |s.workers| && s.workers[w].Busy? && s.workers[w].batch != []
  {
    var x := s.workers[w];
    match RouteOf(routing, x.batch[0].event.eventType)
    case ToQueue(q) =>
      var job := Job(x.batch[0].id, x.batch[0].event);
      Put(s.(queues := if lands then Enqueue(s.queues, q, job) else s.queues), w,
          x.(stage := if threw then Failing(false) else Landed))
    case _ => s
  }

  /** A mark that throws is answered by marking the row failed after an add, and ends the batch otherwise. */
  function DoProcessed(s: State, w: nat, outcome: CallOutcome): State
    requires w < |s.workers| && s.workers[w].Busy? && s.workers[w].batch != []
  {
    var x := s.workers[w];
    var id := x.batch[0].id;
    var lands := MarkLands(s.rows, id, outcome);
    Put(s.(rows := if lands then MarkedProcessed(s.rows, id, s.clock) else s.rows), w,
        if MarkWorks(s.rows, id, outcome) then Rest(x)
        else if x.stage.Landed? then x.(stage := Failing(lands))
        else Idle)
  }

  function DoFailed(s: State, w: nat, outcome: CallOutcome): State
    requires w < |s.workers| && s.workers[w].Busy? && s.workers[w].batch != []
  {
    var x := s.workers[w];
    var c := x.batch[0];
    Put(s.(rows := if MarkLands(s.rows, c.id, outcome) then MarkedFailed(s.rows, c, s.clock) else s.rows), w,
        if MarkWorks(s.rows, c.id, outcome) then Rest(x) else Idle)
  }

  predicate NeedsNoQueue(routing: Routing, x: Worker)
    requires x.Busy? && x.batch != []
  {
    x.stage.Starting? && !RouteOf(routing, x.batch[0].event.eventType).ToQueue?
  }

  /** A move of one worker; one that is not possible in its stage changes nothing. */
  ghost function Moved(routing: Routing, s: State, w: nat, move: Move): State
    requires w < |s.workers|
  {
    var x := s.workers[w];
    match move
    case Crash => Put(s, w, Idle)
    case ClaimBatch(size, batch, locked) => if x.Idle? then DoClaim(s, w, size, batch, locked) else s
    case AddJob =>
      if x.Busy? && x.batch != [] && x.stage.Starting? then DoEnqueue(routing, s, w, true, false) else s
    case AddThrows(landed) =>
      if x.Busy? && x.batch != [] && x.stage.Starting? then DoEnqueue(routing, s, w, landed, true) else s
    case MarkProcessed(outcome) =>
      if x.Busy? && x.batch != [] && (x.stage.Landed? || NeedsNoQueue(routing, x)) then DoProcessed(s, w, outcome) else s
    case MarkFailed(outcome) =>
      if x.Busy? && x.batch != [] && x.stage.Failing? then DoFailed(s, w, outcome) else s
  }

  function DoCommit(s: State, tx: nat): State
    requires tx < |s.open|
  {
    var t := s.open[tx];
    s.(rows := s.rows + (map id | id in t.events :: Row(t.events[id], Pending, 0, t.startedAt, t.startedAt, None)),
       committed := s.committed + t.events,
       open := s.open[tx := t.(events := map[])])
  }

  ghost function Step(routing: Routing, s: State, a: Action): State {
    match a
    case Tick(ms) => s.(clock := s.clock + ms)
    case Hire => s.(workers := s.workers + [Idle])
    case Begin => s.(open := s.open + [Transaction(s.clock, map[])])
    case Emit(tx, event) =>
      if tx < |s.open| then
        s.(open := s.open[tx := s.open[tx].(events := s.open[tx].events[s.nextId := event])], nextId := s.nextId + 1)
      else s
    case Commit(tx) => if tx < |s.open| then DoCommit(s, tx) else s
    case Rollback(tx) =>
      if tx < |s.open| then
        s.(dropped := s.dropped + s.open[tx].events.Keys, open := s.open[tx := s.open[tx].(events := map[])])
      else s
    case Recover(olderThanMs) => s.(rows := Recovered(s.rows, s.clock, olderThanMs))
    case Purge => s.(rows := Purged(s.rows, s.clock))
    case Of(w, move) => if w < |s.workers| then Moved(routing, s, w, move) else s
  }

  ghost function Run(routing: Routing, s: State, actions: seq<Action>): State {
    if actions == [] then s
    else Step(routing, Run(routing, s, actions[..|actions| - 1]), actions[|actions| - 1])
  }

  // ---- What every step keeps -----------------------------------------------------------------

  /** If the event has a queue, its job is in it. */
  ghost predicate Delivered(routing: Routing, s: State, id: Id)
    requires id in s.committed
  {
    var route := RouteOf(routing, s.committed[id].eventType);
    route.ToQueue? ==> HasJob(s.queues, route.queue, id)
  }

  ghost predicate RowIsSound(routing: Routing, s: State, id: Id)
    requires id in s.rows
  {
    && id in s.committed && s.rows[id].event == s.committed[id]
    && (s.rows[id].status.Processed? ==> Delivered(routing, s, id))
    && (s.rows[id].status.Dead? ==> s.rows[id].attempts >= MAX_ATTEMPTS)
  }

  ghost predicate RowsAreSound(routing: Routing, s: State) {
    forall id {:trigger RowIsSound(routing, s, id)} | id in s.rows :: RowIsSound(routing, s, id)
  }

  ghost predicate GoneIsDelivered(routing: Routing, s: State) {
    forall id {:trigger Delivered(routing, s, id)} | id in s.committed && id !in s.rows :: Delivered(routing, s, id)
  }

  ghost predicate JobIsSound(routing: Routing, s: State, q: QueueName, k: nat)
    requires q in s.queues && k < |s.queues[q]|
  {
    var job := s.queues[q][k];
    && job.id in s.committed && job.event == s.committed[job.id]
    && RouteOf(routing, job.event.eventType) == ToQueue(q)
  }

  ghost predicate JobsAreSound(routing: Routing, s: State) {
    forall q, k {:trigger JobIsSound(routing, s, q, k)} | q in s.queues && 0 <= k < |s.queues[q]| ::
      JobIsSound(routing, s, q, k)
  }

  ghost predicate JobsAreUnique(queues: Queues) {
    forall q, i, k {:trigger queues[q][i], queues[q][k]} | q in queues && 0 <= i < k < |queues[q]| ::
      queues[q][i].id != queues[q][k].id
  }

  ghost predicate ClaimIsSound(s: State, c: Claim) {
    && c.id in s.committed && c.event == s.committed[c.id]
    && (c.id in s.rows ==> c.attempts <= s.rows[c.id].attempts)
  }

  ghost predicate WorkerIsSound(routing: Routing, s: State, x: Worker) {
    x.Busy? ==>
      && x.batch != [] && (forall k | 0 <= k < |x.batch| :: ClaimIsSound(s, x.batch[k]))
      && (x.stage.Landed? ==> Delivered(routing, s, x.batch[0].id))
      && (!x.stage.Starting? ==> RouteOf(routing, x.batch[0].event.eventType).ToQueue?)
  }

  ghost predicate WorkersAreSound(routing: Routing, s: State) {
    forall w {:trigger s.workers[w]} | 0 <= w < |s.workers| :: WorkerIsSound(routing, s, s.workers[w])
  }

  /** Ids are handed out once: an event is open in one transaction, or committed, or dropped. */
  ghost predicate IdsAreSound(s: State) {
    && (forall id {:trigger id in s.committed} | id in s.committed :: id < s.nextId && id !in s.dropped)
    && (forall id {:trigger id in s.dropped} | id in s.dropped :: id < s.nextId)
    && (forall t, id {:trigger id in s.open[t].events} | 0 <= t < |s.open| && id in s.open[t].events ::
          id < s.nextId && id !in s.committed && id !in s.dropped)
    && (forall t, u, id {:trigger id in s.open[t].events, id in s.open[u].events} |
          0 <= t < u < |s.open| && id in s.open[t].events :: id !in s.open[u].events)
  }

  ghost predicate Sound(routing: Routing, s: State) {
    && RowsAreSound(routing, s) && GoneIsDelivered(routing, s)
    && JobsAreSound(routing, s) && JobsAreUnique(s.queues)
    && WorkersAreSound(routing, s) && IdsAreSound(s)
  }

  /** Nothing committed or enqueued is taken back, and attempts only grow. */
  ghost predicate Progress(s: State, s': State) {
    && (forall id {:trigger id in s'.committed} {:trigger id in s.committed} | id in s.committed ::
          id in s'.committed && s'.committed[id] == s.committed[id])
    && (forall q, id {:trigger HasJob(s.queues, q, id)} {:trigger HasJob(s'.queues, q, id)} | HasJob(s.queues, q, id) ::
          HasJob(s'.queues, q, id))
    && (forall id {:trigger s'.rows[id]} | id in s.committed && id in s'.rows ::
          id in s.rows && s.rows[id].attempts <= s'.rows[id].attempts)
    && s.dropped <= s'.dropped
  }

  lemma WorkerStaysSound(routing: Routing, s: State, s': State, x: Worker)
    requires Progress(s, s') && WorkerIsSound(routing, s, x)
    ensures WorkerIsSound(routing, s', x)
  {
    if x.Busy? {
      forall k | 0 <= k < |x.batch|
        ensures ClaimIsSound(s', x.batch[k])
      {
        assert ClaimIsSound(s, x.batch[k]);
      }
    }
  }

  /** Rows may change, or go once delivered, as long as what their status claims is true. */
  lemma RowsUpdateIsSound(routing: Routing, s: State, rows: Rows)
    requires Sound(routing, s)
    requires forall id {:trigger rows[id]} | id in rows ::
               && id in s.rows && rows[id].event == s.rows[id].event && s.rows[id].attempts <= rows[id].attempts
               && (rows[id].status.Processed? ==> id in s.committed ==> Delivered(routing, s, id))
               && (rows[id].status.Dead? ==> rows[id].attempts >= MAX_ATTEMPTS)
    requires forall id | id in s.rows && id !in rows :: s.rows[id].status.Processed?
    ensures Sound(routing, s.(rows := rows)) && Progress(s, s.(rows := rows))
  {
    var s' := s.(rows := rows);
    forall id | id in rows
      ensures RowIsSound(routing, s', id)
    {
      assert RowIsSound(routing, s, id);
      assert rows[id].status.Processed? ==> Delivered(routing, s, id);
    }
    forall id | id in s'.committed && id !in rows
      ensures Delivered(routing, s', id)
    {
      assert Delivered(routing, s, id) by {
        if id in s.rows {
          assert RowIsSound(routing, s, id);
        }
      }
    }
    forall q, k | q in s'.queues && 0 <= k < |s'.queues[q]|
      ensures JobIsSound(routing, s', q, k)
    {
      assert JobIsSound(routing, s, q, k);
    }
    forall w | 0 <= w < |s'.workers|
      ensures WorkerIsSound(routing, s', s'.workers[w])
    {
      WorkerStaysSound(routing, s, s', s.workers[w]);
    }
  }

  lemma WorkerUpdateIsSound(routing: Routing, s: State, w: nat, x: Worker)
    requires Sound(routing, s) && w < |s.workers| && WorkerIsSound(routing, s, x)
    ensures Sound(routing, Put(s, w, x)) && Progress(s, Put(s, w, x))
  {
    var s' := Put(s, w, x);
    forall v | 0 <= v < |s'.workers|
      ensures WorkerIsSound(routing, s', s'.workers[v])
    {
      WorkerStaysSound(routing, s, s', s'.workers[v]);
    }
    SameJobsAndRows(routing, s, s');
  }

  lemma SameJobsAndRows(routing: Routing, s: State, s': State)
    requires RowsAreSound(routing, s) && GoneIsDelivered(routing, s) && JobsAreSound(routing, s)
    requires s'.rows == s.rows && s'.queues == s.queues && s'.committed == s.committed
    ensures RowsAreSound(routing, s') && GoneIsDelivered(routing, s') && JobsAreSound(routing, s')
  {
    forall id | id in s'.rows
      ensures RowIsSound(routing, s', id)
    {
      assert RowIsSound(routing, s, id);
    }
    forall id | id in s'.committed && id !in s'.rows
      ensures Delivered(routing, s', id)
    {
      assert Delivered(routing, s, id);
    }
    forall q, k | q in s'.queues && 0 <= k < |s'.queues[q]|
      ensures JobIsSound(routing, s', q, k)
    {
      assert JobIsSound(routing, s, q, k);
    }
  }

  lemma EnqueueIsSound(routing: Routing, s: State, q: QueueName, c: Claim)
    requires Sound(routing, s) && ClaimIsSound(s, c) && RouteOf(routing, c.event.eventType) == ToQueue(q)
    ensures var s' := s.(queues := Enqueue(s.queues, q, Job(c.id, c.event)));
            Sound(routing, s') && Progress(s, s') && HasJob(s'.queues, q, c.id)
  {
    var job := Job(c.id, c.event);
    var s' := s.(queues := Enqueue(s.queues, q, job));
    forall p, id
      ensures HasJob(s'.queues, p, id) <==> HasJob(s.queues, p, id) || (p == q && id == c.id)
    {
      EnqueueKeepsJobs(s.queues, q, job, p, id);
    }
    EnqueueKeepsSoundJobs(routing, s, q, c);
    forall id | id in s'.rows
      ensures RowIsSound(routing, s', id)
    {
      assert RowIsSound(routing, s, id);
    }
    forall id | id in s'.committed && id !in s'.rows
      ensures Delivered(routing, s', id)
    {
      assert Delivered(routing, s, id);
    }
    forall w | 0 <= w < |s'.workers|
      ensures WorkerIsSound(routing, s', s'.workers[w])
    {
      WorkerStaysSound(routing, s, s', s.workers[w]);
    }
  }

  lemma EnqueueKeepsSoundJobs(routing: Routing, s: State, q: QueueName, c: Claim)
    requires JobsAreSound(routing, s) && JobsAreUnique(s.queues)
    requires ClaimIsSound(s, c) && RouteOf(routing, c.event.eventType) == ToQueue(q)
    ensures var s' := s.(queues := Enqueue(s.queues, q, Job(c.id, c.event)));
            JobsAreSound(routing, s') && JobsAreUnique(s'.queues)
  {
    var jobs := if q in s.queues then s.queues[q] else [];
    var s' := s.(queues := Enqueue(s.queues, q, Job(c.id, c.event)));
    forall p, k | p in s'.queues && 0 <= k < |s'.queues[p]|
      ensures JobIsSound(routing, s', p, k)
    {
      if p in s.queues && k < |s.queues[p]| {
        assert JobIsSound(routing, s, p, k);
      }
    }
    if s'.queues != s.queues {
      assert s'.queues[q] == jobs + [Job(c.id, c.event)] && !HasId(jobs, c.id);
    }
  }

  // ---- Transactions -----------------------------------------------------------------------------

  lemma CommitIsSound(routing: Routing, s: State, tx: nat)
    requires Sound(routing, s) && tx < |s.open|
    ensures Sound(routing, DoCommit(s, tx)) && Progress(s, DoCommit(s, tx))
    ensures forall id | id in s.open[tx].events ::
              && id !in s.committed && id in DoCommit(s, tx).committed && id in DoCommit(s, tx).rows
              && DoCommit(s, tx).rows[id] == Row(s.open[tx].events[id], Pending, 0, s.open[tx].startedAt, s.open[tx].startedAt, None)
  {
    var s' := DoCommit(s, tx);
    assert forall id | id in s.rows :: RowIsSound(routing, s, id);
    CommitAddsRows(s, tx);
    CommittedStaySound(routing, s, s');
    forall id | id in s'.rows
      ensures RowIsSound(routing, s', id)
    {
      assert id in s.rows ==> RowIsSound(routing, s, id);
    }
    forall w | 0 <= w < |s'.workers|
      ensures WorkerIsSound(routing, s', s'.workers[w])
    {
      WorkerStaysSound(routing, s, s', s.workers[w]);
    }
    CommitKeepsIds(s, tx);
  }

  /** A commit leaves what is there alone and adds a waiting row for each event. */
  lemma CommitAddsRows(s: State, tx: nat)
    requires IdsAreSound(s) && tx < |s.open| && s.rows.Keys <= s.committed.Keys
    ensures var s' := DoCommit(s, tx);
            && (forall id {:trigger id in s'.committed} {:trigger id in s'.rows} | id in s.committed ::
                  && id !in s.open[tx].events && id in s'.committed && s'.committed[id] == s.committed[id]
                  && (id in s'.rows <==> id in s.rows) && (id in s.rows ==> s'.rows[id] == s.rows[id]))
            && (forall id {:trigger id in s.open[tx].events} | id in s.open[tx].events ::
                  && id !in s.committed && id in s'.committed && id in s'.rows
                  && s'.rows[id] == Row(s.open[tx].events[id], Pending, 0, s.open[tx].startedAt, s.open[tx].startedAt, None))
  {
    var s' := DoCommit(s, tx);
    forall id | id in s.committed
      ensures id !in s.open[tx].events && id in s'.committed && s'.committed[id] == s.committed[id]
    {
      assert id in s.open[tx].events ==> id !in s.committed;
    }
  }

  lemma CommittedStaySound(routing: Routing, s: State, s': State)
    requires GoneIsDelivered(routing, s) && JobsAreSound(routing, s)
    requires s'.queues == s.queues
    requires forall id | id in s.committed ::
               id in s'.committed && s'.committed[id] == s.committed[id] && (id in s'.rows <==> id in s.rows)
    requires forall id | id in s'.committed && id !in s.committed :: id in s'.rows
    ensures GoneIsDelivered(routing, s') && JobsAreSound(routing, s')
  {
    forall id | id in s'.committed && id !in s'.rows
      ensures Delivered(routing, s', id)
    {
      assert Delivered(routing, s, id);
    }
    forall q, k | q in s'.queues && 0 <= k < |s'.queues[q]|
      ensures JobIsSound(routing, s', q, k)
    {
      assert JobIsSound(routing, s, q, k);
    }
  }

  lemma CommitKeepsIds(s: State, tx: nat)
    requires IdsAreSound(s) && tx < |s.open|
    ensures IdsAreSound(DoCommit(s, tx))
  {
    var t := s.open[tx];
    var s' := DoCommit(s, tx);
    forall id | id in s'.committed
      ensures id < s'.nextId && id !in s'.dropped
    {
      assert id in s.committed || id in s.open[tx].events;
    }
    forall u, id | 0 <= u < |s'.open| && id in s'.open[u].events
      ensures id < s'.nextId && id !in s'.committed && id !in s'.dropped
    {
      assert u != tx && id in s.open[u].events;
      assert id !in s.open[tx].events;
    }
    forall u, v, id | 0 <= u < v < |s'.open| && id in s'.open[u].events
      ensures id !in s'.open[v].events
    {
      assert id in s.open[u].events;
      assert v != tx ==> s'.open[v] == s.open[v];
    }
  }

  lemma RollbackKeepsIds(s: State, tx: nat)
    requires IdsAreSound(s) && tx < |s.open|
    ensures var s' := s.(dropped := s.dropped + s.open[tx].events.Keys, open := s.open[tx := s.open[tx].(events := map[])]);
            IdsAreSound(s')
  {
    var s' := s.(dropped := s.dropped + s.open[tx].events.Keys, open := s.open[tx := s.open[tx].(events := map[])]);
    forall id | id in s'.dropped
      ensures id < s'.nextId && id !in s'.committed
    {
      assert id in s.dropped || id in s.open[tx].events;
    }
    forall u, id | 0 <= u < |s'.open| && id in s'.open[u].events
      ensures id < s'.nextId && id !in s'.committed && id !in s'.dropped
    {
      assert u != tx && id in s.open[u].events;
      assert id !in s.open[tx].events;
    }
    forall u, v, id | 0 <= u < v < |s'.open| && id in s'.open[u].events
      ensures id !in s'.open[v].events
    {
      assert id in s.open[u].events;
      assert v != tx ==> s'.open[v] == s.open[v];
    }
  }

  lemma EmitKeepsIds(s: State, tx: nat, event: Event)
    requires IdsAreSound(s) && tx < |s.open|
    ensures IdsAreSound(s.(open := s.open[tx := s.open[tx].(events := s.open[tx].events[s.nextId := event])], nextId := s.nextId + 1))
  {
    var s' := s.(open := s.open[tx := s.open[tx].(events := s.open[tx].events[s.nextId := event])], nextId := s.nextId + 1);
    forall u, id | 0 <= u < |s'.open| && id in s'.open[u].events
      ensures id < s'.nextId && id !in s'.committed && id !in s'.dropped
    {
      assert id == s.nextId || id in s.open[u].events;
      assert id in s.committed ==> id < s.nextId;
      assert id in s.dropped ==> id < s.nextId;
    }
    forall u, v, id | 0 <= u < v < |s'.open| && id in s'.open[u].events
      ensures id !in s'.open[v].events
    {
      assert id == s.nextId || id in s.open[u].events;
      assert id in s.open[v].events ==> id < s.nextId;
    }
  }

  lemma QuietStepIsSound(routing: Routing, s: State, s': State)
    requires Sound(routing, s) && IdsAreSound(s')
    requires s'.rows == s.rows && s'.queues == s.queues && s'.committed == s.committed && s.dropped <= s'.dropped
    requires forall w {:trigger s'.workers[w]} | 0 <= w < |s'.workers| :: s'.workers[w].Idle? || (w < |s.workers| && s'.workers[w] == s.workers[w])
    ensures Sound(routing, s') && Progress(s, s')
  {
    SameJobsAndRows(routing, s, s');
    forall w | 0 <= w < |s'.workers|
      ensures WorkerIsSound(routing, s', s'.workers[w])
    {
      if w < |s.workers| && s'.workers[w] == s.workers[w] {
        WorkerStaysSound(routing, s, s', s.workers[w]);
      }
    }
  }

  // ---- Moves of a worker -------------------------------------------------------------------------

  lemma ProgressChains(a: State, b: State, c: State)
    requires Progress(a, b) && Progress(b, c)
    ensures Progress(a, c)
  {
  }

  lemma ClaimingIsSound(routing: Routing, s: State, w: nat, size: nat, batch: seq<Id>, locked: set<Id>)
    requires Sound(routing, s) && w < |s.workers|
    ensures Sound(routing, DoClaim(s, w, size, batch, locked)) && Progress(s, DoClaim(s, w, size, batch, locked))
  {
    if IsBatch(s.rows, s.clock, size, locked, batch) && batch != [] {
      var rows := ClaimRows(s.rows, batch);
      BatchIsClaimable(s.rows, s.clock, size, locked, batch);
      assert forall k | 0 <= k < |batch| :: batch[k] in batch && batch[k] in s.rows;
      forall id | id in rows
        ensures rows[id].status.Processed? ==> id in s.committed ==> Delivered(routing, s, id)
        ensures rows[id].status.Dead? ==> rows[id].attempts >= MAX_ATTEMPTS
      {
        assert RowIsSound(routing, s, id);
      }
      RowsUpdateIsSound(routing, s, rows);
      var mid := s.(rows := rows);
      var x := Busy(ClaimsOf(rows, batch), Starting);
      forall k | 0 <= k < |x.batch|
        ensures ClaimIsSound(mid, x.batch[k])
      {
        assert RowIsSound(routing, mid, batch[k]);
      }
      WorkerUpdateIsSound(routing, mid, w, x);
      ProgressChains(s, mid, DoClaim(s, w, size, batch, locked));
    }
  }

  lemma EnqueueMoveIsSound(routing: Routing, s: State, w: nat, lands: bool, threw: bool)
    requires Sound(routing, s) && w < |s.workers| && s.workers[w].Busy? && s.workers[w].batch != [] && (lands || threw)
    requires s.workers[w].stage.Starting?
    ensures Sound(routing, DoEnqueue(routing, s, w, lands, threw)) && Progress(s, DoEnqueue(routing, s, w, lands, threw))
  {
    var x := s.workers[w];
    assert WorkerIsSound(routing, s, x) && ClaimIsSound(s, x.batch[0]);
    match RouteOf(routing, x.batch[0].event.eventType)
    case ToQueue(q) =>
      var mid := s.(queues := if lands then Enqueue(s.queues, q, Job(x.batch[0].id, x.batch[0].event)) else s.queues);
      if lands {
        EnqueueIsSound(routing, s, q, x.batch[0]);
      }
      WorkerStaysSound(routing, s, mid, x);
      WorkerUpdateIsSound(routing, mid, w, x.(stage := if threw then Failing(false) else Landed));
      ProgressChains(s, mid, DoEnqueue(routing, s, w, lands, threw));
    case _ =>
  }

  lemma RestIsSound(routing: Routing, s: State, x: Worker)
    requires WorkerIsSound(routing, s, x) && x.Busy?
    ensures WorkerIsSound(routing, s, Rest(x))
  {
    forall k | 0 <= k < |x.batch[1..]|
      ensures ClaimIsSound(s, x.batch[1..][k])
    {
      assert ClaimIsSound(s, x.batch[k + 1]);
    }
  }

  /** A mark of the row, or none, and then the worker goes on or lets go. */
  lemma MarkedAndPutIsSound(routing: Routing, s: State, w: nat, rows: Rows, x: Worker)
    requires Sound(routing, s) && w < |s.workers| && WorkerIsSound(routing, s, x)
    requires forall id {:trigger rows[id]} | id in rows ::
               && id in s.rows && rows[id].event == s.rows[id].event && s.rows[id].attempts <= rows[id].attempts
               && (rows[id].status.Processed? ==> id in s.committed ==> Delivered(routing, s, id))
               && (rows[id].status.Dead? ==> rows[id].attempts >= MAX_ATTEMPTS)
    requires rows.Keys == s.rows.Keys
    ensures Sound(routing, Put(s.(rows := rows), w, x)) && Progress(s, Put(s.(rows := rows), w, x))
  {
    RowsUpdateIsSound(routing, s, rows);
    var mid := s.(rows := rows);
    WorkerStaysSound(routing, s, mid, x);
    WorkerUpdateIsSound(routing, mid, w, x);
    ProgressChains(s, mid, Put(mid, w, x));
  }

  lemma ProcessedMoveIsSound(routing: Routing, s: State, w: nat, outcome: CallOutcome)
    requires Sound(routing, s) && w < |s.workers| && s.workers[w].Busy? && s.workers[w].batch != []
    requires s.workers[w].stage.Landed? || NeedsNoQueue(routing, s.workers[w])
    ensures Sound(routing, DoProcessed(s, w, outcome)) && Progress(s, DoProcessed(s, w, outcome))
  {
    var x := s.workers[w];
    var id := x.batch[0].id;
    assert WorkerIsSound(routing, s, x) && ClaimIsSound(s, x.batch[0]);
    var s' := DoProcessed(s, w, outcome);
    forall i | i in s'.rows
      ensures s'.rows[i].status.Processed? ==> i in s.committed ==> Delivered(routing, s, i)
      ensures s'.rows[i].status.Dead? ==> s'.rows[i].attempts >= MAX_ATTEMPTS
    {
      assert RowIsSound(routing, s, i);
    }
    RestIsSound(routing, s, x);
    MarkedAndPutIsSound(routing, s, w, s'.rows, s'.workers[w]);
  }

  lemma FailedMoveIsSound(routing: Routing, s: State, w: nat, outcome: CallOutcome)
    requires Sound(routing, s) && w < |s.workers| && s.workers[w].Busy? && s.workers[w].batch != []
    ensures Sound(routing, DoFailed(s, w, outcome)) && Progress(s, DoFailed(s, w, outcome))
  {
    var x := s.workers[w];
    assert WorkerIsSound(routing, s, x) && ClaimIsSound(s, x.batch[0]);
    var s' := DoFailed(s, w, outcome);
    forall i | i in s'.rows
      ensures s'.rows[i].status.Processed? ==> i in s.committed ==> Delivered(routing, s, i)
      ensures s'.rows[i].status.Dead? ==> s'.rows[i].attempts >= MAX_ATTEMPTS
    {
      assert RowIsSound(routing, s, i);
    }
    RestIsSound(routing, s, x);
    MarkedAndPutIsSound(routing, s, w, s'.rows, s'.workers[w]);
  }

  lemma MoveIsSound(routing: Routing, s: State, w: nat, move: Move)
    requires Sound(routing, s) && w < |s.workers|
    ensures Sound(routing, Moved(routing, s, w, move)) && Progress(s, Moved(routing, s, w, move))
  {
    var x := s.workers[w];
    match move
    case Crash =>
      WorkerUpdateIsSound(routing, s, w, Idle);
    case ClaimBatch(size, batch, locked) =>
      if x.Idle? {
        ClaimingIsSound(routing, s, w, size, batch, locked);
      }
    case AddJob =>
      if x.Busy? && x.batch != [] && x.stage.Starting? {
        EnqueueMoveIsSound(routing, s, w, true, false);
      }
    case AddThrows(landed) =>
      if x.Busy? && x.batch != [] && x.stage.Starting? {
        EnqueueMoveIsSound(routing, s, w, landed, true);
      }
    case MarkProcessed(outcome) =>
      if x.Busy? && x.batch != [] && (x.stage.Landed? || NeedsNoQueue(routing, x)) {
        ProcessedMoveIsSound(routing, s, w, outcome);
      }
    case MarkFailed(outcome) =>
      if x.Busy? && x.batch != [] && x.stage.Failing? {
        FailedMoveIsSound(routing, s, w, outcome);
      }
  }

  lemma RecoverAndPurgeAreSound(routing: Routing, s: State, rows: Rows)
    requires Sound(routing, s)
    requires (exists olderThanMs :: rows == Recovered(s.rows, s.clock, olderThanMs)) || rows == Purged(s.rows, s.clock)
    ensures Sound(routing, s.(rows := rows)) && Progress(s, s.(rows := rows))
  {
    forall id | id in rows
      ensures rows[id].status.Processed? ==> id in s.committed ==> Delivered(routing, s, id)
      ensures rows[id].status.Dead? ==> rows[id].attempts >= MAX_ATTEMPTS
    {
      assert RowIsSound(routing, s, id);
    }
    RowsUpdateIsSound(routing, s, rows);
  }

  lemma StepIsSound(routing: Routing, s: State, a: Action)
    requires Sound(routing, s)
    ensures Sound(routing, Step(routing, s, a)) && Progress(s, Step(routing, s, a))
  {
    match a
    case Of(w, move) =>
      if w < |s.workers| {
        MoveIsSound(routing, s, w, move);
      }
    case Commit(tx) =>
      if tx < |s.open| {
        CommitIsSound(routing, s, tx);
      }
    case Recover(olderThanMs) =>
      RecoverAndPurgeAreSound(routing, s, Recovered(s.rows, s.clock, olderThanMs));
    case Purge =>
      RecoverAndPurgeAreSound(routing, s, Purged(s.rows, s.clock));
    case _ =>
      OtherStepIsSound(routing, s, a);
  }

  lemma OtherStepIsSound(routing: Routing, s: State, a: Action)
    requires Sound(routing, s) && !a.Of? && !a.Commit? && !a.Recover? && !a.Purge?
    ensures Sound(routing, Step(routing, s, a)) && Progress(s, Step(routing, s, a))
  {
    if a.Emit? && a.tx < |s.open| {
      EmitKeepsIds(s, a.tx, a.event);
    } else if a.Rollback? && a.tx < |s.open| {
      RollbackKeepsIds(s, a.tx);
    }
    QuietStepIsSound(routing, s, Step(routing, s, a));
  }

  lemma {:induction false} RunIsSound(routing: Routing, clock: int, actions: seq<Action>)
    ensures Sound(routing, Run(routing, Initial(clock), actions))
  {
    if actions != [] {
      RunIsSound(routing, clock, actions[..|actions| - 1]);
      StepIsSound(routing, Run(routing, Initial(clock), actions[..|actions| - 1]), actions[|actions| - 1]);
    }
  }

  // ---- What consumers and operators rely on ---------------------------------------------------------

  /** In every run, a job is a committed event's, unchanged, in the one queue its type is routed to. */
  lemma JobsAreCommittedEvents(routing: Routing, clock: int, actions: seq<Action>, q: QueueName, k: nat)
    requires var s := Run(routing, Initial(clock), actions); q in s.queues && k < |s.queues[q]|
    ensures var s := Run(routing, Initial(clock), actions);
            var job := s.queues[q][k];
            && job.id in s.committed && job.id !in s.dropped && job.event == s.committed[job.id]
            && job.event.eventType in routing && routing[job.event.eventType] == Some(q)
  {
    RunIsSound(routing, clock, actions);
    assert JobIsSound(routing, Run(routing, Initial(clock), actions), q, k);
  }

  /** In every run, an event is in the queues once at most, whatever crashes and retries there were. */
  lemma EventsAreSentOnce(routing: Routing, clock: int, actions: seq<Action>, q: QueueName, i: nat, p: QueueName, k: nat)
    requires var s := Run(routing, Initial(clock), actions);
             && q in s.queues && p in s.queues && i < |s.queues[q]| && k < |s.queues[p]|
             && s.queues[q][i].id == s.queues[p][k].id
    ensures q == p && i == k
  {
    JobsAreCommittedEvents(routing, clock, actions, q, i);
    JobsAreCommittedEvents(routing, clock, actions, p, k);
    RunIsSound(routing, clock, actions);
  }

  /** In every run, a processed row whose type has a queue has its job there, and a dead one was tried five times. */
  lemma StatusTellsTheTruth(routing: Routing, clock: int, actions: seq<Action>, id: Id, q: QueueName)
    requires id in Run(routing, Initial(clock), actions).rows
    ensures var s := Run(routing, Initial(clock), actions);
            var row := s.rows[id];
            && (row.status == Processed && row.event.eventType in routing && routing[row.event.eventType] == Some(q) ==>
                  Job(id, row.event) in Jobs(s.queues, q))
            && (row.status == Dead ==> row.attempts >= 5)
  {
    var s := Run(routing, Initial(clock), actions);
    RunIsSound(routing, clock, actions);
    assert RowIsSound(routing, s, id);
    if HasJob(s.queues, q, id) {
      DeliveredAsCommitted(routing, s, q, id);
    }
  }

  lemma DeliveredAsCommitted(routing: Routing, s: State, q: QueueName, id: Id)
    requires JobsAreSound(routing, s) && id in s.committed && HasJob(s.queues, q, id)
    ensures Job(id, s.committed[id]) in Jobs(s.queues, q)
  {
    var k :| 0 <= k < |s.queues[q]| && s.queues[q][k].id == id;
    assert JobIsSound(routing, s, q, k);
    assert s.queues[q][k] == Job(id, s.committed[id]);
  }

  /** A committed event whose type has a queue is in that queue, or in the table still as an unprocessed row. */
  lemma NoEventIsLost(routing: Routing, clock: int, actions: seq<Action>, id: Id, q: QueueName)
    requires var s := Run(routing, Initial(clock), actions);
             && id in s.committed
             && s.committed[id].eventType in routing && routing[s.committed[id].eventType] == Some(q)
    ensures var s := Run(routing, Initial(clock), actions);
            || Job(id, s.committed[id]) in Jobs(s.queues, q)
            || (id in s.rows && s.rows[id].event == s.committed[id] && s.rows[id].status != Processed)
  {
    var s := Run(routing, Initial(clock), actions);
    RunIsSound(routing, clock, actions);
    if id in s.rows {
      assert RowIsSound(routing, s, id);
    } else {
      assert Delivered(routing, s, id);
    }
    if HasJob(s.queues, q, id) {
      DeliveredAsCommitted(routing, s, q, id);
    }
  }

  /** Over any stretch of a run, attempts do not decrease and jobs and drops are not taken back. */
  lemma {:induction false} RunProgresses(routing: Routing, clock: int, actions: seq<Action>, m: nat)
    requires m <= |actions|
    ensures Progress(Run(routing, Initial(clock), actions[..m]), Run(routing, Initial(clock), actions))
  {
    RunIsSound(routing, clock, actions);
    if m == |actions| {
      assert actions[..m] == actions;
      SelfProgress(routing, Run(routing, Initial(clock), actions));
    } else {
      var n := |actions| - 1;
      RunProgresses(routing, clock, actions[..n], m);
      RunIsSound(routing, clock, actions[..n]);
      assert actions[..n][..m] == actions[..m];
      StepIsSound(routing, Run(routing, Initial(clock), actions[..n]), actions[n]);
      ProgressChains(Run(routing, Initial(clock), actions[..m]), Run(routing, Initial(clock), actions[..n]),
                     Run(routing, Initial(clock), actions));
    }
  }

  lemma SelfProgress(routing: Routing, s: State)
    requires Sound(routing, s)
    ensures Progress(s, s)
  {
  }

  /** Attempts seen at any point of a run are a lower bound for the same row ever after. */
  lemma AttemptsNeverDecrease(routing: Routing, clock: int, actions: seq<Action>, m: nat, id: Id)
    requires m <= |actions|
    requires id in Run(routing, Initial(clock), actions[..m]).rows && id in Run(routing, Initial(clock), actions).rows
    ensures Run(routing, Initial(clock), actions[..m]).rows[id].attempts
            <= Run(routing, Initial(clock), actions).rows[id].attempts
  {
    RunIsSound(routing, clock, actions[..m]);
    assert RowIsSound(routing, Run(routing, Initial(clock), actions[..m]), id);
    RunProgresses(routing, clock, actions, m);
  }

  /** An event rolled back at some point of a run has no row and no job at the end of it. */
  lemma RolledBackIsNeverSent(routing: Routing, clock: int, actions: seq<Action>, m: nat, id: Id, q: QueueName)
    requires m <= |actions| && id in Run(routing, Initial(clock), actions[..m]).dropped
    ensures id !in Run(routing, Initial(clock), actions).rows && !HasJob(Run(routing, Initial(clock), actions).queues, q, id)
  {
    var s := Run(routing, Initial(clock), actions);
    RunProgresses(routing, clock, actions, m);
    RunIsSound(routing, clock, actions);
    assert id in s.dropped;
    forall i | i in s.rows
      ensures i != id
    {
      assert RowIsSound(routing, s, i);
    }
    if q in s.queues {
      forall k | 0 <= k < |s.queues[q]|
        ensures s.queues[q][k].id != id
      {
        assert JobIsSound(routing, s, q, k);
      }
    }
  }
}

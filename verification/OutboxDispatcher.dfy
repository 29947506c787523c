/**
 * The dispatcher's poll cycle: claim a batch, hand each event to its queue or mark it done, mark
 * failures, recover rows left behind. Calls that may fail take their outcome as a parameter.
 */
module OutboxDispatcher {
  import opened Options
  import opened OutboxTable

  datatype Db = Db(rows: Rows, queues: Queues)

  /** How each call made for one event ends, and when. */
  datatype Faults = Faults(add: CallOutcome, processed: CallOutcome, failed: CallOutcome, now: int)

  datatype Dispatched = Sent | FailedOver | Threw

  // ---- What dispatching does ----------------------------------------------------------

  function AfterProcessed(db: Db, id: Id, outcome: CallOutcome, now: int): Db {
    if MarkLands(db.rows, id, outcome) then db.(rows := MarkedProcessed(db.rows, id, now)) else db
  }

  function AfterFailed(db: Db, c: Claim, outcome: CallOutcome, now: int): Db {
    if MarkLands(db.rows, c.id, outcome) then db.(rows := MarkedFailed(db.rows, c, now)) else db
  }

  function AfterAdd(db: Db, q: QueueName, c: Claim, outcome: CallOutcome): Db {
    if outcome.Refused? then db else db.(queues := Enqueue(db.queues, q, Job(c.id, c.event)))
  }

  function FailOver(db: Db, c: Claim, f: Faults): (Db, Dispatched) {
    (AfterFailed(db, c, f.failed, f.now), if MarkWorks(db.rows, c.id, f.failed) then FailedOver else Threw)
  }

  /**
   * With a queue, whatever throws after the job was tried is answered by marking the row failed, also
   * when what threw is the processed mark and it took effect. Without one nothing is caught.
   */
  function DispatchOne(routing: Routing, db: Db, c: Claim, f: Faults): (Db, Dispatched) {
    match RouteOf(routing, c.event.eventType)
    case ToQueue(q) =>
      var added := AfterAdd(db, q, c, f.add);
      if !f.add.Works? then FailOver(added, c, f)
      else
        var marked := AfterProcessed(added, c.id, f.processed, f.now);
        if MarkWorks(added.rows, c.id, f.processed) then (marked, Sent) else FailOver(marked, c, f)
    case _ =>
      (AfterProcessed(db, c.id, f.processed, f.now), if MarkWorks(db.rows, c.id, f.processed) then Sent else Threw)
  }

  /** The batch in turn; an exception that escapes one event abandons the rest. */
  function DispatchAll(routing: Routing, db: Db, claims: seq<Claim>, faults: Id -> Faults): (Db, nat, bool)
    decreases |claims|
  {
    if claims == [] then (db, 0, false)
    else
      var (next, result) := DispatchOne(routing, db, claims[0], faults(claims[0].id));
      if result.Threw? then (next, 0, true)
      else
        var (end, sent, threw) := DispatchAll(routing, next, claims[1..], faults);
        (end, if result.Sent? then sent + 1 else sent, threw)
  }

  function MoreSent(n: nat, run: (Db, nat, bool)): (Db, nat, bool) {
    (run.0, n + run.1, run.2)
  }

  /** An exception that escapes leaves nothing to report. */
  function StopCounting(run: (Db, nat, bool)): (Db, nat, bool) {
    (run.0, if run.2 then 0 else run.1, run.2)
  }

  lemma OneMoreDispatched(routing: Routing, db: Db, claims: seq<Claim>, i: nat, faults: Id -> Faults, sent: nat)
    requires i < |claims|
    ensures var (next, result) := DispatchOne(routing, db, claims[i], faults(claims[i].id));
            MoreSent(sent, DispatchAll(routing, db, claims[i..], faults))
            == if result.Threw? then (next, sent, true)
               else MoreSent(if result.Sent? then sent + 1 else sent, DispatchAll(routing, next, claims[i + 1..], faults))
  {
    assert claims[i..][0] == claims[i] && claims[i..][1..] == claims[i + 1..];
  }

  /** A cycle's effect and what it reports: nothing when an exception escaped. */
  function Cycle(routing: Routing, db: Db, batch: seq<Id>, claim: CallOutcome, faults: Id -> Faults): (Db, nat)
    requires forall k | 0 <= k < |batch| :: batch[k] in db.rows
  {
    if claim.Refused? then (db, 0)
    else
      var claimed := db.(rows := ClaimRows(db.rows, batch));
      if claim.LandsThenThrows? then (claimed, 0)
      else
        var run := StopCounting(DispatchAll(routing, claimed, ClaimsOf(claimed.rows, batch), faults));
        (run.0, run.1)
  }

  // ---- What a cycle leaves behind ----------------------------------------------------------

  ghost predicate DistinctIds(claims: seq<Claim>) {
    forall i, k | 0 <= i < k < |claims| :: claims[i].id != claims[k].id
  }

  function CountProcessed(rows: Rows, claims: seq<Claim>): nat
    decreases |claims|
  {
    if claims == [] then 0
    else (if claims[0].id in rows && rows[claims[0].id].status.Processed? then 1 else 0) + CountProcessed(rows, claims[1..])
  }

  /**
   * One dispatch touches one row. What it reports says what became of the row, and when an exception
   * escapes the row is as the last update that took effect left it.
   */
  lemma DispatchTouchesOneRow(routing: Routing, db: Db, c: Claim, f: Faults)
    ensures var (end, result) := DispatchOne(routing, db, c, f);
            && end.rows.Keys == db.rows.Keys
            && (forall id {:trigger end.rows[id]} | id in db.rows && id != c.id :: end.rows[id] == db.rows[id])
            && (!result.Threw? ==> c.id in end.rows)
            && (result.Sent? ==> end.rows[c.id] == db.rows[c.id].(status := Processed, processedAt := Some(f.now)))
            && (result.FailedOver? ==>
                  end.rows[c.id] == FailedRow(db.rows[c.id].(processedAt := end.rows[c.id].processedAt), c, f.now))
            && (result.Threw? && c.id in db.rows ==>
                  || end.rows[c.id] == db.rows[c.id]
                  || (f.processed.LandsThenThrows?
                      && end.rows[c.id] == db.rows[c.id].(status := Processed, processedAt := Some(f.now)))
                  || (f.failed.LandsThenThrows?
                      && end.rows[c.id] == FailedRow(db.rows[c.id].(processedAt := end.rows[c.id].processedAt), c, f.now)))
  {
  }

  /** Exactly which of its calls throw decides what status a dispatch leaves the row in. */
  lemma StatusAfterDispatch(routing: Routing, db: Db, c: Claim, f: Faults)
    requires c.id in db.rows
    ensures var (end, result) := DispatchOne(routing, db, c, f);
            var hasQueue := c.event.eventType in routing && routing[c.event.eventType].Some?;
            var failed := hasQueue && !(f.add.Works? && f.processed.Works?) && !f.failed.Refused?;
            end.rows[c.id].status == (
              if failed then if c.attempts >= MAX_ATTEMPTS then Dead else Failed
              else if (hasQueue ==> f.add.Works?) && !f.processed.Refused? then Processed
              else db.rows[c.id].status)
  {
  }

  /** The queue the routing table names gets the event under its id, once, and no other queue changes. */
  ghost predicate SentWhereRouted(routing: Routing, before: Queues, after: Queues, c: Claim, add: CallOutcome) {
    forall q: QueueName :: Jobs(after, q) == Jobs(before, q) +
      if c.event.eventType in routing && routing[c.event.eventType] == Some(q) && !add.Refused?
         && forall k | 0 <= k < |Jobs(before, q)| :: Jobs(before, q)[k].id != c.id
      then [Job(c.id, c.event)] else []
  }

  lemma DispatchSendsWhereRouted(routing: Routing, db: Db, c: Claim, f: Faults)
    ensures SentWhereRouted(routing, db.queues, DispatchOne(routing, db, c, f).0.queues, c, f.add)
  {
    var t := c.event.eventType;
    var after := DispatchOne(routing, db, c, f).0.queues;
    if t in routing && routing[t].Some? && !f.add.Refused? {
      EnqueuesOnce(routing, db, c, f, routing[t].value);
      forall q: QueueName
        ensures Jobs(after, q) == Jobs(db.queues, q) +
          if q == routing[t].value && forall k | 0 <= k < |Jobs(db.queues, q)| :: Jobs(db.queues, q)[k].id != c.id
          then [Job(c.id, c.event)] else []
      {
        EnqueueAppends(db.queues, routing[t].value, Job(c.id, c.event), q);
      }
    } else {
      EnqueuesNothing(routing, db, c, f);
    }
  }

  lemma EnqueuesOnce(routing: Routing, db: Db, c: Claim, f: Faults, q: QueueName)
    requires c.event.eventType in routing && routing[c.event.eventType] == Some(q) && !f.add.Refused?
    ensures DispatchOne(routing, db, c, f).0.queues == Enqueue(db.queues, q, Job(c.id, c.event))
  {
  }

  lemma EnqueuesNothing(routing: Routing, db: Db, c: Claim, f: Faults)
    requires c.event.eventType !in routing || routing[c.event.eventType].None? || f.add.Refused?
    ensures DispatchOne(routing, db, c, f).0.queues == db.queues
  {
  }

  /** When every call works the event is in the queue the table names, if it names one, and the row is done. */
  lemma WorkingDispatchDelivers(routing: Routing, db: Db, c: Claim, f: Faults)
    requires c.id in db.rows && f.add.Works? && f.processed.Works?
    ensures var (end, result) := DispatchOne(routing, db, c, f);
            && result == Sent
            && end.rows == db.rows[c.id := db.rows[c.id].(status := Processed, processedAt := Some(f.now))]
            && forall q | c.event.eventType in routing && routing[c.event.eventType] == Some(q) ::
                 exists k | 0 <= k < |Jobs(end.queues, q)| :: Jobs(end.queues, q)[k].id == c.id
  {
    var (end, result) := DispatchOne(routing, db, c, f);
    DispatchSendsWhereRouted(routing, db, c, f);
    forall q | c.event.eventType in routing && routing[c.event.eventType] == Some(q)
      ensures exists k | 0 <= k < |Jobs(end.queues, q)| :: Jobs(end.queues, q)[k].id == c.id
    {
      var before, after := Jobs(db.queues, q), Jobs(end.queues, q);
      if k :| 0 <= k < |before| && before[k].id == c.id {
        assert after[k].id == c.id;
      } else {
        assert after[|before|].id == c.id;
      }
    }
  }

  /**
   * A failed row is due again one, two, four and eight minutes after its first four failures, and a claim
   * that is not full takes it exactly from then on. After the fifth no claim does.
   */
  lemma FailedIsRetriedAfterBackoff(routing: Routing, db: Db, c: Claim, f: Faults, now: int, size: nat, batch: seq<Id>)
    requires c.id in db.rows && c.attempts >= 1 && DispatchOne(routing, db, c, f).1.FailedOver?
    requires IsBatch(DispatchOne(routing, db, c, f).0.rows, now, size, {}, batch) && |batch| < size
    ensures c.id in batch <==> c.attempts <= 4 && now - f.now >= [60_000, 120_000, 240_000, 480_000][c.attempts - 1]
  {
    var end := DispatchOne(routing, db, c, f).0;
    DispatchTouchesOneRow(routing, db, c, f);
    ClaimTakesWhatIsDue(end.rows, now, size, {}, batch, c.id);
    FirstBackoffs();
  }

  lemma FirstBackoffs()
    ensures BackoffDelayMs(1) == 60_000 && BackoffDelayMs(2) == 120_000
    ensures BackoffDelayMs(3) == 240_000 && BackoffDelayMs(4) == 480_000
  {
    assert Pow2(1) == 2 && Pow2(2) == 4 && Pow2(3) == 8;
  }

  lemma {:induction false} DispatchAllTouchesItsRows(routing: Routing, db: Db, claims: seq<Claim>, faults: Id -> Faults)
    ensures var (end, sent, threw) := DispatchAll(routing, db, claims, faults);
            && end.rows.Keys == db.rows.Keys
            && forall id {:trigger end.rows[id]} | id in db.rows && (forall k | 0 <= k < |claims| :: claims[k].id != id) ::
                 end.rows[id] == db.rows[id]
    decreases |claims|
  {
    if claims != [] {
      DispatchTouchesOneRow(routing, db, claims[0], faults(claims[0].id));
      var (next, result) := DispatchOne(routing, db, claims[0], faults(claims[0].id));
      if !result.Threw? {
        DispatchAllTouchesItsRows(routing, next, claims[1..], faults);
        var (end, sent, threw) := DispatchAll(routing, db, claims, faults);
        forall id | id in db.rows && (forall k | 0 <= k < |claims| :: claims[k].id != id)
          ensures end.rows[id] == db.rows[id]
        {
          assert claims[0].id != id;
          assert forall k | 0 <= k < |claims[1..]| :: claims[1..][k] == claims[k + 1];
        }
      }
    }
  }

  /**
   * A cycle no exception escaped settles every row it claimed: sent, to be retried, or parked. The
   * number it reports is the number sent.
   */
  lemma {:induction false} CycleSettlesItsBatch(routing: Routing, db: Db, claims: seq<Claim>, faults: Id -> Faults)
    requires DistinctIds(claims) && !DispatchAll(routing, db, claims, faults).2
    ensures var (end, sent, threw) := DispatchAll(routing, db, claims, faults);
            && (forall k | 0 <= k < |claims| ::
                  && claims[k].id in end.rows
                  && (end.rows[claims[k].id].status.Processed? || end.rows[claims[k].id].status.Failed?
                      || (end.rows[claims[k].id].status.Dead? && IsExhausted(claims[k].attempts))))
            && sent == CountProcessed(end.rows, claims)
    decreases |claims|
  {
    if claims != [] {
      var c, rest := claims[0], claims[1..];
      var (next, result) := DispatchOne(routing, db, c, faults(c.id));
      DispatchTouchesOneRow(routing, db, c, faults(c.id));
      CycleSettlesItsBatch(routing, next, rest, faults);
      DispatchAllTouchesItsRows(routing, next, rest, faults);
      var (end, sent, threw) := DispatchAll(routing, next, rest, faults);
      assert forall k | 0 <= k < |rest| :: rest[k] == claims[k + 1] && rest[k].id != c.id;
      assert end.rows[c.id] == next.rows[c.id];
      forall k | 0 <= k < |claims|
        ensures claims[k].id in end.rows
        ensures end.rows[claims[k].id].status.Processed? || end.rows[claims[k].id].status.Failed?
                || (end.rows[claims[k].id].status.Dead? && IsExhausted(claims[k].attempts))
      {
        if k > 0 {
          assert claims[k] == rest[k - 1];
        }
      }
    }
  }

  // ---- The dispatcher -------------------------------------------------------------------------

  class OutboxDispatcherService {
    const routing: Routing
    const batchSize: nat
    var db: Db
    var running: bool

    constructor (routing: Routing, batchSize: nat, db: Db)
      ensures this.routing == routing && this.batchSize == batchSize && this.db == db && !running
    {
      this.routing, this.batchSize, this.db, running := routing, batchSize, db, false;
    }

    /** The claiming statement; `batch` is what the database selected for it, in the order it returns it. */
    method Claim(now: int, batch: seq<Id>, ghost locked: set<Id>, outcome: CallOutcome) returns (claims: Option<seq<Claim>>)
      requires IsBatch(db.rows, now, batchSize, locked, batch)
      modifies this`db
      ensures db == if outcome.Refused? then old(db) else old(db).(rows := ClaimRows(old(db).rows, batch))
      ensures !outcome.Refused? ==>
                forall id | id in old(db).rows ::
                  id in db.rows && db.rows[id] ==
                    if id in batch
                    then old(db).rows[id].(status := Processing, attempts := old(db).rows[id].attempts + 1)
                    else old(db).rows[id]
      ensures claims == if outcome.Works? then Some(ClaimsOf(db.rows, batch)) else None
      ensures claims.Some? ==>
                && |claims.value| == |batch|
                && forall k | 0 <= k < |batch| ::
                     claims.value[k] == OutboxTable.Claim(batch[k], old(db).rows[batch[k]].event, old(db).rows[batch[k]].attempts + 1)
    {
      if outcome.Refused? {
        return None;
      }
      db := db.(rows := ClaimRows(db.rows, batch));
      assert forall k | 0 <= k < |batch| :: batch[k] in batch;
      claims := if outcome.Works? then Some(ClaimsOf(db.rows, batch)) else None;
    }

    method MarkProcessed(id: Id, now: int, outcome: CallOutcome) returns (ok: bool)
      modifies this`db
      ensures ok == MarkWorks(old(db).rows, id, outcome)
      ensures db == AfterProcessed(old(db), id, outcome, now)
    {
      if outcome.Refused? || id !in db.rows {
        return false;
      }
      db := db.(rows := db.rows[id := db.rows[id].(status := Processed, processedAt := Some(now))]);
      ok := outcome.Works?;
    }

    method MarkFailed(c: Claim, now: int, outcome: CallOutcome) returns (ok: bool)
      modifies this`db
      ensures ok == MarkWorks(old(db).rows, c.id, outcome)
      ensures db == AfterFailed(old(db), c, outcome, now)
    {
      if outcome.Refused? || c.id !in db.rows {
        return false;
      }
      var row := db.rows[c.id];
      var marked := if c.attempts >= MAX_ATTEMPTS then row.(status := Dead)
                    else row.(status := Failed, availableAt := now + BackoffDelayMs(c.attempts));
      db := db.(rows := db.rows[c.id := marked]);
      ok := outcome.Works?;
    }

    /** The queue's own deduplication by job id. */
    method Add(q: QueueName, job: Job, outcome: CallOutcome) returns (ok: bool)
      modifies this`db
      ensures ok == outcome.Works?
      ensures db == if outcome.Refused? then old(db) else old(db).(queues := Enqueue(old(db).queues, q, job))
    {
      if outcome.Refused? {
        return false;
      }
      var jobs := if q in db.queues then db.queues[q] else [];
      if !HasId(jobs, job.id) {
        db := db.(queues := db.queues[q := jobs + [job]]);
      }
      ok := outcome.Works?;
    }

    method Dispatch(c: Claim, f: Faults) returns (result: Dispatched)
      modifies this`db
      ensures (db, result) == DispatchOne(routing, old(db), c, f)
      ensures SentWhereRouted(routing, old(db).queues, db.queues, c, f.add)
    {
      DispatchSendsWhereRouted(routing, db, c, f);
      if c.event.eventType !in routing || routing[c.event.eventType].None? {
        var ok := MarkProcessed(c.id, f.now, f.processed);
        return if ok then Sent else Threw;
      }
      var ok := Add(routing[c.event.eventType].value, Job(c.id, c.event), f.add);
      if ok {
        ok := MarkProcessed(c.id, f.now, f.processed);
        if ok {
          return Sent;
        }
      }
      ok := MarkFailed(c, f.now, f.failed);
      result := if ok then FailedOver else Threw;
    }

    /** The claimed events in turn, until one throws. */
    method DispatchEach(claims: seq<Claim>, faults: Id -> Faults) returns (sent: nat, threw: bool)
      modifies this`db
      ensures (db, sent, threw) == StopCounting(DispatchAll(routing, old(db), claims, faults))
      ensures threw ==> sent == 0
    {
      ghost var all := DispatchAll(routing, db, claims, faults);
      var i := 0;
      sent, threw := 0, false;
      assert claims[0..] == claims;
      while i < |claims|
        invariant i <= |claims| && !threw
        invariant all == MoreSent(sent, DispatchAll(routing, db, claims[i..], faults))
      {
        OneMoreDispatched(routing, db, claims, i, faults, sent);
        var result := Dispatch(claims[i], faults(claims[i].id));
        if result.Threw? {
          return 0, true;
        }
        if result.Sent? {
          sent := sent + 1;
        }
        i := i + 1;
      }
    }

    /** One poll cycle: never two at once, and whatever happens the flag is down afterwards. */
    method Tick(now: int, batch: seq<Id>, ghost locked: set<Id>, claim: CallOutcome, faults: Id -> Faults)
      returns (sent: nat)
      requires running || IsBatch(db.rows, now, batchSize, locked, batch)
      modifies this
      ensures old(running) ==> running && db == old(db) && sent == 0
      ensures !old(running) ==> !running && (db, sent) == Cycle(routing, old(db), batch, claim, faults)
      ensures claim != Works ==> sent == 0 && db.queues == old(db).queues
    {
      if running {
        return 0;
      }
      running := true;
      sent := 0;
      var claimed := Claim(now, batch, locked, claim);
      if claimed.Some? {
        var threw;
        sent, threw := DispatchEach(claimed.value, faults);
      }
      running := false;
    }

    /** Puts rows left in processing back in line, by the age of the event and not of its claim. */
    method RecoverStuck(now: int, olderThanMs: int) returns (count: nat)
      modifies this`db
      ensures db == old(db).(rows := Recovered(old(db).rows, now, olderThanMs))
      ensures forall id | id in db.rows ::
                db.rows[id] == if old(db).rows[id].status == Processing && old(db).rows[id].createdAt < now - olderThanMs
                               then old(db).rows[id].(status := Pending, availableAt := now) else old(db).rows[id]
      ensures count == |set id | id in old(db).rows && old(db).rows[id].status == Processing
                                 && old(db).rows[id].createdAt < now - olderThanMs|
    {
      count := |set id | id in db.rows && Stuck(db.rows[id], now, olderThanMs)|;
      assert (set id | id in db.rows && Stuck(db.rows[id], now, olderThanMs))
             == (set id | id in db.rows && db.rows[id].status == Processing && db.rows[id].createdAt < now - olderThanMs);
      db := db.(rows := Recovered(db.rows, now, olderThanMs));
    }
  }
}

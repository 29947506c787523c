/**
 * The outbox rows, the queues they are drained into, and the single updates made to both: each is
 * one SQL statement or one queue call in the program, and one atomic step here.
 */
module OutboxTable {
  import opened Numbers
  import opened Options

  type Id = nat

  datatype Event = Event(
    eventType: string, aggregateType: string, aggregateId: string, payload: string,
    actorUserId: Option<string>, requestId: Option<string>)

  datatype Status = Pending | Processing | Processed | Failed | Dead

  datatype Row = Row(
    event: Event, status: Status, attempts: nat, availableAt: int, createdAt: int, processedAt: Option<int>)

  type Rows = map<Id, Row>

  /** A job's id is its event's row id. */
  datatype Job = Job(id: Id, event: Event)

  datatype QueueName = Email | Notifications | SheetsSync | Reports | Maintenance

  type Queues = map<QueueName, seq<Job>>

  /** What the claiming statement returns: the row as it was then. */
  datatype Claim = Claim(id: Id, event: Event, attempts: nat)

  const MAX_ATTEMPTS := 5
  const MAX_BACKOFF_MS := 3_600_000
  const RETENTION_MS := 90 * 86_400_000

  // ---- Routing ------------------------------------------------------------------------

  /** A type may have a queue, be routed to none by decision, or be absent from the table. */
  type Routing = map<string, Option<QueueName>>

  datatype Route = ToQueue(queue: QueueName) | NoConsumer | Undeclared

  function RouteOf(routing: Routing, eventType: string): Route {
    if eventType !in routing then Undeclared
    else match routing[eventType]
      case Some(q) => ToQueue(q)
      case None => NoConsumer
  }

  // ---- Backoff --------------------------------------------------------------------------

  function Pow2(n: nat): nat {
    if n == 0 then 1 else 2 * Pow2(n - 1)
  }

  function BackoffDelayMs(attempts: int): int {
    Min(60_000 * Pow2(if attempts - 1 < 0 then 0 else attempts - 1), MAX_BACKOFF_MS)
  }

  predicate IsExhausted(attempts: int) {
    attempts >= MAX_ATTEMPTS
  }

  lemma {:induction false} Pow2Grows(a: nat, b: nat)
    requires a <= b
    ensures 1 <= Pow2(a) <= Pow2(b)
    decreases b
  {
    if b > 0 {
      if a < b {
        Pow2Grows(a, b - 1);
      } else {
        Pow2Grows(a - 1, b - 1);
      }
    }
  }

  /** One, two, four, eight minutes, then an hour at most; never less after more attempts. */
  lemma BackoffSchedule(a: int, b: int)
    requires a <= b
    ensures 60_000 <= BackoffDelayMs(a) <= BackoffDelayMs(b) <= MAX_BACKOFF_MS
    ensures a >= 1 && BackoffDelayMs(a + 1) < MAX_BACKOFF_MS ==> BackoffDelayMs(a + 1) == 2 * BackoffDelayMs(a)
    ensures BackoffDelayMs(a) == 60_000 <==> a <= 1
    ensures BackoffDelayMs(a) == MAX_BACKOFF_MS <==> a >= 7
  {
    var m, n: nat := if a - 1 < 0 then 0 else a - 1, if b - 1 < 0 then 0 else b - 1;
    Pow2Grows(m, n);
    if a > 1 {
      Pow2Grows(1, m);
    }
    assert Pow2(1) == 2;
    assert Pow2(3) == 8 && Pow2(5) == 4 * Pow2(3) && Pow2(6) == 2 * Pow2(5);
    if m >= 6 {
      Pow2Grows(6, m);
    } else {
      Pow2Grows(m, 5);
    }
  }

  // ---- Claiming ---------------------------------------------------------------------------

  predicate Claimable(row: Row, now: int) {
    (row.status.Pending? || row.status.Failed?) && row.availableAt <= now
  }

  predicate Before(rows: Rows, a: Id, b: Id)
    requires a in rows && b in rows
  {
    rows[a].availableAt < rows[b].availableAt || (rows[a].availableAt == rows[b].availableAt && a < b)
  }

  /**
   * The first rows in order of availability that may be claimed and that no other statement has
   * locked just now: as many as asked for, or all there are.
   */
  ghost predicate IsSelection(rows: Rows, now: int, size: nat, locked: set<Id>, batch: seq<Id>) {
    && |batch| <= size
    && (forall k | 0 <= k < |batch| :: batch[k] in rows && batch[k] !in locked && Claimable(rows[batch[k]], now))
    && (forall i, k | 0 <= i < k < |batch| :: Before(rows, batch[i], batch[k]))
    && (forall id {:trigger id in batch} | id in rows && id !in locked && Claimable(rows[id], now) && id !in batch ::
          |batch| == size && forall k | 0 <= k < |batch| :: Before(rows, batch[k], id))
  }

  /** The selected rows as the update returns them: each once, in any order. */
  ghost predicate IsBatch(rows: Rows, now: int, size: nat, locked: set<Id>, batch: seq<Id>) {
    && (forall k | 0 <= k < |batch| :: batch[k] in rows)
    && (forall i, k | 0 <= i < k < |batch| :: batch[i] != batch[k])
    && exists selected :: IsSelection(rows, now, size, locked, selected) && SameIds(selected, batch)
  }

  ghost predicate SameIds(a: seq<Id>, b: seq<Id>) {
    forall id :: id in a <==> id in b
  }

  lemma BatchIsClaimable(rows: Rows, now: int, size: nat, locked: set<Id>, batch: seq<Id>)
    requires IsBatch(rows, now, size, locked, batch)
    ensures forall k | 0 <= k < |batch| :: batch[k] in rows && batch[k] !in locked && Claimable(rows[batch[k]], now)
  {
    var selected :| IsSelection(rows, now, size, locked, selected) && SameIds(selected, batch);
    forall k | 0 <= k < |batch|
      ensures batch[k] in rows && batch[k] !in locked && Claimable(rows[batch[k]], now)
    {
      assert batch[k] in batch && batch[k] in selected;
    }
  }

  lemma SelectionIsBatch(rows: Rows, now: int, size: nat, locked: set<Id>, selected: seq<Id>)
    requires IsSelection(rows, now, size, locked, selected)
    ensures IsBatch(rows, now, size, locked, selected)
  {
    forall i, k | 0 <= i < k < |selected|
      ensures selected[i] != selected[k]
    {
      assert Before(rows, selected[i], selected[k]);
    }
    assert SameIds(selected, selected);
  }

  function ClaimRows(rows: Rows, batch: seq<Id>): Rows {
    map id | id in rows ::
      if id in batch then rows[id].(status := Processing, attempts := rows[id].attempts + 1) else rows[id]
  }

  function ClaimOf(rows: Rows, id: Id): Claim
    requires id in rows
  {
    Claim(id, rows[id].event, rows[id].attempts)
  }

  function ClaimsOf(rows: Rows, batch: seq<Id>): seq<Claim>
    requires forall k | 0 <= k < |batch| :: batch[k] in rows
  {
    seq(|batch|, k requires 0 <= k < |batch| => ClaimOf(rows, batch[k]))
  }

  ghost predicate Found(rows: Rows, now: int, locked: set<Id>, id: Id) {
    id in rows && id !in locked && Claimable(rows[id], now)
  }

  lemma {:induction false} FirstExists(rows: Rows, among: set<Id>) returns (first: Id)
    requires among != {} && among <= rows.Keys
    ensures first in among && forall id | id in among && id != first :: Before(rows, first, id)
    decreases |among|
  {
    var x :| x in among;
    if among == {x} {
      first := x;
    } else {
      var y := FirstExists(rows, among - {x});
      first := if Before(rows, x, y) then x else y;
      forall id | id in among && id != first
        ensures Before(rows, first, id)
      {
        if id != x && id != y {
          assert Before(rows, y, id);
        }
      }
    }
  }

  /** There is always a selection to claim, and only one. */
  lemma {:induction false} SelectionExists(rows: Rows, now: int, size: nat, locked: set<Id>) returns (batch: seq<Id>)
    ensures IsSelection(rows, now, size, locked, batch)
    decreases size
  {
    var among := set id | id in rows && Found(rows, now, locked, id);
    if size == 0 || among == {} {
      batch := [];
      assert forall id | id in rows && id !in locked && Claimable(rows[id], now) :: id in among;
    } else {
      var first := FirstExists(rows, among);
      var rest := SelectionExists(rows, now, size - 1, locked + {first});
      batch := [first] + rest;
      assert forall id :: id in batch <==> id == first || id in rest;
      forall k | 0 <= k < |rest|
        ensures Before(rows, first, rest[k])
      {
        assert rest[k] in among && rest[k] != first;
      }
      forall id | id in rows && id !in locked && Claimable(rows[id], now) && id !in batch
        ensures |batch| == size && forall k | 0 <= k < |batch| :: Before(rows, batch[k], id)
      {
        assert id in among && id != first && id !in rest;
      }
    }
  }

  lemma {:induction false} SelectionIsUnique(rows: Rows, now: int, size: nat, locked: set<Id>, a: seq<Id>, b: seq<Id>)
    requires IsSelection(rows, now, size, locked, a) && IsSelection(rows, now, size, locked, b)
    ensures a == b
    decreases size
  {
    EmptySelection(rows, now, size, locked, a);
    EmptySelection(rows, now, size, locked, b);
    if a != [] {
      FirstsAgree(rows, now, size, locked, a, b);
      RestIsSelection(rows, now, size, locked, a);
      RestIsSelection(rows, now, size, locked, b);
      SelectionIsUnique(rows, now, size - 1, locked + {a[0]}, a[1..], b[1..]);
      assert a == [a[0]] + a[1..] && b == [b[0]] + b[1..];
    }
  }

  /** Whatever order it comes in, what is claimed is determined: any two batches hold the same ids. */
  lemma BatchIsUniqueUpToOrder(rows: Rows, now: int, size: nat, locked: set<Id>, a: seq<Id>, b: seq<Id>)
    requires IsBatch(rows, now, size, locked, a) && IsBatch(rows, now, size, locked, b)
    ensures SameIds(a, b) && ClaimRows(rows, a) == ClaimRows(rows, b)
  {
    var x :| IsSelection(rows, now, size, locked, x) && SameIds(x, a);
    var y :| IsSelection(rows, now, size, locked, y) && SameIds(y, b);
    SelectionIsUnique(rows, now, size, locked, x, y);
  }

  lemma EmptySelection(rows: Rows, now: int, size: nat, locked: set<Id>, a: seq<Id>)
    requires IsSelection(rows, now, size, locked, a)
    ensures a == [] <==> size == 0 || forall id :: !Found(rows, now, locked, id)
  {
    if a == [] {
      forall id
        ensures size == 0 || !Found(rows, now, locked, id)
      {
        assert id !in a;
      }
    } else {
      assert Found(rows, now, locked, a[0]);
    }
  }

  lemma FirstsAgree(rows: Rows, now: int, size: nat, locked: set<Id>, a: seq<Id>, b: seq<Id>)
    requires IsSelection(rows, now, size, locked, a) && IsSelection(rows, now, size, locked, b) && a != [] && b != []
    ensures a[0] == b[0]
  {
    FirstIsLeast(rows, now, size, locked, a, b[0]);
    FirstIsLeast(rows, now, size, locked, b, a[0]);
  }

  lemma FirstIsLeast(rows: Rows, now: int, size: nat, locked: set<Id>, a: seq<Id>, id: Id)
    requires IsSelection(rows, now, size, locked, a) && a != [] && Found(rows, now, locked, id)
    ensures id == a[0] || Before(rows, a[0], id)
  {
    if id in a {
      var k :| 0 <= k < |a| && a[k] == id;
    }
  }

  lemma RestIsSelection(rows: Rows, now: int, size: nat, locked: set<Id>, a: seq<Id>)
    requires IsSelection(rows, now, size, locked, a) && a != []
    ensures IsSelection(rows, now, size - 1, locked + {a[0]}, a[1..])
  {
    assert forall id :: id in a <==> id == a[0] || id in a[1..];
  }

  // ---- The other updates ------------------------------------------------------------------

  /** A call to the database or to a queue may throw before it takes effect or after. */
  datatype CallOutcome = Works | Refused | LandsThenThrows

  /** An update of one row by its id also throws, to no effect, when the row is gone. */
  predicate MarkLands(rows: Rows, id: Id, outcome: CallOutcome) {
    !outcome.Refused? && id in rows
  }

  predicate MarkWorks(rows: Rows, id: Id, outcome: CallOutcome) {
    outcome.Works? && id in rows
  }

  ghost predicate HasJob(queues: Queues, q: QueueName, id: Id) {
    q in queues && HasId(queues[q], id)
  }

  predicate HasId(jobs: seq<Job>, id: Id) {
    exists k | 0 <= k < |jobs| :: jobs[k].id == id
  }

  /** Adding a job under an id the queue has seen is dropped by the queue. */
  function Enqueue(queues: Queues, q: QueueName, job: Job): Queues {
    var jobs := if q in queues then queues[q] else [];
    if HasId(jobs, job.id) then queues else queues[q := jobs + [job]]
  }

  function MarkedProcessed(rows: Rows, id: Id, now: int): Rows {
    if id in rows then rows[id := rows[id].(status := Processed, processedAt := Some(now))] else rows
  }

  /** Whether the row is parked goes by the attempts seen when it was claimed. */
  function FailedRow(row: Row, c: Claim, now: int): Row {
    if IsExhausted(c.attempts) then row.(status := Dead)
    else row.(status := Failed, availableAt := now + BackoffDelayMs(c.attempts))
  }

  function MarkedFailed(rows: Rows, c: Claim, now: int): Rows {
    if c.id in rows then rows[c.id := FailedRow(rows[c.id], c, now)] else rows
  }

  predicate Stuck(row: Row, now: int, olderThanMs: int) {
    row.status.Processing? && row.createdAt < now - olderThanMs
  }

  function Recovered(rows: Rows, now: int, olderThanMs: int): Rows {
    map id | id in rows ::
      if Stuck(rows[id], now, olderThanMs) then rows[id].(status := Pending, availableAt := now) else rows[id]
  }

  function Purged(rows: Rows, now: int): Rows {
    map id | id in rows &&
             !(rows[id].status.Processed? && rows[id].processedAt.Some? && rows[id].processedAt.value < now - RETENTION_MS) ::
      rows[id]
  }

  /** What is in a queue, in the order it was added. */
  function Jobs(queues: Queues, q: QueueName): seq<Job> {
    if q in queues then queues[q] else []
  }

  /** One job at the end of its queue, unless its id is in that queue already; no other queue changes. */
  lemma EnqueueAppends(queues: Queues, q: QueueName, job: Job, p: QueueName)
    ensures Jobs(Enqueue(queues, q, job), p)
            == Jobs(queues, p)
               + if p == q && forall k | 0 <= k < |Jobs(queues, q)| :: Jobs(queues, q)[k].id != job.id then [job] else []
  {
  }

  lemma EnqueueKeepsJobs(queues: Queues, q: QueueName, job: Job, p: QueueName, id: Id)
    ensures HasJob(Enqueue(queues, q, job), p, id) <==> HasJob(queues, p, id) || (p == q && id == job.id)
  {
    var after := Enqueue(queues, q, job);
    var jobs := if q in queues then queues[q] else [];
    if p != q {
      assert p in after <==> p in queues;
      assert p in queues ==> after[p] == queues[p];
    } else if after == queues {
      var k :| 0 <= k < |jobs| && jobs[k].id == job.id;
    } else {
      assert after[q] == jobs + [job];
      assert forall k | 0 <= k < |jobs| :: after[q][k] == jobs[k];
      assert after[q][|jobs|].id == job.id;
    }
  }

  // ---- When a row is claimed again -----------------------------------------------------------

  /** A claim that is not full takes exactly the rows that wait or have failed and whose time has come. */
  lemma ClaimTakesWhatIsDue(rows: Rows, now: int, size: nat, locked: set<Id>, batch: seq<Id>, id: Id)
    requires IsBatch(rows, now, size, locked, batch) && |batch| < size
    ensures id in batch <==>
              id in rows && id !in locked && rows[id].status in {Pending, Failed} && rows[id].availableAt <= now
  {
    var selected :| IsSelection(rows, now, size, locked, selected) && SameIds(selected, batch);
    SelectionAsLongAsBatch(rows, now, size, locked, selected, batch);
    assert id in batch <==> id in selected;
    if id in selected {
      var k :| 0 <= k < |selected| && selected[k] == id;
    }
  }

  /** A full one takes those that have waited longest, by id among those that have waited as long. */
  lemma ClaimTakesTheLongestDue(rows: Rows, now: int, size: nat, locked: set<Id>, batch: seq<Id>, id: Id, other: Id)
    requires IsBatch(rows, now, size, locked, batch) && id in batch && other !in batch
    requires other in rows && other !in locked && rows[other].status in {Pending, Failed} && rows[other].availableAt <= now
    ensures |batch| == size && id in rows && id !in locked && rows[id].status in {Pending, Failed}
    ensures rows[id].availableAt < rows[other].availableAt || (rows[id].availableAt == rows[other].availableAt && id < other)
  {
    var selected :| IsSelection(rows, now, size, locked, selected) && SameIds(selected, batch);
    SelectionAsLongAsBatch(rows, now, size, locked, selected, batch);
    assert id in selected && (other in selected <==> other in batch);
    var k :| 0 <= k < |selected| && selected[k] == id;
  }

  ghost predicate Distinct(s: seq<Id>) {
    forall i, k | 0 <= i < k < |s| :: s[i] != s[k]
  }

  lemma SelectionAsLongAsBatch(rows: Rows, now: int, size: nat, locked: set<Id>, selected: seq<Id>, batch: seq<Id>)
    requires IsSelection(rows, now, size, locked, selected) && SameIds(selected, batch) && Distinct(batch)
    ensures |batch| == |selected|
  {
    forall i, k | 0 <= i < k < |selected|
      ensures selected[i] != selected[k]
    {
      assert Before(rows, selected[i], selected[k]);
    }
    IdCount(selected);
    IdCount(batch);
    assert IdSet(selected) == IdSet(batch);
  }

  function IdSet(s: seq<Id>): set<Id> {
    set id | id in s
  }

  lemma {:induction false} IdCount(s: seq<Id>)
    requires Distinct(s)
    ensures |IdSet(s)| == |s|
  {
    if s != [] {
      var front, last := s[..|s| - 1], s[|s| - 1];
      IdCount(front);
      assert s == front + [last];
      assert last !in front;
      assert IdSet(s) == IdSet(front) + {last};
    }
  }

  /** Recovery puts exactly the old rows in processing back in line, due at once. */
  lemma RecoveredAreDueAtOnce(rows: Rows, now: int, olderThanMs: int, id: Id)
    requires id in rows
    ensures var after := Recovered(rows, now, olderThanMs);
            && after.Keys == rows.Keys
            && after[id] == if rows[id].status == Processing && rows[id].createdAt < now - olderThanMs
                            then rows[id].(status := Pending, availableAt := now) else rows[id]
  {
  }

  /** The purge takes out exactly the rows processed more than ninety days ago. */
  lemma PurgeTakesOldProcessed(rows: Rows, now: int, id: Id)
    requires id in rows
    ensures id !in Purged(rows, now) <==>
              rows[id].status == Processed && rows[id].processedAt.Some? && rows[id].processedAt.value < now - 7_776_000_000
    ensures id in Purged(rows, now) ==> Purged(rows, now)[id] == rows[id]
    ensures Purged(rows, now).Keys <= rows.Keys
  {
  }
}

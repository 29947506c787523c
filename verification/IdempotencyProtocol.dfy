/**
 * The idempotency protocol as interleaved single steps: many requests, a table that outlives
 * them, crashes, lost writes, a periodic purge, and a clock each request reads once.
 */
module IdempotencyProtocol {
  import opened Options
  import opened JsonText
  import opened CanonicalJson
  import opened IdempotencyKeys

  datatype Outcome = Pending | Succeeded(response: Response) | Failed

  /** A claim of a scope; its index in the log is the id of its row. */
  datatype Execution = Execution(scope: Scope, body: Json, owner: nat, insertedAt: int, expiresAt: int, outcome: Outcome)

  datatype Answer = Handled(response: Response, source: Id) | Replay(response: Response, source: Id) | Conflict | Busy | Error

  datatype Phase =
    | Inserting
    | Looking
    | Clearing(id: Id)
    | Running(id: Id)
    | Remembering(id: Id, response: Response)
    | Releasing(id: Id)
    | Answered(answer: Answer)
    | Dead

  /** `now` is read once, when the request arrives. */
  datatype Request = Request(scope: Scope, body: Json, now: int, phase: Phase)

  datatype State = State(clock: int, rows: Table, log: seq<Execution>, requests: seq<Request>)

  datatype Move =
    | Insert
    | Look
    | Clear
    | Succeed(response: Response)
    | Fail
    | Remember(lost: bool)
    | Release(lost: bool)
    | Break
    | Die

  datatype Action = Tick(ms: nat) | Arrive(scope: Scope, body: Json) | Purge(now: int) | Of(r: nat, move: Move)

  function Initial(clock: int): State {
    State(clock, map[], [], [])
  }

  // ---- Steps ------------------------------------------------------------------------------

  function To(s: State, r: nat, phase: Phase): State
    requires r < |s.requests|
  {
    s.(requests := s.requests[r := s.requests[r].(phase := phase)])
  }

  function Settled(s: State, id: Id, outcome: Outcome): State {
    if id < |s.log| then s.(log := s.log[id := s.log[id].(outcome := outcome)]) else s
  }

  ghost function Holder(t: Table, scope: Scope): (id: Option<Id>)
    ensures id.Some? ==> Holds(t, id.value, scope)
    ensures id.None? <==> Free(t, scope)
  {
    if exists id :: Holds(t, id, scope) then
      var id :| Holds(t, id, scope);
      Some(id)
    else assert forall id | id in t :: t[id].scope == scope ==> Holds(t, id, scope); None
  }

  ghost function DoInsert(s: State, r: nat): State
    requires r < |s.requests|
  {
    var q := s.requests[r];
    if Free(s.rows, q.scope) then
      var id := |s.log|;
      var row := NewRow(q.scope, HashBody(q.body), q.now);
      To(s, r, Running(id)).(rows := s.rows[id := row],
                             log := s.log + [Execution(q.scope, q.body, r, s.clock, row.expiresAt, Pending)])
    else To(s, r, Looking)
  }

  ghost function DoLook(s: State, r: nat): State
    requires r < |s.requests|
  {
    var q := s.requests[r];
    match Holder(s.rows, q.scope)
    case None => To(s, r, Inserting)
    case Some(id) =>
      match Read(s.rows[id], HashBody(q.body), q.now)
      case Expired => To(s, r, Clearing(id))
      case HashConflict => To(s, r, Answered(Conflict))
      case InProgress => To(s, r, Answered(Busy))
      case Replay(response) => To(s, r, Answered(Answer.Replay(response, id)))
  }

  /** Deleting a row that is gone already is an error, and the request fails with it. */
  function DoClear(s: State, r: nat, id: Id): State
    requires r < |s.requests|
  {
    if id in s.rows then To(s, r, Inserting).(rows := s.rows - {id}) else To(s, r, Answered(Error))
  }

  function DoPurge(s: State, now: int): State {
    s.(rows := map id | id in s.rows && s.rows[id].expiresAt >= now :: s.rows[id])
  }

  function DoSucceed(s: State, r: nat, id: Id, response: Response): State
    requires r < |s.requests|
  {
    To(Settled(s, id, Succeeded(response)), r, Remembering(id, response))
  }

  function DoFail(s: State, r: nat, id: Id): State
    requires r < |s.requests|
  {
    To(Settled(s, id, Failed), r, Releasing(id))
  }

  /** The answer is on its way already; only the memo of it may be lost. */
  function DoRemember(s: State, r: nat, id: Id, response: Response, lost: bool): State
    requires r < |s.requests|
  {
    To(s, r, Answered(Handled(response, id))).(rows := if lost then s.rows else Remembered(s.rows, id, response))
  }

  function DoRelease(s: State, r: nat, id: Id, lost: bool): State
    requires r < |s.requests|
  {
    To(s, r, Answered(Error)).(rows := if lost then s.rows else s.rows - {id})
  }

  /** A move of one request; one that is not possible in its phase changes nothing. */
  ghost function Moved(s: State, r: nat, move: Move): State
    requires r < |s.requests|
  {
    var phase := s.requests[r].phase;
    match move
    case Insert => if phase.Inserting? then DoInsert(s, r) else s
    case Look => if phase.Looking? then DoLook(s, r) else s
    case Clear => if phase.Clearing? then DoClear(s, r, phase.id) else s
    case Succeed(response) => if phase.Running? then DoSucceed(s, r, phase.id, response) else s
    case Fail => if phase.Running? then DoFail(s, r, phase.id) else s
    case Remember(lost) => if phase.Remembering? then DoRemember(s, r, phase.id, phase.response, lost) else s
    case Release(lost) => if phase.Releasing? then DoRelease(s, r, phase.id, lost) else s
    case Break => if phase.Inserting? || phase.Looking? || phase.Clearing? then To(s, r, Answered(Error)) else s
    case Die => if phase.Answered? then s else To(s, r, Dead)
  }

  ghost function Step(s: State, a: Action): State {
    match a
    case Tick(ms) => s.(clock := s.clock + ms)
    case Arrive(scope, body) => s.(requests := s.requests + [Request(scope, body, s.clock, Inserting)])
    case Purge(now) => if now <= s.clock then DoPurge(s, now) else s
    case Of(r, move) => if r < |s.requests| then Moved(s, r, move) else s
  }

  ghost function Run(s: State, actions: seq<Action>): State {
    if actions == [] then s else Step(Run(s, actions[..|actions| - 1]), actions[|actions| - 1])
  }

  // ---- What every step keeps -----------------------------------------------------------------

  ghost predicate RowMatches(s: State, id: Id)
    requires id in s.rows
  {
    && id < |s.log|
    && s.rows[id].scope == s.log[id].scope && s.rows[id].expiresAt == s.log[id].expiresAt
    && s.rows[id].hash == HashBody(s.log[id].body)
    && (s.rows[id].response.Some? ==>
          s.log[id].outcome.Succeeded? && s.rows[id].response.value == Stored(s.log[id].outcome.response))
  }

  ghost predicate RowsMatch(s: State) {
    forall id {:trigger RowMatches(s, id)} | id in s.rows :: RowMatches(s, id)
  }

  /** A claim whose row is gone has failed or expired. */
  ghost predicate GoneIsOver(s: State) {
    forall id {:trigger s.log[id]} | 0 <= id < |s.log| && id !in s.rows ::
      s.log[id].outcome.Failed? || s.log[id].expiresAt <= s.clock
  }

  /** Of two claims of one scope, the earlier failed or had expired when the later was made. */
  ghost predicate ClaimsAreApart(log: seq<Execution>) {
    forall i, k {:trigger log[i], log[k]} | 0 <= i < k < |log| && log[i].scope == log[k].scope ::
      log[i].outcome.Failed? || log[i].expiresAt <= log[k].insertedAt
  }

  /** A claim is some request's, and expires a fixed time after that request arrived. */
  ghost predicate ClaimsHaveOwners(s: State) {
    forall id {:trigger s.log[id]} | 0 <= id < |s.log| ::
      && s.log[id].owner < |s.requests| && s.log[id].insertedAt <= s.clock
      && s.log[id].expiresAt == s.requests[s.log[id].owner].now + KEY_TTL_MS
      && s.log[id].scope == s.requests[s.log[id].owner].scope && s.log[id].body == s.requests[s.log[id].owner].body
  }

  /** A request that has yet to claim has no claim in the log. */
  ghost predicate HasNoClaim(s: State, r: nat) {
    forall id {:trigger s.log[id]} | 0 <= id < |s.log| :: s.log[id].owner != r
  }

  ghost predicate OneClaimEach(log: seq<Execution>) {
    forall i, k {:trigger log[i], log[k]} | 0 <= i < k < |log| :: log[i].owner != log[k].owner
  }

  ghost predicate OwnClaim(s: State, r: nat, id: Id)
    requires r < |s.requests|
  {
    id < |s.log| && s.log[id].owner == r && s.log[id].scope == s.requests[r].scope && s.log[id].body == s.requests[r].body
  }

  ghost predicate RequestIsSound(s: State, r: nat)
    requires r < |s.requests|
  {
    var q := s.requests[r];
    && q.now <= s.clock
    && (q.phase.Inserting? || q.phase.Looking? || q.phase.Clearing? ==> HasNoClaim(s, r))
    && match q.phase
       case Clearing(id) => id < |s.log| && s.log[id].expiresAt <= q.now
       case Running(id) => OwnClaim(s, r, id) && s.log[id].outcome.Pending?
       case Remembering(id, response) => OwnClaim(s, r, id) && s.log[id].outcome == Succeeded(response)
       case Releasing(id) => OwnClaim(s, r, id) && s.log[id].outcome.Failed?
       case Answered(Handled(response, id)) => OwnClaim(s, r, id) && s.log[id].outcome == Succeeded(response)
       case Answered(Replay(response, id)) =>
         && id < |s.log| && s.log[id].scope == q.scope && HashBody(s.log[id].body) == HashBody(q.body)
         && s.log[id].outcome.Succeeded? && response == Stored(s.log[id].outcome.response)
       case _ => true
  }

  ghost predicate RequestsAreSound(s: State) {
    forall r {:trigger RequestIsSound(s, r)} | 0 <= r < |s.requests| :: RequestIsSound(s, r)
  }

  ghost predicate Sound(s: State) {
    && UniqueScopes(s.rows) && RowsMatch(s) && GoneIsOver(s)
    && ClaimsAreApart(s.log) && OneClaimEach(s.log) && ClaimsHaveOwners(s)
    && RequestsAreSound(s)
  }

  /** A new claim comes after every claim of its scope is over. */
  lemma NewClaimIsApart(s: State, r: nat)
    requires Sound(s) && r < |s.requests| && s.requests[r].phase.Inserting? && Free(s.rows, s.requests[r].scope)
    ensures ClaimsAreApart(DoInsert(s, r).log) && OneClaimEach(DoInsert(s, r).log)
    ensures ClaimsHaveOwners(DoInsert(s, r)) && GoneIsOver(DoInsert(s, r))
  {
    var s' := DoInsert(s, r);
    assert RequestIsSound(s, r);
    forall id | id in s.rows
      ensures id < |s.log| && s.log[id].scope != s.requests[r].scope
    {
      assert RowMatches(s, id);
    }
    assert s'.log[..|s.log|] == s.log;
  }

  lemma InsertedRowMatches(s: State, r: nat)
    requires Sound(s) && r < |s.requests| && s.requests[r].phase.Inserting? && Free(s.rows, s.requests[r].scope)
    ensures UniqueScopes(DoInsert(s, r).rows) && RowsMatch(DoInsert(s, r))
  {
    var s' := DoInsert(s, r);
    forall id | id in s'.rows
      ensures RowMatches(s', id)
    {
      assert id in s.rows ==> RowMatches(s, id);
    }
  }

  lemma InsertKeepsRequests(s: State, r: nat)
    requires Sound(s) && r < |s.requests| && s.requests[r].phase.Inserting? && Free(s.rows, s.requests[r].scope)
    ensures RequestsAreSound(DoInsert(s, r))
  {
    var s' := DoInsert(s, r);
    forall k | 0 <= k < |s'.requests|
      ensures RequestIsSound(s', k)
    {
      assert RequestIsSound(s, k);
    }
  }

  lemma InsertIsSound(s: State, r: nat)
    requires Sound(s) && r < |s.requests| && s.requests[r].phase.Inserting?
    ensures Sound(DoInsert(s, r))
  {
    assert RequestIsSound(s, r);
    if Free(s.rows, s.requests[r].scope) {
      NewClaimIsApart(s, r);
      InsertedRowMatches(s, r);
      InsertKeepsRequests(s, r);
    } else {
      PhaseChangeIsSound(s, DoInsert(s, r), r);
    }
  }

  lemma LookIsSound(s: State, r: nat)
    requires Sound(s) && r < |s.requests| && s.requests[r].phase.Looking?
    ensures Sound(DoLook(s, r))
  {
    var s' := DoLook(s, r);
    assert RequestIsSound(s, r);
    var holder := Holder(s.rows, s.requests[r].scope);
    if holder.Some? {
      assert RowMatches(s, holder.value);
    }
    PhaseChangeIsSound(s, s', r);
  }

  /** A step that only moves one request on is sound if that request is. */
  lemma PhaseChangeIsSound(s: State, s': State, r: nat)
    requires Sound(s) && r < |s.requests| == |s'.requests| && s' == To(s, r, s'.requests[r].phase)
    requires RequestIsSound(s', r)
    ensures Sound(s')
  {
    forall k | 0 <= k < |s'.requests|
      ensures RequestIsSound(s', k)
    {
      assert k != r ==> RequestIsSound(s, k);
    }
    forall id | id in s'.rows
      ensures RowMatches(s', id)
    {
      assert RowMatches(s, id);
    }
  }

  /** Rows may be taken out once their claims are over. */
  lemma RemovalIsSound(s: State, rows: Table)
    requires Sound(s)
    requires forall id {:trigger id in rows} | id in rows :: id in s.rows && rows[id] == s.rows[id]
    requires forall id | id in s.rows && id !in rows :: id < |s.log| ==>
               s.log[id].outcome.Failed? || s.log[id].expiresAt <= s.clock
    ensures Sound(s.(rows := rows))
  {
    var s' := s.(rows := rows);
    forall id | id in rows
      ensures RowMatches(s', id)
    {
      assert RowMatches(s, id);
    }
    forall k | 0 <= k < |s'.requests|
      ensures RequestIsSound(s', k)
    {
      assert RequestIsSound(s, k);
    }
  }

  lemma ClearIsSound(s: State, r: nat, id: Id)
    requires Sound(s) && r < |s.requests| && s.requests[r].phase == Clearing(id)
    ensures Sound(DoClear(s, r, id))
  {
    assert RequestIsSound(s, r);
    if id in s.rows {
      RemovalIsSound(s, s.rows - {id});
      PhaseChangeIsSound(s.(rows := s.rows - {id}), DoClear(s, r, id), r);
    } else {
      PhaseChangeIsSound(s, DoClear(s, r, id), r);
    }
  }

  lemma PurgeIsSound(s: State, now: int)
    requires Sound(s) && now <= s.clock
    ensures Sound(DoPurge(s, now))
    ensures forall id :: id in DoPurge(s, now).rows <==> id in s.rows && s.rows[id].expiresAt >= now
    ensures forall id | id in DoPurge(s, now).rows :: DoPurge(s, now).rows[id] == s.rows[id]
  {
    forall id | id in s.rows
      ensures RowMatches(s, id)
    {
    }
    RemovalIsSound(s, DoPurge(s, now).rows);
  }

  /** The handler of a claim succeeds or fails: only its own claim is settled. */
  lemma SettleIsSound(s: State, r: nat, id: Id, outcome: Outcome, phase: Phase)
    requires Sound(s) && r < |s.requests| && s.requests[r].phase == Running(id)
    requires (outcome.Succeeded? && phase == Remembering(id, outcome.response)) || (outcome.Failed? && phase == Releasing(id))
    ensures Sound(To(Settled(s, id, outcome), r, phase))
  {
    var s' := To(Settled(s, id, outcome), r, phase);
    assert RequestIsSound(s, r);
    forall k | 0 <= k < |s'.requests|
      ensures RequestIsSound(s', k)
    {
      SettleKeepsRequest(s, r, id, outcome, phase, k);
    }
    forall i | i in s'.rows
      ensures RowMatches(s', i)
    {
      assert RowMatches(s, i);
    }
  }

  lemma SettleKeepsRequest(s: State, r: nat, id: Id, outcome: Outcome, phase: Phase, k: nat)
    requires Sound(s) && r < |s.requests| && k < |s.requests| && s.requests[r].phase == Running(id)
    requires (outcome.Succeeded? && phase == Remembering(id, outcome.response)) || (outcome.Failed? && phase == Releasing(id))
    ensures RequestIsSound(To(Settled(s, id, outcome), r, phase), k)
  {
    assert RequestIsSound(s, r) && RequestIsSound(s, k);
  }

  lemma RememberIsSound(s: State, r: nat, id: Id, response: Response)
    requires Sound(s) && r < |s.requests| && s.requests[r].phase == Remembering(id, response)
    ensures Sound(s.(rows := Remembered(s.rows, id, response)))
  {
    var s' := s.(rows := Remembered(s.rows, id, response));
    assert RequestIsSound(s, r);
    forall k | 0 <= k < |s'.requests|
      ensures RequestIsSound(s', k)
    {
      assert RequestIsSound(s, k);
    }
    forall i | i in s'.rows
      ensures RowMatches(s', i)
    {
      assert RowMatches(s, i);
    }
  }

  lemma AnswerIsSound(s: State, r: nat, answer: Answer)
    requires Sound(s) && r < |s.requests| && !answer.Replay?
    requires answer.Handled? ==> s.requests[r].phase == Remembering(answer.source, answer.response)
    ensures Sound(To(s, r, Answered(answer)))
  {
    assert RequestIsSound(s, r);
    PhaseChangeIsSound(s, To(s, r, Answered(answer)), r);
  }

  lemma ReleaseIsSound(s: State, r: nat, id: Id)
    requires Sound(s) && r < |s.requests| && s.requests[r].phase == Releasing(id)
    ensures Sound(s.(rows := s.rows - {id}))
  {
    assert RequestIsSound(s, r);
    RemovalIsSound(s, s.rows - {id});
  }

  lemma MoveIsSound(s: State, r: nat, move: Move)
    requires Sound(s) && r < |s.requests|
    ensures Sound(Moved(s, r, move))
  {
    var phase := s.requests[r].phase;
    match move
    case Insert =>
      if phase.Inserting? {
        InsertIsSound(s, r);
      }
    case Look =>
      if phase.Looking? {
        LookIsSound(s, r);
      }
    case Clear =>
      if phase.Clearing? {
        ClearIsSound(s, r, phase.id);
      }
    case Succeed(response) =>
      if phase.Running? {
        SettleIsSound(s, r, phase.id, Succeeded(response), Remembering(phase.id, response));
      }
    case Fail =>
      if phase.Running? {
        SettleIsSound(s, r, phase.id, Failed, Releasing(phase.id));
      }
    case Remember(lost) =>
      if phase.Remembering? {
        RememberIsSound(s, r, phase.id, phase.response);
        AnswerIsSound(if lost then s else s.(rows := Remembered(s.rows, phase.id, phase.response)), r,
                      Handled(phase.response, phase.id));
      }
    case Release(lost) =>
      if phase.Releasing? {
        ReleaseIsSound(s, r, phase.id);
        AnswerIsSound(if lost then s else s.(rows := s.rows - {phase.id}), r, Error);
      }
    case Break =>
      AnswerIsSound(s, r, Error);
    case Die =>
      assert RequestIsSound(s, r);
      PhaseChangeIsSound(s, To(s, r, Dead), r);
  }

  lemma StepIsSound(s: State, a: Action)
    requires Sound(s)
    ensures Sound(Step(s, a))
  {
    match a
    case Tick(_) =>
      QuietStepIsSound(s, a);
    case Arrive(_, _) =>
      QuietStepIsSound(s, a);
    case Purge(now) =>
      if now <= s.clock {
        PurgeIsSound(s, now);
      }
    case Of(r, move) =>
      if r < |s.requests| {
        MoveIsSound(s, r, move);
      }
  }

  lemma QuietStepIsSound(s: State, a: Action)
    requires Sound(s) && (a.Tick? || a.Arrive?)
    ensures Sound(Step(s, a))
  {
    var s' := Step(s, a);
    forall k | 0 <= k < |s'.requests|
      ensures RequestIsSound(s', k)
    {
      assert k < |s.requests| ==> RequestIsSound(s, k);
    }
    forall i | i in s'.rows
      ensures RowMatches(s', i)
    {
      assert RowMatches(s, i);
    }
  }

  lemma {:induction false} RunIsSound(clock: int, actions: seq<Action>)
    ensures Sound(Run(Initial(clock), actions))
  {
    if actions != [] {
      RunIsSound(clock, actions[..|actions| - 1]);
      StepIsSound(Run(Initial(clock), actions[..|actions| - 1]), actions[|actions| - 1]);
    }
  }

  // ---- What callers rely on --------------------------------------------------------------------

  /**
   * In every run: of two claims of one scope, unless the handler of the earlier one failed, the later
   * was made only once the earlier had expired, a day after its request arrived.
   */
  lemma ExecutionsAreAnExpiryApart(clock: int, actions: seq<Action>, i: Id, k: Id)
    requires var log := Run(Initial(clock), actions).log; i < k < |log| && log[i].scope == log[k].scope
    ensures var s := Run(Initial(clock), actions);
            && (s.log[i].outcome.Failed? || s.log[i].expiresAt <= s.log[k].insertedAt)
            && s.log[i].owner < |s.requests| && s.log[i].expiresAt == s.requests[s.log[i].owner].now + 86_400_000
            && s.log[i].owner != s.log[k].owner
  {
    RunIsSound(clock, actions);
  }

  /** No two handlers under one scope are running at once while the earlier claim is in force. */
  lemma NoParallelRuns(clock: int, actions: seq<Action>, p: nat, q: nat)
    requires var s := Run(Initial(clock), actions);
             && p < |s.requests| && q < |s.requests| && p != q && s.requests[p].scope == s.requests[q].scope
             && s.requests[p].phase.Running? && s.requests[q].phase.Running?
    ensures var s := Run(Initial(clock), actions);
            s.requests[p].now + 86_400_000 <= s.clock || s.requests[q].now + 86_400_000 <= s.clock
  {
    RunIsSound(clock, actions);
    var s := Run(Initial(clock), actions);
    assert RequestIsSound(s, p) && RequestIsSound(s, q);
    var i, k := s.requests[p].phase.id, s.requests[q].phase.id;
    assert s.log[i].owner == p && s.log[k].owner == q;
  }

  /** The same status, and the same body; a body that is undefined comes back as null. */
  ghost predicate Repeats(replayed: Response, given: Response) {
    replayed.status == given.status && replayed.body == if given.body.Undefined? then Null else given.body
  }

  /** A replay is the stored response of a completed execution of the same body, member order aside. */
  lemma ReplayIsFaithful(clock: int, actions: seq<Action>, r: nat)
    requires var s := Run(Initial(clock), actions);
             && r < |s.requests| && s.requests[r].phase.Answered? && s.requests[r].phase.answer.Replay?
             && forall k | 0 <= k < |s.requests| :: Value(s.requests[k].body)
    ensures var s := Run(Initial(clock), actions);
            var a := s.requests[r].phase.answer;
            && a.source < |s.log| && s.log[a.source].outcome.Succeeded?
            && Repeats(a.response, s.log[a.source].outcome.response)
            && s.log[a.source].scope == s.requests[r].scope
            && Value(s.log[a.source].body) && Same(Settle(s.log[a.source].body), Settle(s.requests[r].body))
  {
    RunIsSound(clock, actions);
    var s := Run(Initial(clock), actions);
    assert RequestIsSound(s, r);
    SameFingerprintIffSameBody(s.log[s.requests[r].phase.answer.source].body, s.requests[r].body);
  }

  /** Whoever is answered by the handler, or by a replay of what it did, is told the same. */
  lemma CallersAreToldTheSame(clock: int, actions: seq<Action>, r: nat, q: nat)
    requires var s := Run(Initial(clock), actions);
             && r < |s.requests| && q < |s.requests|
             && s.requests[r].phase.Answered? && s.requests[r].phase.answer.Handled?
             && s.requests[q].phase.Answered? && s.requests[q].phase.answer.Replay?
             && s.requests[r].phase.answer.source == s.requests[q].phase.answer.source
    ensures var s := Run(Initial(clock), actions);
            && s.requests[q].scope == s.requests[r].scope
            && s.requests[r].phase.answer.source < |s.log| && s.log[s.requests[r].phase.answer.source].owner == r
            && Repeats(s.requests[q].phase.answer.response, s.requests[r].phase.answer.response)
  {
    RunIsSound(clock, actions);
    var s := Run(Initial(clock), actions);
    assert RequestIsSound(s, r) && RequestIsSound(s, q);
  }

  /**
   * Once a response is remembered, a retry of the same body, member order aside, is answered with it
   * while the key lives, and no handler runs.
   */
  lemma RetryIsReplayed(s: State, r: nat, q: nat)
    requires Sound(s) && r < |s.requests| && q < |s.requests| && r != q
    requires s.requests[r].phase.Remembering? && s.requests[r].phase.id in s.rows
    requires s.requests[q].phase.Inserting? && s.requests[q].scope == s.requests[r].scope
    requires Value(s.requests[r].body) && Value(s.requests[q].body)
    requires Same(Settle(s.requests[r].body), Settle(s.requests[q].body))
    requires s.requests[q].now < s.requests[r].now + 86_400_000
    ensures var s' := Moved(Moved(Moved(s, r, Remember(false)), q, Insert), q, Look);
            && s'.log == s.log
            && s'.requests[r].phase == Answered(Handled(s.requests[r].phase.response, s.requests[r].phase.id))
            && s'.requests[q].phase.Answered? && s'.requests[q].phase.answer.Replay?
            && Repeats(s'.requests[q].phase.answer.response, s.requests[r].phase.response)
  {
    var id := s.requests[r].phase.id;
    assert RequestIsSound(s, r) && RowMatches(s, id);
    SameFingerprintIffSameBody(s.requests[r].body, s.requests[q].body);
    MoveIsSound(s, r, Remember(false));
    MemoIsFound(Moved(s, r, Remember(false)), q, id);
  }

  /** A retry of the same key with another body is refused while the key lives, and no handler runs. */
  lemma OtherBodyConflicts(s: State, q: nat, id: Id)
    requires Sound(s) && q < |s.requests| && s.requests[q].phase.Inserting?
    requires id in s.rows && s.rows[id].scope == s.requests[q].scope && s.requests[q].now < s.rows[id].expiresAt
    requires id < |s.log| && Value(s.log[id].body) && Value(s.requests[q].body)
    requires !Same(Settle(s.log[id].body), Settle(s.requests[q].body))
    ensures Moved(Moved(s, q, Insert), q, Look) == To(s, q, Answered(Conflict))
  {
    assert RowMatches(s, id);
    SameFingerprintIffSameBody(s.log[id].body, s.requests[q].body);
    var looking := To(s, q, Looking);
    assert Moved(s, q, Insert) == looking;
    OneHolder(looking.rows, id, s.requests[q].scope);
  }

  lemma MemoIsFound(s: State, q: nat, id: Id)
    requires UniqueScopes(s.rows) && q < |s.requests| && s.requests[q].phase.Inserting?
    requires id in s.rows && s.rows[id].scope == s.requests[q].scope && s.rows[id].response.Some?
    requires s.rows[id].hash == HashBody(s.requests[q].body) && s.requests[q].now < s.rows[id].expiresAt
    ensures Moved(Moved(s, q, Insert), q, Look) == To(s, q, Answered(Answer.Replay(s.rows[id].response.value, id)))
  {
    assert !Free(s.rows, s.requests[q].scope);
    var looking := To(s, q, Looking);
    assert Moved(s, q, Insert) == looking;
    OneHolder(looking.rows, id, s.requests[q].scope);
  }

  /** A remember or release, however late, leaves every row but its own claim's as it is. */
  lemma LateWriteTouchesOwnRow(s: State, r: nat, move: Move, id: Id)
    requires Sound(s) && r < |s.requests| && (move.Remember? || move.Release?)
    ensures var s' := Moved(s, r, move);
            && s'.rows.Keys <= s.rows.Keys
            && (id in s.rows ==>
                  id < |s.log| && (s.log[id].owner != r ==> id in s'.rows && s'.rows[id] == s.rows[id]))
  {
    assert RequestIsSound(s, r);
    if id in s.rows {
      assert RowMatches(s, id);
    }
  }

  /** A request that failed frees its scope, if its row is still there to be freed. */
  lemma FailureDoesNotBurnTheKey(s: State, r: nat)
    requires Sound(s) && r < |s.requests| && s.requests[r].phase.Releasing? && s.requests[r].phase.id in s.rows
    ensures Free(Moved(s, r, Release(false)).rows, s.requests[r].scope)
  {
    assert RequestIsSound(s, r);
    assert RowMatches(s, s.requests[r].phase.id);
  }

  /**
   * When the memo of a success is lost, a retry is answered "in progress" until the key expires:
   * it is not run a second time.
   */
  lemma LostMemoKeepsTheKeyBusy(s: State, r: nat, id: Id)
    requires Sound(s) && r < |s.requests| && s.requests[r].phase.Looking?
    requires id in s.rows && s.rows[id].response.None? && s.rows[id].scope == s.requests[r].scope
    requires s.rows[id].hash == HashBody(s.requests[r].body) && s.requests[r].now < s.rows[id].expiresAt
    ensures Moved(s, r, Look) == To(s, r, Answered(Busy))
  {
    OneHolder(s.rows, id, s.requests[r].scope);
  }

  lemma OneHolder(t: Table, id: Id, scope: Scope)
    requires UniqueScopes(t) && Holds(t, id, scope)
    ensures Holder(t, scope) == Some(id)
  {
    assert t[id].scope == scope;
    var holder := Holder(t, scope);
    assert holder.Some?;
    assert t[holder.value].scope == t[id].scope;
  }

  /** The moves of a claim that nothing else comes between. */
  ghost function Undisturbed(s: State, r: nat): State
    requires r < |s.requests|
  {
    Moved(Moved(Moved(Moved(s, r, Insert), r, Look), r, Clear), r, Insert)
  }

  /** Undisturbed, a claim takes a scope that is free or expired, and otherwise reports its holder. */
  lemma UndisturbedClaim(s: State, r: nat)
    requires Sound(s) && r < |s.requests| && s.requests[r].phase.Inserting?
    ensures var q := s.requests[r];
            var holder := Holder(s.rows, q.scope);
            var s' := Undisturbed(s, r);
            if holder.None? || s.rows[holder.value].expiresAt <= q.now then
              && s'.requests[r].phase == Running(|s.log|) && |s'.log| == |s.log| + 1
              && s'.rows == (if holder.None? then s.rows else s.rows - {holder.value})[|s.log| := NewRow(q.scope, HashBody(q.body), q.now)]
            else
              && s'.rows == s.rows && s'.log == s.log
              && s'.requests[r].phase == Answered(
                   if s.rows[holder.value].hash != HashBody(q.body) then Conflict
                   else match s.rows[holder.value].response
                        case None => Busy
                        case Some(response) => Answer.Replay(response, holder.value))
  {
    var q := s.requests[r];
    var holder := Holder(s.rows, q.scope);
    if holder.Some? {
      var id := holder.value;
      assert !Free(s.rows, q.scope);
      var looking := Moved(s, r, Insert);
      OneHolder(looking.rows, id, q.scope);
      if s.rows[id].expiresAt <= q.now {
        assert Moved(looking, r, Look).requests[r].phase == Clearing(id);
        assert Free(s.rows - {id}, q.scope);
      }
    }
  }
}

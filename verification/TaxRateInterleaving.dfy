/**
 * Overlapping calls that add tax rates. Each looks for a duplicate, then for the open row of its code,
 * and closes that row and adds its own in a later transaction, whatever was written in between.
 */
module TaxRateInterleaving {
  import opened Options
  import opened TaxRates

  /** What a call takes into its transaction: the row it found open. */
  datatype Plan = Plan(dto: NewRate, current: Option<nat>)

  function RowOf(dto: NewRate): Rate {
    Rate(dto.code, dto.gst, dto.cess, dto.from, None)
  }

  /** The second read, after the one that looks for a duplicate. */
  function Read(t: seq<Rate>, dto: NewRate): Result<Plan, Outcome> {
    var current := OpenIndex(t, dto.code);
    if current.Some? && t[current.value].from >= dto.from then Err(Conflict) else Ok(Plan(dto, current))
  }

  function WithClosed(t: seq<Rate>, plan: Plan): seq<Rate> {
    if plan.current.Some? && plan.current.value < |t|
    then t[plan.current.value := Closed(t[plan.current.value], plan.dto.from)]
    else t
  }

  /**
   * The transaction. Two unique indexes can roll it back: one row for a code and a start, and one open
   * row for a code.
   */
  function Write(t: seq<Rate>, plan: Plan): (seq<Rate>, Outcome) {
    var u := WithClosed(t, plan);
    if HasStart(t, plan.dto.code, plan.dto.from) || OpenIndex(u, plan.dto.code).Some? then (t, UniqueViolation)
    else (u + [RowOf(plan.dto)], Created)
  }

  /** The whole call: the table as it is at the first read, at the second, and at the transaction. */
  function Call(atCheck: seq<Rate>, atRead: seq<Rate>, atWrite: seq<Rate>, dto: NewRate): (seq<Rate>, Outcome) {
    if HasStart(atCheck, dto.code, dto.from) then (atCheck, AlreadyExists)
    else
      match Read(atRead, dto)
      case Err(outcome) => (atRead, outcome)
      case Ok(plan) => Write(atWrite, plan)
  }

  // ---- What is known of a plan later on -------------------------------------------------

  /** What calls do to the table: rows keep their place, code and start, and new ones come after them. */
  ghost predicate Follows(t: seq<Rate>, later: seq<Rate>) {
    |t| <= |later| && forall i | 0 <= i < |t| :: later[i].code == t[i].code && later[i].from == t[i].from
  }

  /** The row found open is one that this rate may supersede, whether or not it is open still. */
  ghost predicate PlanIsSound(t: seq<Rate>, plan: Plan) {
    plan.current.Some? ==>
      && plan.current.value < |t|
      && t[plan.current.value].code == plan.dto.code && t[plan.current.value].from < plan.dto.from
  }

  lemma ReadPlanIsSound(t: seq<Rate>, dto: NewRate)
    requires Read(t, dto).Ok?
    ensures PlanIsSound(t, Read(t, dto).value)
  {
  }

  lemma PlanStaysSound(t: seq<Rate>, later: seq<Rate>, plan: Plan)
    requires PlanIsSound(t, plan) && Follows(t, later)
    ensures PlanIsSound(later, plan)
  {
  }

  lemma WriteFollows(t: seq<Rate>, plan: Plan)
    ensures Follows(t, Write(t, plan).0)
  {
  }

  lemma {:induction false} OpenIsFound(t: seq<Rate>, i: nat, code: string)
    requires i < |t| && Open(t[i], code)
    ensures OpenIndex(t, code).Some?
  {
    var n := |t| - 1;
    if i < n {
      OpenIsFound(t[..n], i, code);
    }
  }

  /** With the row that was read as open closed, a row of the code is open exactly if another one was. */
  lemma OthersOpenIffMoved(t: seq<Rate>, plan: Plan)
    requires ValidTable(t) && PlanIsSound(t, plan)
    ensures OpenIndex(WithClosed(t, plan), plan.dto.code).None? <==> OpenIndex(t, plan.dto.code) == plan.current
  {
    var code, u := plan.dto.code, WithClosed(t, plan);
    assert Timeline(OfCode(t, code));
    if OpenIndex(t, code) == plan.current {
      if plan.current.Some? {
        ClosingLeavesNoneOpen(t, code, plan.dto.from);
      }
    } else {
      OpenRowIsLast(t, code, RowOf(plan.dto));
      if plan.current.Some? {
        InOfCode(t, plan.current.value);
      }
      OpenIsFound(u, OpenIndex(t, code).value, code);
    }
  }

  lemma ClosingLeavesNoneOpen(t: seq<Rate>, code: string, newFrom: int)
    requires Timeline(OfCode(t, code)) && OpenIndex(t, code).Some?
    ensures var i := OpenIndex(t, code).value; OpenIndex(t[i := Closed(t[i], newFrom)], code).None?
  {
    var i, s := OpenIndex(t, code).value, OfCode(t, code);
    var closed := Closed(t[i], newFrom);
    OpenRowIsLast(t, code, closed);
    var front, last := s[..|s| - 1], s[|s| - 1];
    assert s == front + [last] && s[|s| - 1 := closed] == front + [closed];
    EarlierRowsClosed(front, last);
    assert OfCode(t[i := closed], code) == front + [closed];
    forall r | r in front + [closed]
      ensures r.until.Some?
    {
      assert r in front || r == closed;
    }
    NoneOpen(t[i := closed], code);
  }

  // ---- A transaction is a call done at once, or nothing -------------------------------------------

  /**
   * On a valid table a transaction either does at that moment what an undisturbed call would, or is
   * refused and changes nothing; it is refused exactly when the start is taken or the open row of the
   * code is not the one its call read. Closing never ends a row before it starts.
   */
  lemma WriteIsCreateOrRefused(t: seq<Rate>, plan: Plan)
    requires ValidTable(t) && PlanIsSound(t, plan)
    ensures Write(t, plan).1 == Created ==> Write(t, plan) == Create(t, plan.dto)
    ensures Write(t, plan).1 != Created ==> Write(t, plan) == (t, UniqueViolation)
    ensures Write(t, plan).1 == Created
            <==> !HasStart(t, plan.dto.code, plan.dto.from) && OpenIndex(t, plan.dto.code) == plan.current
    ensures plan.current.Some? ==>
              var row := Closed(t[plan.current.value], plan.dto.from); row.until.Some? && row.from <= row.until.value
    ensures ValidTable(Write(t, plan).0)
  {
    OthersOpenIffMoved(t, plan);
    CreateKeepsTimelines(t, plan.dto);
  }

  /** With nothing in between, the three steps are the one step the call is in `TaxRates`. */
  lemma UndisturbedCallIsAtomic(t: seq<Rate>, dto: NewRate)
    requires ValidTable(t)
    ensures Call(t, t, t, dto) == Create(t, dto)
  {
    if !HasStart(t, dto.code, dto.from) && Read(t, dto).Ok? {
      ReadPlanIsSound(t, dto);
      WriteIsCreateOrRefused(t, Read(t, dto).value);
    }
  }

  // ---- The table --------------------------------------------------------------------------------

  class TaxRateTable {
    var rows: seq<Rate>

    ghost predicate Valid()
      reads this
    {
      ValidTable(rows)
    }

    constructor ()
      ensures Valid() && rows == []
    {
      rows := [];
    }

    /**
     * `createTaxRate`. While it waits for its second read and for its transaction, other calls leave the
     * table as `atRead` and `atWrite`; at its end `rows` is the table as the call last saw or left it.
     */
    method CreateTaxRate(dto: NewRate, atRead: seq<Rate>, atWrite: seq<Rate>) returns (outcome: Outcome)
      requires Valid() && ValidTable(atRead) && ValidTable(atWrite) && Follows(rows, atRead) && Follows(atRead, atWrite)
      modifies this
      ensures Valid()
      ensures (rows, outcome) == Call(old(rows), atRead, atWrite, dto)
      ensures outcome == Created ==> (rows, outcome) == Create(atWrite, dto)
      ensures outcome == Created ==> forall i | 0 <= i < |atWrite| && atWrite[i].code == dto.code :: atWrite[i].from < dto.from
      ensures outcome == AlreadyExists <==>
                exists i | 0 <= i < |old(rows)| :: old(rows)[i].code == dto.code && old(rows)[i].from == dto.from
      ensures outcome == Conflict ==> exists i | 0 <= i < |atRead| :: atRead[i].code == dto.code && atRead[i].from >= dto.from
      ensures outcome in {Conflict, UniqueViolation} ==> rows in {atRead, atWrite}
      ensures atRead == old(rows) && atWrite == old(rows) ==> (rows, outcome) == Create(old(rows), dto)
    {
      UndisturbedCallIsAtomic(rows, dto);
      CreateAcceptsLaterStarts(atWrite, dto);
      if HasStart(rows, dto.code, dto.from) {
        return AlreadyExists;
      }
      rows := atRead;
      var current := OpenIndex(rows, dto.code);
      if current.Some? && rows[current.value].from >= dto.from {
        return Conflict;
      }
      ReadPlanIsSound(atRead, dto);
      PlanStaysSound(atRead, atWrite, Plan(dto, current));
      WriteIsCreateOrRefused(atWrite, Plan(dto, current));
      rows := atWrite;
      if current.Some? {
        rows := rows[current.value := rows[current.value].(until := Some(dto.from - 1))];
      }
      if HasStart(atWrite, dto.code, dto.from) || OpenIndex(rows, dto.code).Some? {
        rows := atWrite;
        return UniqueViolation;
      }
      rows := rows + [Rate(dto.code, dto.gst, dto.cess, dto.from, None)];
      outcome := Created;
    }
  }

  // ---- Any interleaving ---------------------------------------------------------------

  datatype State = State(table: seq<Rate>, checked: seq<NewRate>, plans: seq<Plan>)

  /** A call's first read, the second read of one that passed it, the transaction of one that passed both. */
  datatype Event = Checking(dto: NewRate) | Reading(k: nat) | Writing(k: nat)

  const EMPTY := State([], [], [])

  function Next(s: State, e: Event): State {
    match e
    case Checking(dto) => if HasStart(s.table, dto.code, dto.from) then s else s.(checked := s.checked + [dto])
    case Reading(k) =>
      if k < |s.checked| && Read(s.table, s.checked[k]).Ok?
      then s.(plans := s.plans + [Read(s.table, s.checked[k]).value])
      else s
    case Writing(k) => if k < |s.plans| then s.(table := Write(s.table, s.plans[k]).0) else s
  }

  function After(events: seq<Event>): State {
    if events == [] then EMPTY else Next(After(events[..|events| - 1]), events[|events| - 1])
  }

  /** The rates whose transactions went through, in that order. */
  function Committed(events: seq<Event>): seq<NewRate> {
    if events == [] then []
    else
      var s, e := After(events[..|events| - 1]), events[|events| - 1];
      Committed(events[..|events| - 1])
      + if e.Writing? && e.k < |s.plans| && Write(s.table, s.plans[e.k]).1 == Created then [s.plans[e.k].dto] else []
  }

  ghost predicate Sound(s: State) {
    ValidTable(s.table) && forall k | 0 <= k < |s.plans| :: PlanIsSound(s.table, s.plans[k])
  }

  lemma NextIsSound(s: State, e: Event)
    requires Sound(s)
    ensures Sound(Next(s, e)) && Follows(s.table, Next(s, e).table)
  {
    if e.Reading? && e.k < |s.checked| && Read(s.table, s.checked[e.k]).Ok? {
      ReadPlanIsSound(s.table, s.checked[e.k]);
    } else if e.Writing? && e.k < |s.plans| {
      WriteIsCreateOrRefused(s.table, s.plans[e.k]);
      WriteFollows(s.table, s.plans[e.k]);
      forall k | 0 <= k < |s.plans|
        ensures PlanIsSound(Write(s.table, s.plans[e.k]).0, s.plans[k])
      {
        PlanStaysSound(s.table, Write(s.table, s.plans[e.k]).0, s.plans[k]);
      }
    }
  }

  /** From an empty table, however calls overlap, every code has its timeline at every moment. */
  lemma {:induction false} InterleavingKeepsTimelines(events: seq<Event>)
    ensures Sound(After(events)) && ValidTable(After(events).table)
  {
    if events != [] {
      InterleavingKeepsTimelines(events[..|events| - 1]);
      NextIsSound(After(events[..|events| - 1]), events[|events| - 1]);
    }
  }

  lemma {:induction false} RunOneMore(t: seq<Rate>, calls: seq<NewRate>, last: NewRate)
    ensures Run(t, calls + [last]) == Create(Run(t, calls), last).0
    decreases |calls|
  {
    if calls == [] {
      assert [] + [last] == [last] && [last][1..] == [];
    } else {
      assert (calls + [last])[0] == calls[0] && (calls + [last])[1..] == calls[1..] + [last];
      RunOneMore(Create(t, calls[0]).0, calls[1..], last);
    }
  }

  /**
   * However calls overlap, the table is the one that whole calls leave, one after the other in the order
   * in which their transactions went through.
   */
  lemma {:induction false} InterleavingIsARunOfCalls(events: seq<Event>)
    ensures After(events).table == Run([], Committed(events))
  {
    if events != [] {
      var front, last := events[..|events| - 1], events[|events| - 1];
      InterleavingIsARunOfCalls(front);
      InterleavingKeepsTimelines(front);
      var s := After(front);
      assert Committed(front) + [] == Committed(front);
      if last.Writing? && last.k < |s.plans| {
        WriteIsCreateOrRefused(s.table, s.plans[last.k]);
        RunOneMore([], Committed(front), s.plans[last.k].dto);
      }
    }
  }

  /** However calls overlap, every date from a code's first start on resolves to exactly one row. */
  lemma EveryDateResolvesOnceThroughout(events: seq<Event>, code: string, on: int)
    ensures var t := After(events).table;
            var s := OfCode(t, code);
            |Lookup(t, code, on)| == if s != [] && on >= s[0].from then 1 else 0
  {
    InterleavingIsARunOfCalls(events);
    EveryDateResolvesOnce(Committed(events), code, on);
  }

  /**
   * However calls overlap, a step changes what a date resolves to only by a transaction that goes
   * through, for its own code and dates from its start on; those it then decides.
   */
  lemma PastIsNeverChangedThroughout(events: seq<Event>, e: Event, code: string, on: int)
    ensures var s := After(events);
            var t, t' := s.table, Next(s, e).table;
            if e.Writing? && e.k < |s.plans| && Write(t, s.plans[e.k]).1 == Created
               && code == s.plans[e.k].dto.code && on >= s.plans[e.k].dto.from
            then Lookup(t', code, on) == [RowOf(s.plans[e.k].dto)]
            else |Lookup(t', code, on)| == |Lookup(t, code, on)| <= 1
                 && (Lookup(t, code, on) != [] ==> SameRate(Lookup(t, code, on)[0], Lookup(t', code, on)[0]))
  {
    InterleavingKeepsTimelines(events);
    var s := After(events);
    assert Timeline(OfCode(s.table, code));
    AtMostOne(OfCode(s.table, code), on);
    if e.Writing? && e.k < |s.plans| {
      WriteIsCreateOrRefused(s.table, s.plans[e.k]);
      if Write(s.table, s.plans[e.k]).1 == Created {
        PastIsNeverChanged(s.table, s.plans[e.k].dto, code, on);
      }
    }
  }

  /** Of two calls for one code that both read before either wrote, the later transaction is refused. */
  lemma LaterOverlappingCallIsRefused(t: seq<Rate>, a: NewRate, b: NewRate)
    requires ValidTable(t) && a.code == b.code && Read(t, a).Ok? && Read(t, b).Ok?
    requires !HasStart(t, a.code, a.from)
    ensures var t1 := Write(t, Read(t, a).value).0;
            && t1 == Create(t, a).0 && Write(t, Read(t, a).value).1 == Created
            && Write(t1, Read(t, b).value) == (t1, UniqueViolation)
  {
    var first, second := Read(t, a).value, Read(t, b).value;
    ReadPlanIsSound(t, a);
    ReadPlanIsSound(t, b);
    WriteIsCreateOrRefused(t, first);
    WriteFollows(t, first);
    var t1 := Write(t, first).0;
    PlanStaysSound(t, t1, second);
    WriteIsCreateOrRefused(t1, second);
    NewRowIsOpen(WithClosed(t, first), RowOf(a));
  }

  lemma NewRowIsOpen(u: seq<Rate>, row: Rate)
    requires OpenIndex(u, row.code).None? && row.until.None?
    ensures OpenIndex(u + [row], row.code) == Some(|u|)
  {
    assert (u + [row])[..|u|] == u;
  }
}

/**
 * The backup run of one entity: export page by page into a staging sheet, guard, swap. At any
 * outside call it may throw, or the process die, before, half-way through or after taking effect.
 */
module Backup {
  import opened Options
  import opened Text
  import opened Keyset

  type Row = seq<string>

  /** The exported table: id and mapped row, read in id order. */
  type Table = seq<Entry<string, Row>>

  const BY_ID: (string, string) -> bool := (a, b) => Less(a, b)

  lemma ByIdIsStrictOrder()
    ensures StrictOrder(BY_ID)
  {
    forall a: string
      ensures !Less(a, a)
    {
      LessIsIrreflexive(a);
    }
    forall a: string, b: string, c: string | Less(a, b) && Less(b, c)
      ensures Less(a, c)
    {
      LessIsTransitive(a, b, c);
    }
    forall a: string, b: string
      ensures a == b || Less(a, b) || Less(b, a)
    {
      LessIsTotal(a, b);
    }
  }

  function Rows(page: Table): seq<Row> {
    seq(|page|, i requires 0 <= i < |page| => page[i].row)
  }

  /** The pages of a run from query `i` on: stop at the first empty page. */
  ghost function Export(tables: seq<Table>, i: nat, cursor: Option<string>, take: nat): Table
    requires take >= 1 && AllAscending(tables, BY_ID)
    decreases if i < |tables| then |tables| - i else 0, |After(At(tables, i), cursor, BY_ID)|
  {
    var page := Page(At(tables, i), cursor, take, BY_ID);
    if page == [] then []
    else
      CursorAdvances(At(tables, i), cursor, take);
      page + Export(tables, i + 1, Some(page[|page| - 1].key), take)
  }

  lemma CursorAdvances(table: Table, cursor: Option<string>, take: nat)
    requires take >= 1 && Ascending(table, BY_ID) && Page(table, cursor, take, BY_ID) != []
    ensures var all, page := After(table, cursor, BY_ID), Page(table, cursor, take, BY_ID);
            && page == all[..|page|]
            && After(table, Some(page[|page| - 1].key), BY_ID) == all[|page|..]
  {
    ByIdIsStrictOrder();
    AfterLastTaken(table, cursor, |Page(table, cursor, take, BY_ID)|, BY_ID);
  }

  /**
   * The export of a table that changes between pages: strictly increasing ids, only rows that
   * were really there, and every id present throughout the run.
   */
  lemma {:induction false} ExportIsComplete(tables: seq<Table>, i: nat, cursor: Option<string>, take: nat)
    requires take >= 1 && AllAscending(tables, BY_ID)
    ensures Complete(Export(tables, i, cursor, take), tables, i, cursor, BY_ID)
    decreases if i < |tables| then |tables| - i else 0, |After(At(tables, i), cursor, BY_ID)|
  {
    ByIdIsStrictOrder();
    var table := At(tables, i);
    var page := Page(table, cursor, take, BY_ID);
    assert Ascending(table, BY_ID);
    if page == [] {
      LastPageCompletes(tables, i, cursor, take, BY_ID);
    } else {
      CursorAdvances(table, cursor, take);
      ExportIsComplete(tables, i + 1, Some(page[|page| - 1].key), take);
      PageThenRest(tables, i, cursor, take, Export(tables, i + 1, Some(page[|page| - 1].key), take), BY_ID);
    }
  }

  lemma {:induction false} ExportUnchangedFrom(table: Table, i: nat, cursor: Option<string>, take: nat)
    requires take >= 1 && AllAscending([table], BY_ID)
    ensures Export([table], i, cursor, take) == After(table, cursor, BY_ID)
    decreases if i < 1 then 1 - i else 0, |After(table, cursor, BY_ID)|
  {
    assert At([table], i) == table;
    var page := Page(table, cursor, take, BY_ID);
    if page != [] {
      var last := Some(page[|page| - 1].key);
      PageAndRest(table, cursor, take);
      ExportUnchangedFrom(table, i + 1, last, take);
    }
  }

  lemma PageAndRest(table: Table, cursor: Option<string>, take: nat)
    requires take >= 1 && Ascending(table, BY_ID) && Page(table, cursor, take, BY_ID) != []
    ensures var all, page := After(table, cursor, BY_ID), Page(table, cursor, take, BY_ID);
            var rest := After(table, Some(page[|page| - 1].key), BY_ID);
            page + rest == all && |rest| < |all|
  {
    CursorAdvances(table, cursor, take);
    PrefixAndRest(After(table, cursor, BY_ID), |Page(table, cursor, take, BY_ID)|);
  }

  /** An unchanged table is exported as it is, whatever the batch size. */
  lemma ExportOfUnchangedTable(table: Table, take: nat)
    requires take >= 1 && Ascending(table, BY_ID)
    ensures AllAscending([table], BY_ID)
    ensures Export([table], 0, None, take) == table
  {
    ExportUnchangedFrom(table, 0, None, take);
    AfterEverything(table, BY_ID);
  }

  // ---- The run -------------------------------------------------------------------

  /** What one outside call does: return, throw, or die with the process. */
  datatype Fault = Works | Throws(effect: Effect) | Dies(effect: Effect)

  /** How much of a call that did not return took effect. */
  datatype Effect = NoEffect | HalfEffect | FullEffect

  datatype Outcome = Success(rows: nat) | Failed(rows: nat) | Threw | Died

  /** How the guarded block ended. */
  datatype Ending = Finished | Thrown | Killed

  function EndingOf(fault: Fault): Ending {
    match fault
    case Works => Finished
    case Throws(_) => Thrown
    case Dies(_) => Killed
  }

  datatype JobStatus = Running | Succeeded | FailedJob

  datatype Entity = Entity(name: string, header: Row)

  /** Everything a run may read: what each page query sees, how many rows were counted, which calls fail. */
  datatype Surroundings = Surroundings(tables: seq<Table>, rowsExpected: nat, fault: nat -> Fault)

  /** Nothing throws and nothing dies. */
  ghost predicate AllWork(s: Surroundings) {
    forall call: nat :: s.fault(call) == Works
  }

  /** There is something to publish: rows, unless none were counted. */
  ghost predicate Publishable(s: Surroundings, take: nat)
    requires take >= 1 && AllAscending(s.tables, BY_ID)
  {
    s.rowsExpected > 0 ==> Export(s.tables, 0, None, take) != []
  }

  function StagingTitle(e: Entity): string {
    e.name + "__staging"
  }

  /** A publishable export: the header and then every page, and not an empty export of a counted table. */
  ghost predicate CompleteExport(content: seq<Row>, e: Entity, s: Surroundings, take: nat)
    requires take >= 1 && AllAscending(s.tables, BY_ID)
  {
    var exported := Export(s.tables, 0, None, take);
    content == [e.header] + Rows(exported) && (s.rowsExpected > 0 ==> exported != [])
  }

  datatype RunStatus = RunSucceeded | RunPartial | RunFailed

  predicate AllReported(outcomes: seq<Outcome>) {
    forall i | 0 <= i < |outcomes| :: outcomes[i].Success? || outcomes[i].Failed?
  }

  function Overall(outcomes: seq<Outcome>): RunStatus {
    if forall i | 0 <= i < |outcomes| :: !outcomes[i].Failed? then RunSucceeded
    else if forall i | 0 <= i < |outcomes| :: outcomes[i].Failed? then RunFailed
    else RunPartial
  }

  function Published(sheets: map<string, seq<Row>>, title: string): Option<seq<Row>> {
    if title in sheets then Some(sheets[title]) else None
  }

  /** The two stores agree on every sheet but one. */
  ghost predicate SameBut(a: map<string, seq<Row>>, b: map<string, seq<Row>>, title: string) {
    forall other | other != title :: Published(a, other) == Published(b, other)
  }

  /** What the export will be, given what has been read and where the cursor stands. */
  ghost function PagesLeft(tables: seq<Table>, i: nat, cursor: Option<string>, take: nat, done: Table): Table
    requires take >= 1 && AllAscending(tables, BY_ID)
  {
    done + Export(tables, i, cursor, take)
  }

  ghost function Unread(tables: seq<Table>, i: nat, cursor: Option<string>): nat
    requires tables != []
  {
    |After(At(tables, i), cursor, BY_ID)|
  }

  /** One page further: what is still to come shrinks by the page. */
  lemma PageConsumed(tables: seq<Table>, i: nat, cursor: Option<string>, take: nat, header: Row, done: Table, page: Table)
    requires take >= 1 && AllAscending(tables, BY_ID)
    requires page == Page(At(tables, i), cursor, take, BY_ID) != []
    ensures PagesLeft(tables, i + 1, Some(page[|page| - 1].key), take, done + page)
            == PagesLeft(tables, i, cursor, take, done)
    ensures i >= |tables| ==> Unread(tables, i + 1, Some(page[|page| - 1].key)) < Unread(tables, i, cursor)
    ensures [header] + Rows(done) + Rows(page) == [header] + Rows(done + page)
  {
    assert Ascending(At(tables, i), BY_ID);
    CursorAdvances(At(tables, i), cursor, take);
    ExportPageByPage(tables, i, cursor, take, page);
    Associates(done, page, Export(tables, i + 1, Some(page[|page| - 1].key), take));
    RowsOfBoth(header, done, page);
  }

  lemma RowsOfBoth(header: Row, done: Table, page: Table)
    ensures [header] + Rows(done) + Rows(page) == [header] + Rows(done + page)
  {
    assert Rows(done + page) == Rows(done) + Rows(page);
    Associates([header], Rows(done), Rows(page));
  }

  lemma ExportPageByPage(tables: seq<Table>, i: nat, cursor: Option<string>, take: nat, page: Table)
    requires take >= 1 && AllAscending(tables, BY_ID)
    requires page == Page(At(tables, i), cursor, take, BY_ID) != []
    ensures Export(tables, i, cursor, take) == page + Export(tables, i + 1, Some(page[|page| - 1].key), take)
  {
  }

  class BackupService {
    const take: nat
    var sheets: map<string, seq<Row>>
    var job: Option<JobStatus>
    /** Outside calls made, and page queries made, in this run. */
    var calls: nat
    var queries: nat

    constructor (take: nat)
      requires take >= 1
      ensures this.take == take && sheets == map[]
    {
      this.take := take;
      sheets := map[];
      job := None;
      calls := 0;
      queries := 0;
    }

    method Call(s: Surroundings) returns (fault: Fault)
      modifies `calls
      ensures fault == s.fault(old(calls))
    {
      fault := s.fault(calls);
      calls := calls + 1;
    }

    /** One sheet operation: `next` is the state it leaves when it takes effect. */
    method SheetCall(s: Surroundings, next: map<string, seq<Row>>, between: map<string, seq<Row>>) returns (ending: Ending)
      modifies `calls, `sheets
      ensures sheets in {old(sheets), between, next}
      ensures ending == Finished ==> sheets == next
      ensures AllWork(s) ==> ending == Finished
    {
      var fault := Call(s);
      if fault.Works? || fault.effect.FullEffect? {
        sheets := next;
      } else if fault.effect.HalfEffect? {
        sheets := between;
      }
      ending := EndingOf(fault);
    }

    method DatabaseCall(s: Surroundings, status: Option<JobStatus>) returns (ending: Ending)
      modifies `calls, `job
      ensures ending == Finished ==> job == status
      ensures AllWork(s) ==> ending == Finished
    {
      var fault := Call(s);
      if fault.Works? || fault.effect.FullEffect? {
        job := status;
      }
      ending := EndingOf(fault);
    }

    method Append(s: Surroundings, title: string, rows: seq<Row>) returns (ending: Ending)
      requires title in sheets
      modifies `calls, `sheets
      ensures sheets == old(sheets) || sheets == old(sheets)[title := old(sheets)[title] + rows]
      ensures ending == Finished ==> sheets == old(sheets)[title := old(sheets)[title] + rows]
      ensures AllWork(s) ==> ending == Finished
    {
      if rows == [] {
        assert sheets[title] + rows == sheets[title];
        return Finished;
      }
      var next := sheets[title := sheets[title] + rows];
      ending := SheetCall(s, next, next);
    }

    /** A fresh staging sheet holding the header. */
    method PrepareStaging(e: Entity, s: Surroundings) returns (ending: Ending)
      modifies `calls, `sheets
      ensures SameBut(sheets, old(sheets), StagingTitle(e))
      ensures ending == Finished ==> StagingTitle(e) in sheets && sheets[StagingTitle(e)] == [e.header]
      ensures AllWork(s) ==> ending == Finished
    {
      var staging := StagingTitle(e);
      var removed := sheets - {staging};
      ending := SheetCall(s, removed, removed);
      if ending != Finished {
        return;
      }
      var ensured := if staging in sheets then sheets else sheets[staging := []];
      ending := SheetCall(s, ensured, ensured);
      if ending != Finished {
        return;
      }
      ending := Append(s, staging, [e.header]);
    }

    /** The guarded block of `runEntity`. */
    method ExportAndSwap(e: Entity, s: Surroundings) returns (ending: Ending, rowsProcessed: nat)
      requires take >= 1 && AllAscending(s.tables, BY_ID)
      modifies `calls, `queries, `sheets, `job
      ensures forall title | title != e.name && title != StagingTitle(e) ::
                Published(sheets, title) == Published(old(sheets), title)
      ensures Published(sheets, e.name) == Published(old(sheets), e.name)
              || (e.name in sheets && CompleteExport(sheets[e.name], e, s, take))
      ensures ending == Finished ==>
                && e.name in sheets && CompleteExport(sheets[e.name], e, s, take)
                && StagingTitle(e) !in sheets
                && rowsProcessed + 1 == |sheets[e.name]| && job == Some(Succeeded)
      ensures AllWork(s) ==> ending == if Publishable(s, take) then Finished else Thrown
    {
      var staging := StagingTitle(e);
      assert staging != e.name;
      rowsProcessed := 0;
      queries := 0;
      ending := PrepareStaging(e, s);
      if ending != Finished {
        return;
      }
      ending, rowsProcessed := ExportPages(e, s);
      if ending != Finished {
        return;
      }
      if s.rowsExpected > 0 && rowsProcessed == 0 {
        return Thrown, rowsProcessed;
      }
      var content := sheets[staging];
      assert CompleteExport(content, e, s, take);
      var between := sheets[e.name := content];
      assert SameBut(between, sheets, e.name) && SameBut(between - {staging}, between, staging);
      ending := SheetCall(s, between - {staging}, between);
      if ending != Finished {
        return;
      }
      ending := DatabaseCall(s, Some(Succeeded));
    }

    /** One turn of the loop: read a page, append it, save a checkpoint. */
    method ExportPage(staging: string, s: Surroundings, cursor: Option<string>) returns (ending: Ending, page: Table)
      requires AllAscending(s.tables, BY_ID) && staging in sheets
      modifies `calls, `queries, `sheets, `job
      ensures sheets == old(sheets) || sheets == old(sheets)[staging := old(sheets)[staging] + Rows(page)]
      ensures ending == Finished ==>
                && page == Page(At(s.tables, old(queries)), cursor, take, BY_ID)
                && queries == old(queries) + (if page == [] then 0 else 1)
                && sheets == old(sheets)[staging := old(sheets)[staging] + Rows(page)]
      ensures AllWork(s) ==> ending == Finished
    {
      page := [];
      var fault := Call(s);
      if fault != Works {
        return EndingOf(fault), [];
      }
      page := Page(At(s.tables, queries), cursor, take, BY_ID);
      ending := Append(s, staging, Rows(page));
      if ending != Finished || page == [] {
        return;
      }
      queries := queries + 1;
      ending := DatabaseCall(s, job);
    }

    /** The same turn, seen from the whole export: `done` has been read before it. */
    method ExportTurn(e: Entity, s: Surroundings, cursor: Option<string>, ghost done: Table)
      returns (ending: Ending, page: Table, next: Option<string>)
      requires take >= 1 && AllAscending(s.tables, BY_ID)
      requires StagingTitle(e) in sheets && sheets[StagingTitle(e)] == [e.header] + Rows(done)
      modifies `calls, `queries, `sheets, `job
      ensures StagingTitle(e) in sheets && SameBut(sheets, old(sheets), StagingTitle(e))
      ensures ending == Finished ==>
                && sheets[StagingTitle(e)] == [e.header] + Rows(done + page)
                && (page == [] ==> PagesLeft(s.tables, old(queries), cursor, take, done) == done)
      ensures ending == Finished && page != [] ==>
                && PagesLeft(s.tables, queries, next, take, done + page) == PagesLeft(s.tables, old(queries), cursor, take, done)
                && queries == old(queries) + 1
                && (old(queries) >= |s.tables| ==> Unread(s.tables, queries, next) < Unread(s.tables, old(queries), cursor))
      ensures AllWork(s) ==> ending == Finished
    {
      ending, page := ExportPage(StagingTitle(e), s, cursor);
      next := cursor;
      if page == [] {
        assert done + [] == done;
      } else if ending == Finished {
        PageConsumed(s.tables, old(queries), cursor, take, e.header, done, page);
        next := Some(page[|page| - 1].key);
      }
    }

    /** The paging loop: stop at the first empty page. */
    method ExportPages(e: Entity, s: Surroundings) returns (ending: Ending, rowsProcessed: nat)
      requires take >= 1 && AllAscending(s.tables, BY_ID)
      requires queries == 0 && StagingTitle(e) in sheets && sheets[StagingTitle(e)] == [e.header]
      modifies `calls, `queries, `sheets, `job
      ensures StagingTitle(e) in sheets && SameBut(sheets, old(sheets), StagingTitle(e))
      ensures ending == Finished ==>
                var exported := Export(s.tables, 0, None, take);
                sheets[StagingTitle(e)] == [e.header] + Rows(exported) && rowsProcessed == |exported|
      ensures AllWork(s) ==> ending == Finished
    {
      var cursor: Option<string> := None;
      ghost var done: Table := [];
      rowsProcessed := 0;
      assert PagesLeft(s.tables, 0, None, take, []) == Export(s.tables, 0, None, take);
      assert [e.header] + Rows(done) == [e.header];
      while true
        invariant StagingTitle(e) in sheets && SameBut(sheets, old(sheets), StagingTitle(e))
        invariant sheets[StagingTitle(e)] == [e.header] + Rows(done) && rowsProcessed == |done|
        invariant PagesLeft(s.tables, queries, cursor, take, done) == Export(s.tables, 0, None, take)
        decreases if queries < |s.tables| then |s.tables| - queries else 0, Unread(s.tables, queries, cursor)
      {
        var page, next;
        ending, page, next := ExportTurn(e, s, cursor, done);
        if ending != Finished {
          return;
        }
        if page == [] {
          assert done + [] == done;
          return;
        }
        done := done + page;
        rowsProcessed := rowsProcessed + |page|;
        cursor := next;
      }
    }

    /** One entity, whatever fails: the published sheet is the old one or a complete new export. */
    method RunEntity(e: Entity, s: Surroundings) returns (outcome: Outcome)
      requires take >= 1 && AllAscending(s.tables, BY_ID)
      modifies `calls, `queries, `sheets, `job
      ensures forall title | title != e.name && title != StagingTitle(e) ::
                Published(sheets, title) == Published(old(sheets), title)
      ensures Published(sheets, e.name) == Published(old(sheets), e.name)
              || (e.name in sheets && CompleteExport(sheets[e.name], e, s, take))
      ensures outcome.Success? ==>
                && e.name in sheets && CompleteExport(sheets[e.name], e, s, take)
                && StagingTitle(e) !in sheets
                && outcome.rows + 1 == |sheets[e.name]| && job == Some(Succeeded)
      ensures outcome.Failed? ==> job == Some(FailedJob)
      ensures AllWork(s) ==> (if Publishable(s, take) then outcome.Success? else outcome.Failed?)
    {
      calls := 0;
      var fault := Call(s);
      if fault != Works {
        return if fault.Dies? then Died else Threw;
      }
      var ending := DatabaseCall(s, Some(Running));
      if ending != Finished {
        return if ending == Killed then Died else Threw;
      }
      var rowsProcessed;
      ending, rowsProcessed := ExportAndSwap(e, s);
      if ending == Finished {
        return Success(rowsProcessed);
      }
      if ending == Killed {
        return Died;
      }
      // The staging copy is binned; a failure to do so is ignored.
      var removed := sheets - {StagingTitle(e)};
      ending := SheetCall(s, removed, removed);
      if ending == Killed {
        return Died;
      }
      ending := DatabaseCall(s, Some(FailedJob));
      if ending != Finished {
        return if ending == Killed then Died else Threw;
      }
      fault := Call(s);
      if fault != Works {
        return if fault.Dies? then Died else Threw;
      }
      outcome := Failed(rowsProcessed);
    }

    /**
     * All entities in turn. A failed entity does not stop the others; only a run that throws
     * out of its own failure handling, or dies, does, and then no status is reported.
     */
    method RunAll(work: seq<(Entity, Surroundings)>) returns (outcomes: seq<Outcome>, status: Option<RunStatus>)
      requires take >= 1 && forall i | 0 <= i < |work| :: AllAscending(work[i].1.tables, BY_ID)
      requires forall i, j | 0 <= i < |work| && 0 <= j < |work| && i != j ::
                 work[i].0.name != work[j].0.name && work[i].0.name != StagingTitle(work[j].0)
      modifies `calls, `queries, `sheets, `job
      ensures forall i | 0 <= i < |work| ::
                || Published(sheets, work[i].0.name) == Published(old(sheets), work[i].0.name)
                || (work[i].0.name in sheets && CompleteExport(sheets[work[i].0.name], work[i].0, work[i].1, take))
      ensures status.Some? <==> |outcomes| == |work| && forall i | 0 <= i < |outcomes| :: outcomes[i].Success? || outcomes[i].Failed?
      ensures status == Some(RunSucceeded) ==> forall i | 0 <= i < |outcomes| :: outcomes[i].Success?
      ensures status == Some(RunFailed) ==> outcomes != [] && forall i | 0 <= i < |outcomes| :: outcomes[i].Failed?
      ensures status == Some(RunPartial) ==>
                && (exists i | 0 <= i < |outcomes| :: outcomes[i].Success?)
                && (exists i | 0 <= i < |outcomes| :: outcomes[i].Failed?)
      ensures |outcomes| <= |work|
      ensures forall i | 0 <= i < |outcomes| && AllWork(work[i].1) ::
                if Publishable(work[i].1, take) then outcomes[i].Success? else outcomes[i].Failed?
      ensures forall i | 0 <= i < |outcomes| && outcomes[i].Success? ::
                i < |work| && work[i].0.name in sheets && CompleteExport(sheets[work[i].0.name], work[i].0, work[i].1, take)
    {
      outcomes := [];
      var i := 0;
      while i < |work|
        invariant 0 <= i == |outcomes| <= |work| && AllReported(outcomes)
        invariant forall k | 0 <= k < |work| ::
                    || Published(sheets, work[k].0.name) == Published(old(sheets), work[k].0.name)
                    || (work[k].0.name in sheets && CompleteExport(sheets[work[k].0.name], work[k].0, work[k].1, take))
        invariant forall k | 0 <= k < i && AllWork(work[k].1) ::
                    if Publishable(work[k].1, take) then outcomes[k].Success? else outcomes[k].Failed?
        invariant forall k | 0 <= k < i && outcomes[k].Success? ::
                    work[k].0.name in sheets && CompleteExport(sheets[work[k].0.name], work[k].0, work[k].1, take)
      {
        var outcome := RunEntity(work[i].0, work[i].1);
        outcomes := outcomes + [outcome];
        if outcome.Threw? || outcome.Died? {
          assert !AllReported(outcomes) by {
            assert outcomes[i] == outcome;
          }
          return outcomes, None;
        }
        i := i + 1;
      }
      status := Some(Overall(outcomes));
    }
  }
}

/** The restore dry run: a three-way diff of a backup sheet against the live table. */
module Restore {
  import opened Numbers
  import opened Options
  import opened Text
  import opened Keyset
  import opened Backup

  const SAMPLE_LIMIT: nat := 20
  const DIFF_PAGE: nat := 1000

  /** A Map: lookups by key, iterated in insertion order. */
  datatype OrderedMap = OrderedMap(keys: seq<string>, values: map<string, Row>)
  {
    function Set(key: string, value: Row): OrderedMap {
      OrderedMap(if key in values then keys else keys + [key], values[key := value])
    }

    ghost predicate Valid() {
      && (forall k :: k in keys <==> k in values)
      && (forall i, j | 0 <= i < j < |keys| :: keys[i] != keys[j])
    }
  }

  const EMPTY := OrderedMap([], map[])

  /** Rows by id; a row whose first cell is absent or empty is skipped, a repeated id keeps the last row. */
  function IndexInto(m: OrderedMap, rows: seq<Row>): OrderedMap
    decreases |rows|
  {
    if rows == [] then m
    else IndexInto(if rows[0] != [] && rows[0][0] != "" then m.Set(rows[0][0], rows[0]) else m, rows[1..])
  }

  function Cell(row: Row, col: nat): string {
    if col < |row| then row[col] else ""
  }

  /** Equal on the first `n` columns, a missing cell counting as empty. */
  predicate SameUpTo(a: Row, b: Row, n: nat) {
    forall col | 0 <= col < n :: Cell(a, col) == Cell(b, col)
  }

  predicate IsMissing(id: string, sheet: OrderedMap, db: OrderedMap) {
    id !in db.values
  }

  predicate IsDiffering(id: string, columns: nat, sheet: OrderedMap, db: OrderedMap) {
    id in sheet.values && id in db.values && !SameUpTo(sheet.values[id], db.values[id], columns)
  }

  predicate IsIdentical(id: string, columns: nat, sheet: OrderedMap, db: OrderedMap) {
    id in sheet.values && id in db.values && SameUpTo(sheet.values[id], db.values[id], columns)
  }

  function Select(keys: seq<string>, p: string -> bool): seq<string> {
    if keys == [] then [] else Select(keys[..|keys| - 1], p) + if p(keys[|keys| - 1]) then [keys[|keys| - 1]] else []
  }

  function Missing(sheet: OrderedMap, db: OrderedMap): seq<string> {
    Select(sheet.keys, id => id !in db.values)
  }

  function Differing(columns: nat, sheet: OrderedMap, db: OrderedMap): seq<string> {
    Select(sheet.keys, id => IsDiffering(id, columns, sheet, db))
  }

  function Identical(columns: nat, sheet: OrderedMap, db: OrderedMap): seq<string> {
    Select(sheet.keys, id => IsIdentical(id, columns, sheet, db))
  }

  function OnlyInDatabase(sheet: OrderedMap, db: OrderedMap): seq<string> {
    Select(db.keys, id => id !in sheet.values)
  }

  datatype Sample = Sample(id: string, column: string, sheet: string, database: string)

  datatype Diff = Diff(rowsInSheet: nat, rowsInDatabase: nat, missing: nat, differing: nat, onlyInDatabase: nat,
                       missingSample: seq<string>, differingSample: seq<Sample>, onlySample: seq<string>)

  datatype DryRunError = SheetNotFound | NoRecognisableHeader

  function DiffOf(header: Row, sheet: OrderedMap, db: OrderedMap): Diff {
    var differing := Differing(|header|, sheet, db);
    Diff(|sheet.keys|, |db.keys|, |Missing(sheet, db)|, |differing|, |OnlyInDatabase(sheet, db)|,
         Take(Missing(sheet, db), SAMPLE_LIMIT), Samples(header, Take(differing, SAMPLE_LIMIT), sheet, db),
         Take(OnlyInDatabase(sheet, db), SAMPLE_LIMIT))
  }

  function FirstDifference(a: Row, b: Row, from: nat, columns: nat): nat
    decreases columns - from
  {
    if from >= columns || Cell(a, from) != Cell(b, from) then from else FirstDifference(a, b, from + 1, columns)
  }

  function SampleOf(header: Row, id: string, a: Row, b: Row): Sample {
    var col := FirstDifference(a, b, 0, |header|);
    Sample(id, if col < |header| then header[col] else "", Cell(a, col), Cell(b, col))
  }

  function Samples(header: Row, ids: seq<string>, sheet: OrderedMap, db: OrderedMap): seq<Sample> {
    seq(|ids|, i requires 0 <= i < |ids| =>
      if ids[i] in sheet.values && ids[i] in db.values
      then SampleOf(header, ids[i], sheet.values[ids[i]], db.values[ids[i]])
      else Sample(ids[i], "", "", ""))
  }

  // ---- The loops -------------------------------------------------------------------

  method IndexRows(m: OrderedMap, rows: seq<Row>) returns (r: OrderedMap)
    ensures r == IndexInto(m, rows)
  {
    r := m;
    var i := 0;
    while i < |rows|
      invariant 0 <= i <= |rows|
      invariant IndexInto(r, rows[i..]) == IndexInto(m, rows)
    {
      assert rows[i..][1..] == rows[i + 1..];
      if rows[i] != [] && rows[i][0] != "" {
        r := r.Set(rows[i][0], rows[i]);
      }
      i := i + 1;
    }
  }

  lemma PageIndexed(tables: seq<Table>, i: nat, cursor: Option<string>, db: OrderedMap, page: Table)
    requires AllAscending(tables, BY_ID) && page == Page(At(tables, i), cursor, DIFF_PAGE, BY_ID) != []
    ensures var last := Some(page[|page| - 1].key);
            && IndexInto(IndexInto(db, Rows(page)), Rows(Export(tables, i + 1, last, DIFF_PAGE)))
               == IndexInto(db, Rows(Export(tables, i, cursor, DIFF_PAGE)))
            && (i >= |tables| ==> Unread(tables, i + 1, last) < Unread(tables, i, cursor))
  {
    PageConsumed(tables, i, cursor, DIFF_PAGE, [], [], page);
    var rest := Export(tables, i + 1, Some(page[|page| - 1].key), DIFF_PAGE);
    assert Rows(page + rest) == Rows(page) + Rows(rest);
    IndexInBatches(db, Rows(page), Rows(rest));
  }

  /** What the index will be, given what it holds and where the cursor stands. */
  ghost function Indexed(tables: seq<Table>, i: nat, cursor: Option<string>, db: OrderedMap): OrderedMap
    requires AllAscending(tables, BY_ID)
  {
    IndexInto(db, Rows(Export(tables, i, cursor, DIFF_PAGE)))
  }

  lemma NothingLeft(tables: seq<Table>, i: nat, cursor: Option<string>, db: OrderedMap)
    requires AllAscending(tables, BY_ID) && Page(At(tables, i), cursor, DIFF_PAGE, BY_ID) == []
    ensures Indexed(tables, i, cursor, db) == db
  {
    assert Export(tables, i, cursor, DIFF_PAGE) == [] && Rows([]) == [];
  }

  /** One turn of the loop: read a page and index its rows. */
  method IndexPage(tables: seq<Table>, query: nat, cursor: Option<string>, db: OrderedMap)
    returns (page: Table, next: Option<string>, indexed: OrderedMap)
    requires AllAscending(tables, BY_ID)
    ensures page == [] ==> Indexed(tables, query, cursor, db) == db
    ensures page != [] ==>
              && Indexed(tables, query + 1, next, indexed) == Indexed(tables, query, cursor, db)
              && (query >= |tables| ==> Unread(tables, query + 1, next) < Unread(tables, query, cursor))
  {
    page, next, indexed := Page(At(tables, query), cursor, DIFF_PAGE, BY_ID), cursor, db;
    if page == [] {
      NothingLeft(tables, query, cursor, db);
    } else {
      PageIndexed(tables, query, cursor, db, page);
      indexed := IndexRows(db, Rows(page));
      next := Some(page[|page| - 1].key);
    }
  }

  /** Queries that may still see the table change. */
  ghost function QueriesLeft(tables: seq<Table>, query: nat): nat {
    if query < |tables| then |tables| - query else 0
  }

  /** The live side, read through the same page query as the export. */
  method ReadDatabase(tables: seq<Table>) returns (db: OrderedMap)
    requires AllAscending(tables, BY_ID)
    ensures db == IndexInto(EMPTY, Rows(Export(tables, 0, None, DIFF_PAGE)))
  {
    db := EMPTY;
    ghost var all := Indexed(tables, 0, None, EMPTY);
    var cursor: Option<string> := None;
    var query: nat := 0;
    while true
      invariant Indexed(tables, query, cursor, db) == all
      decreases QueriesLeft(tables, query), Unread(tables, query, cursor)
    {
      var page, next, indexed := IndexPage(tables, query, cursor, db);
      if page == [] {
        return;
      }
      db, cursor, query := indexed, next, query + 1;
    }
  }

  lemma {:induction false} IndexInBatches(m: OrderedMap, a: seq<Row>, b: seq<Row>)
    ensures IndexInto(m, a + b) == IndexInto(IndexInto(m, a), b)
    decreases |a|
  {
    if a == [] {
      assert a + b == b;
    } else {
      IndexInBatches(if a[0] != [] && a[0][0] != "" then m.Set(a[0][0], a[0]) else m, a[1..], b);
      assert (a + b)[1..] == a[1..] + b;
    }
  }

  lemma {:induction false} IndexIsValid(m: OrderedMap, rows: seq<Row>)
    requires m.Valid()
    ensures IndexInto(m, rows).Valid()
    decreases |rows|
  {
    if rows != [] {
      IndexIsValid(if rows[0] != [] && rows[0][0] != "" then m.Set(rows[0][0], rows[0]) else m, rows[1..]);
    }
  }

  /** Whether a row is indexed, and under what. */
  predicate HasRowId(row: Row, id: string) {
    row != [] && row[0] == id != ""
  }

  lemma {:induction false} IndexHolds(m: OrderedMap, rows: seq<Row>, id: string)
    ensures id in IndexInto(m, rows).values <==> id in m.values || exists k | 0 <= k < |rows| :: HasRowId(rows[k], id)
    ensures (forall k | 0 <= k < |rows| :: !HasRowId(rows[k], id)) && id in m.values ==>
              IndexInto(m, rows).values[id] == m.values[id]
    ensures forall k | 0 <= k < |rows| && HasRowId(rows[k], id) && (forall j | k < j < |rows| :: !HasRowId(rows[j], id)) ::
              id in IndexInto(m, rows).values && IndexInto(m, rows).values[id] == rows[k]
    decreases |rows|
  {
    if rows != [] {
      var next := if rows[0] != [] && rows[0][0] != "" then m.Set(rows[0][0], rows[0]) else m;
      IndexHolds(next, rows[1..], id);
      assert forall k | 0 < k < |rows| :: rows[k] == rows[1..][k - 1];
    }
  }

  /** The index holds exactly the ids of the rows that have one, each with the last of its rows. */
  lemma IndexKeepsLastRows(rows: seq<Row>, id: string)
    ensures id in IndexInto(EMPTY, rows).values <==> exists k | 0 <= k < |rows| :: rows[k] != [] && rows[k][0] == id != ""
    ensures forall k | 0 <= k < |rows| && rows[k] != [] && rows[k][0] == id != ""
                       && (forall j | k < j < |rows| :: rows[j] != [] ==> rows[j][0] != id) ::
              id in IndexInto(EMPTY, rows).values && IndexInto(EMPTY, rows).values[id] == rows[k]
  {
    IndexHolds(EMPTY, rows, id);
    assert forall k | 0 <= k < |rows| :: HasRowId(rows[k], id) <==> rows[k] != [] && rows[k][0] == id != "";
  }

  /** The keys already there stay in front; a row adds its id at the end when it is new. */
  lemma {:induction false} IndexAddsKeys(m: OrderedMap, rows: seq<Row>)
    ensures m.keys <= IndexInto(m, rows).keys
    decreases |rows|
  {
    if rows != [] {
      IndexAddsKeys(if rows[0] != [] && rows[0][0] != "" then m.Set(rows[0][0], rows[0]) else m, rows[1..]);
    }
  }

  /** Ids stand in the order they were first seen: those of the first rows come before any new ones. */
  lemma IndexInFirstSeenOrder(rows: seq<Row>, n: nat)
    requires n <= |rows|
    ensures IndexInto(EMPTY, rows[..n]).keys <= IndexInto(EMPTY, rows).keys
  {
    assert rows == rows[..n] + rows[n..];
    IndexInBatches(EMPTY, rows[..n], rows[n..]);
    IndexAddsKeys(IndexInto(EMPTY, rows[..n]), rows[n..]);
  }

  method FindDifference(a: Row, b: Row, columns: nat) returns (col: nat)
    ensures col == FirstDifference(a, b, 0, columns)
    ensures col <= columns && (col == columns <==> SameUpTo(a, b, columns))
  {
    col := 0;
    while col < columns
      invariant 0 <= col <= columns && SameUpTo(a, b, col)
      invariant FirstDifference(a, b, col, columns) == FirstDifference(a, b, 0, columns)
    {
      if Cell(a, col) != Cell(b, col) {
        return;
      }
      col := col + 1;
    }
  }

  lemma SelectStep(keys: seq<string>, i: nat, p: string -> bool)
    requires i < |keys|
    ensures Select(keys[..i + 1], p) == Select(keys[..i], p) + if p(keys[i]) then [keys[i]] else []
  {
    assert keys[..i + 1][..i] == keys[..i];
  }

  lemma SampleStep(header: Row, ids: seq<string>, id: string, sheet: OrderedMap, db: OrderedMap)
    requires id in sheet.values && id in db.values
    ensures Samples(header, Take(ids + [id], SAMPLE_LIMIT), sheet, db)
            == Samples(header, Take(ids, SAMPLE_LIMIT), sheet, db)
               + if |ids| < SAMPLE_LIMIT then [SampleOf(header, id, sheet.values[id], db.values[id])] else []
  {
    if |ids| < SAMPLE_LIMIT {
      assert Take(ids + [id], SAMPLE_LIMIT) == ids + [id];
    } else {
      assert Take(ids + [id], SAMPLE_LIMIT) == Take(ids, SAMPLE_LIMIT);
    }
  }

  /** One sheet row against its database row: a sample of the difference, if there is one. */
  method CompareRow(header: Row, sheet: OrderedMap, db: OrderedMap, id: string) returns (sample: Option<Sample>)
    requires id in sheet.values && id in db.values
    ensures sample.Some? <==> IsDiffering(id, |header|, sheet, db)
    ensures sample.Some? ==> sample.value == SampleOf(header, id, sheet.values[id], db.values[id])
  {
    var a, b := sheet.values[id], db.values[id];
    var col := FindDifference(a, b, |header|);
    sample := if col < |header| then Some(Sample(id, header[col], Cell(a, col), Cell(b, col))) else None;
  }

  method Compare(header: Row, sheet: OrderedMap, db: OrderedMap)
    returns (missing: seq<string>, differing: seq<Sample>, differingCount: nat)
    requires sheet.Valid() && db.Valid()
    ensures missing == Missing(sheet, db)
    ensures differingCount == |Differing(|header|, sheet, db)|
    ensures differing == Samples(header, Take(Differing(|header|, sheet, db), SAMPLE_LIMIT), sheet, db)
  {
    missing, differing, differingCount := [], [], 0;
    ghost var differs := id => IsDiffering(id, |header|, sheet, db);
    ghost var absent := (id: string) => id !in db.values;
    ghost var found: seq<string> := [];
    for i := 0 to |sheet.keys|
      invariant missing == Select(sheet.keys[..i], absent)
      invariant found == Select(sheet.keys[..i], differs) && differingCount == |found|
      invariant differing == Samples(header, Take(found, SAMPLE_LIMIT), sheet, db)
    {
      var id := sheet.keys[i];
      SelectStep(sheet.keys, i, absent);
      SelectStep(sheet.keys, i, differs);
      assert id in sheet.keys;
      if id !in db.values {
        missing := missing + [id];
      } else {
        var sample := CompareRow(header, sheet, db, id);
        if sample.Some? {
          SampleStep(header, found, id, sheet, db);
          differingCount := differingCount + 1;
          if |differing| < SAMPLE_LIMIT {
            differing := differing + [sample.value];
          }
          found := found + [id];
        }
      }
    }
    assert sheet.keys[..|sheet.keys|] == sheet.keys;
  }

  method SelectOnly(sheet: OrderedMap, db: OrderedMap) returns (only: seq<string>)
    ensures only == OnlyInDatabase(sheet, db)
  {
    only := [];
    ghost var absent := (id: string) => id !in sheet.values;
    for i := 0 to |db.keys|
      invariant only == Select(db.keys[..i], absent)
    {
      SelectStep(db.keys, i, absent);
      if db.keys[i] !in sheet.values {
        only := only + [db.keys[i]];
      }
    }
    assert db.keys[..|db.keys|] == db.keys;
  }

  /** `dryRun`, given what the sheet port read and what the page queries see. */
  method DryRun(raw: seq<Row>, tables: seq<Table>) returns (result: Result<Diff, DryRunError>)
    requires AllAscending(tables, BY_ID)
    ensures raw == [] ==> result == Err(SheetNotFound)
    ensures raw != [] && (raw[0] == [] || raw[0][0] != "id") ==> result == Err(NoRecognisableHeader)
    ensures raw != [] && raw[0] != [] && raw[0][0] == "id" ==>
              result == Ok(DiffOf(raw[0], IndexInto(EMPTY, raw[1..]),
                                  IndexInto(EMPTY, Rows(Export(tables, 0, None, DIFF_PAGE)))))
  {
    if raw == [] {
      return Err(SheetNotFound);
    }
    var header := raw[0];
    if header == [] || header[0] != "id" {
      return Err(NoRecognisableHeader);
    }
    var sheet := IndexRows(EMPTY, raw[1..]);
    var db := ReadDatabase(tables);
    IndexIsValid(EMPTY, raw[1..]);
    IndexIsValid(EMPTY, Rows(Export(tables, 0, None, DIFF_PAGE)));
    var missing, differing, differingCount := Compare(header, sheet, db);
    var only := SelectOnly(sheet, db);
    result := Ok(Diff(|sheet.keys|, |db.keys|, |missing|, differingCount, |only|,
                      Take(missing, SAMPLE_LIMIT), differing, Take(only, SAMPLE_LIMIT)));
  }

  lemma SelectCounts(m: OrderedMap, p: string -> bool)
    requires m.Valid()
    ensures |Select(m.keys, p)| == |set id | id in m.values && p(id)|
    ensures forall id :: id in Select(m.keys, p) <==> id in m.values && p(id)
  {
    SelectSelects(m.keys, p);
    SetSize(Select(m.keys, p));
    assert (set id | id in Select(m.keys, p)) == (set id | id in m.values && p(id));
  }

  /** The five numbers count rows, by id, and the samples of missing rows name up to twenty of them. */
  lemma CountsAreExact(header: Row, sheet: OrderedMap, db: OrderedMap)
    requires sheet.Valid() && db.Valid()
    ensures var d := DiffOf(header, sheet, db);
            && d.rowsInSheet == |sheet.values.Keys| && d.rowsInDatabase == |db.values.Keys|
            && d.missing == |set id | id in sheet.values && id !in db.values|
            && d.onlyInDatabase == |set id | id in db.values && id !in sheet.values|
            && d.differing == |set id | id in sheet.values && id in db.values
                                        && !SameUpTo(sheet.values[id], db.values[id], |header|)|
            && |d.missingSample| == Min(20, d.missing) && |d.onlySample| == Min(20, d.onlyInDatabase)
            && (forall id | id in d.missingSample :: id in sheet.values && id !in db.values)
            && (forall id | id in d.onlySample :: id in db.values && id !in sheet.values)
  {
    KeyCount(sheet);
    KeyCount(db);
    MissingCount(sheet, db);
    OnlyInDatabaseCount(sheet, db);
    DifferingCount(|header|, sheet, db);
  }

  lemma KeyCount(m: OrderedMap)
    requires m.Valid()
    ensures |m.keys| == |m.values.Keys|
  {
    SetSize(m.keys);
    assert (set id | id in m.keys) == m.values.Keys;
  }

  lemma MissingCount(sheet: OrderedMap, db: OrderedMap)
    requires sheet.Valid()
    ensures |Missing(sheet, db)| == |set id | id in sheet.values && id !in db.values|
    ensures forall id :: id in Missing(sheet, db) <==> id in sheet.values && id !in db.values
  {
    SelectCounts(sheet, id => id !in db.values);
    assert (set id | id in sheet.values && (id => id !in db.values)(id)) == (set id | id in sheet.values && id !in db.values);
  }

  lemma OnlyInDatabaseCount(sheet: OrderedMap, db: OrderedMap)
    requires db.Valid()
    ensures |OnlyInDatabase(sheet, db)| == |set id | id in db.values && id !in sheet.values|
    ensures forall id :: id in OnlyInDatabase(sheet, db) <==> id in db.values && id !in sheet.values
  {
    SelectCounts(db, id => id !in sheet.values);
    assert (set id | id in db.values && (id => id !in sheet.values)(id)) == (set id | id in db.values && id !in sheet.values);
  }

  lemma DifferingCount(columns: nat, sheet: OrderedMap, db: OrderedMap)
    requires sheet.Valid()
    ensures |Differing(columns, sheet, db)|
            == |set id | id in sheet.values && id in db.values && !SameUpTo(sheet.values[id], db.values[id], columns)|
  {
    SelectCounts(sheet, id => IsDiffering(id, columns, sheet, db));
    assert (set id | id in sheet.values && (id => IsDiffering(id, columns, sheet, db))(id))
           == (set id | id in sheet.values && id in db.values && !SameUpTo(sheet.values[id], db.values[id], columns));
  }

  /**
   * A sample names a row on both sides and the first header column on which the two differ, and shows
   * what the sheet has there and what the table has.
   */
  lemma SampleShowsBothSides(header: Row, sheet: OrderedMap, db: OrderedMap, i: nat)
    requires sheet.Valid() && db.Valid() && i < |DiffOf(header, sheet, db).differingSample|
    ensures var d := DiffOf(header, sheet, db);
            var x := d.differingSample[i];
            && |d.differingSample| == Min(20, d.differing)
            && x.id in sheet.values && x.id in db.values && x.sheet != x.database
            && exists col | 0 <= col < |header| ::
                 && x.column == header[col]
                 && x.sheet == (if col < |sheet.values[x.id]| then sheet.values[x.id][col] else "")
                 && x.database == (if col < |db.values[x.id]| then db.values[x.id][col] else "")
                 && SameUpTo(sheet.values[x.id], db.values[x.id], col)
  {
    var differing := Differing(|header|, sheet, db);
    SelectSelects(sheet.keys, id => IsDiffering(id, |header|, sheet, db));
    var id := Take(differing, SAMPLE_LIMIT)[i];
    assert id in differing;
    var a, b := sheet.values[id], db.values[id];
    FirstDifferenceIsFirst(a, b, 0, |header|);
    var col := FirstDifference(a, b, 0, |header|);
    assert DiffOf(header, sheet, db).differingSample[i] == Sample(id, header[col], Cell(a, col), Cell(b, col));
  }

  lemma {:induction false} FirstDifferenceIsFirst(a: Row, b: Row, from: nat, columns: nat)
    requires SameUpTo(a, b, from) && !SameUpTo(a, b, columns)
    ensures var col := FirstDifference(a, b, from, columns);
            col < columns && SameUpTo(a, b, col) && Cell(a, col) != Cell(b, col)
    decreases columns - from
  {
    if from < columns && Cell(a, from) == Cell(b, from) {
      FirstDifferenceIsFirst(a, b, from + 1, columns);
    }
  }

  // ---- What the counts mean ----------------------------------------------------------

  lemma {:induction false} ThreeWaySplit(keys: seq<string>, columns: nat, sheet: OrderedMap, db: OrderedMap)
    requires forall id | id in keys :: id in sheet.values
    ensures |keys| == |Select(keys, id => id !in db.values)|
                      + |Select(keys, id => IsDiffering(id, columns, sheet, db))|
                      + |Select(keys, id => IsIdentical(id, columns, sheet, db))|
  {
    if keys != [] {
      var n := |keys| - 1;
      assert keys[n] in keys;
      ThreeWaySplit(keys[..n], columns, sheet, db);
    }
  }

  ghost predicate Distinct(s: seq<string>) {
    forall i, j | 0 <= i < j < |s| :: s[i] != s[j]
  }

  lemma {:induction false} SelectSelects(keys: seq<string>, p: string -> bool)
    requires Distinct(keys)
    ensures Distinct(Select(keys, p))
    ensures forall id :: id in Select(keys, p) <==> id in keys && p(id)
  {
    if keys != [] {
      var n := |keys| - 1;
      SelectSelects(keys[..n], p);
      assert keys == keys[..n] + [keys[n]];
      assert keys[n] !in keys[..n];
    }
  }

  lemma {:induction false} SameElementsSameLength(a: seq<string>, b: seq<string>)
    requires Distinct(a) && Distinct(b) && forall id :: id in a <==> id in b
    ensures |a| == |b|
  {
    SetSize(a);
    SetSize(b);
    assert (set id | id in a) == (set id | id in b);
  }

  lemma {:induction false} SetSize(a: seq<string>)
    requires Distinct(a)
    ensures |set id | id in a| == |a|
  {
    if a != [] {
      var n := |a| - 1;
      SetSize(a[..n]);
      assert a == a[..n] + [a[n]];
      assert (set id | id in a) == (set id | id in a[..n]) + {a[n]};
    }
  }

  /** The counts partition both sides. */
  lemma DiffPartitionsBothSides(header: Row, sheet: OrderedMap, db: OrderedMap)
    requires sheet.Valid() && db.Valid()
    ensures var d, same := DiffOf(header, sheet, db), |Identical(|header|, sheet, db)|;
            && d.rowsInSheet == d.missing + d.differing + same
            && d.rowsInDatabase == d.onlyInDatabase + d.differing + same
  {
    var columns := |header|;
    ThreeWaySplit(sheet.keys, columns, sheet, db);
    ThreeWaySplit(db.keys, columns, db, sheet);
    var differs, differsBack := id => IsDiffering(id, columns, sheet, db), id => IsDiffering(id, columns, db, sheet);
    var same, sameBack := id => IsIdentical(id, columns, sheet, db), id => IsIdentical(id, columns, db, sheet);
    SelectSelects(sheet.keys, differs);
    SelectSelects(db.keys, differsBack);
    SelectSelects(sheet.keys, same);
    SelectSelects(db.keys, sameBack);
    SameElementsSameLength(Select(sheet.keys, differs), Select(db.keys, differsBack));
    SameElementsSameLength(Select(sheet.keys, same), Select(db.keys, sameBack));
  }

  /** Sheet and table agree: the same ids, and equal rows on every header column. */
  ghost predicate Agree(header: Row, sheet: OrderedMap, db: OrderedMap) {
    && sheet.values.Keys == db.values.Keys
    && forall id | id in sheet.values :: SameUpTo(sheet.values[id], db.values[id], |header|)
  }

  /** The three counts are all zero exactly when sheet and table agree. */
  lemma CleanDiffIffAgreement(header: Row, sheet: OrderedMap, db: OrderedMap)
    requires sheet.Valid() && db.Valid()
    ensures var d := DiffOf(header, sheet, db);
            d.missing == 0 && d.differing == 0 && d.onlyInDatabase == 0 <==> Agree(header, sheet, db)
  {
    SelectSelects(sheet.keys, id => id !in db.values);
    SelectSelects(sheet.keys, id => IsDiffering(id, |header|, sheet, db));
    SelectSelects(db.keys, id => id !in sheet.values);
    var d := DiffOf(header, sheet, db);
    if Agree(header, sheet, db) {
      NothingSelected(Missing(sheet, db));
      NothingSelected(Differing(|header|, sheet, db));
      NothingSelected(OnlyInDatabase(sheet, db));
    }
    if d.missing == 0 && d.differing == 0 && d.onlyInDatabase == 0 {
      NothingLeftMeansAgreement(header, sheet, db);
    }
  }

  lemma NothingLeftMeansAgreement(header: Row, sheet: OrderedMap, db: OrderedMap)
    requires sheet.Valid() && db.Valid()
    requires forall id | id in sheet.keys :: id in db.values && !IsDiffering(id, |header|, sheet, db)
    requires forall id | id in db.keys :: id in sheet.values
    ensures Agree(header, sheet, db)
  {
    forall id
      ensures id in sheet.values <==> id in db.values
    {
      assert id in sheet.values ==> id in sheet.keys;
      assert id in db.values ==> id in db.keys;
    }
    forall id | id in sheet.values
      ensures SameUpTo(sheet.values[id], db.values[id], |header|)
    {
      assert id in sheet.keys;
    }
  }

  lemma NothingSelected(s: seq<string>)
    ensures s == [] <==> forall id :: id !in s
  {
    if s != [] {
      assert s[0] in s;
    }
  }
}

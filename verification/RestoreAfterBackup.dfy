/**
 * A dry run straight after a backup: the export goes through the file adapter's text and back, and is
 * then compared with the table it came from, which has not changed meanwhile.
 */
module RestoreAfterBackup {
  import opened Options
  import opened Text
  import opened Keyset
  import opened Backup
  import opened Restore
  import Csv

  /** A row as the entity mappers make it: a cell for every column, the id first and not empty. */
  predicate IsMapped(header: Row, e: Entry<string, Row>) {
    |e.row| == |header| > 0 && e.row[0] == e.key != ""
  }

  ghost predicate Mapped(header: Row, table: Table) {
    forall i | 0 <= i < |table| :: IsMapped(header, table[i])
  }

  /** What the sheet port reads of a published export. */
  ghost function ReadOf(header: Row, exported: Table): seq<Row> {
    Csv.ReadBack(Csv.FileText([header] + Rows(exported)))
  }

  ghost predicate NoDifference(d: Diff) {
    d.missing == 0 && d.differing == 0 && d.onlyInDatabase == 0
  }

  // ---- What is read back ------------------------------------------------------------------

  lemma HeaderReadsBack(header: Row, rows: seq<Row>)
    requires Csv.Clean(header)
    ensures Csv.ReadBack(Csv.FileText([header] + rows)) == [header] + Csv.ReadBack(Csv.FileText(rows))
  {
    var line, rest := Csv.ToCsvLine(header), Csv.FileText(rows);
    assert ([header] + rows)[1..] == rows;
    Csv.LineShape(header);
    SplitAtSeparator(line, rest, '\n');
    SplitWithoutSeparator(line, '\n');
    Csv.StripHead(line, Split(rest, '\n'));
    assert ([line] + Csv.SplitLines(rest))[1..] == Csv.SplitLines(rest);
    assert header != [];
    Csv.CsvRoundTrip(header);
  }

  lemma ReadRowsHoldNoLineFeed(text: string)
    ensures forall k | 0 <= k < |Csv.ReadBack(text)| :: Csv.NoLineFeed(Csv.ReadBack(text)[k])
  {
    Csv.PartsHoldNoSeparator(text, '\n');
    Csv.StripKeepsOut(Split(text, '\n'));
    Csv.ParsedRowsHoldNoLineFeed(Csv.SplitLines(text));
  }

  /** A row that starts with an id prints as a line that is not empty. */
  lemma RowWithIdIsPrinted(row: Row)
    requires row != [] && row[0] != ""
    ensures Csv.ToCsvLine(row) != ""
  {
    assert Csv.ToCell(row[0]) != "";
  }

  // ---- What the indexes hold ------------------------------------------------------------------

  ghost predicate ValuesHoldNoLineFeed(m: OrderedMap) {
    forall id {:trigger m.values[id]} | id in m.values :: Csv.NoLineFeed(m.values[id])
  }

  lemma {:induction false} IndexHoldsNoLineFeed(m: OrderedMap, rows: seq<Row>)
    requires ValuesHoldNoLineFeed(m) && forall k | 0 <= k < |rows| :: Csv.NoLineFeed(rows[k])
    ensures ValuesHoldNoLineFeed(IndexInto(m, rows))
    decreases |rows|
  {
    if rows != [] {
      IndexHoldsNoLineFeed(if rows[0] != [] && rows[0][0] != "" then m.Set(rows[0][0], rows[0]) else m, rows[1..]);
    }
  }

  lemma {:induction false} IndexKeeps(m: OrderedMap, rows: seq<Row>, id: string)
    requires id in m.values && forall k | 0 <= k < |rows| :: rows[k] != [] ==> rows[k][0] != id
    ensures id in IndexInto(m, rows).values && IndexInto(m, rows).values[id] == m.values[id]
    decreases |rows|
  {
    if rows != [] {
      IndexKeeps(if rows[0] != [] && rows[0][0] != "" then m.Set(rows[0][0], rows[0]) else m, rows[1..], id);
    }
  }

  /** Every row of the table is found under its id. */
  lemma {:induction false} TableIsIndexed(m: OrderedMap, header: Row, table: Table, i: nat)
    requires Ascending(table, BY_ID) && Mapped(header, table) && i < |table|
    ensures table[i].key in IndexInto(m, Rows(table)).values
    ensures IndexInto(m, Rows(table)).values[table[i].key] == table[i].row
    decreases |table|
  {
    var first, rest := table[0].row, table[1..];
    assert Rows(table)[0] == first && Rows(table)[1..] == Rows(rest);
    assert IsMapped(header, table[i]) && IsMapped(header, table[0]);
    var m' := m.Set(first[0], first);
    if i == 0 {
      forall k | 0 <= k < |Rows(rest)|
        ensures Rows(rest)[k] != [] ==> Rows(rest)[k][0] != table[0].key
      {
        assert IsMapped(header, table[k + 1]);
        assert BY_ID(table[0].key, table[k + 1].key);
        LessIsIrreflexive(table[0].key);
      }
      IndexKeeps(m', Rows(rest), table[0].key);
    } else {
      RestIsMapped(header, table);
      TableIsIndexed(m', header, rest, i - 1);
      assert rest[i - 1] == table[i];
    }
  }

  lemma RestIsMapped(header: Row, table: Table)
    requires Ascending(table, BY_ID) && Mapped(header, table) && table != []
    ensures Ascending(table[1..], BY_ID) && Mapped(header, table[1..])
  {
    forall i | 0 <= i < |table[1..]|
      ensures IsMapped(header, table[1..][i])
    {
      assert table[1..][i] == table[i + 1];
    }
  }

  // ---- Clean exactly without line feeds ------------------------------------------------------------------

  lemma CleanRowsReadBack(header: Row, table: Table)
    requires Mapped(header, table) && forall i | 0 <= i < |table| :: Csv.NoLineFeed(table[i].row)
    ensures Csv.ReadBack(Csv.FileText(Rows(table))) == Rows(table)
  {
    forall k | 0 <= k < |Rows(table)|
      ensures Csv.Clean(Rows(table)[k])
    {
      assert Rows(table)[k] == table[k].row && IsMapped(header, table[k]);
      RowWithIdIsPrinted(table[k].row);
    }
    Csv.FileRoundTrip(Rows(table));
  }

  /** A sheet without line feeds agrees with no table that has one in a cell. */
  lemma LineFeedIsADifference(header: Row, table: Table, sheet: OrderedMap, i: nat)
    requires Ascending(table, BY_ID) && Mapped(header, table) && ValuesHoldNoLineFeed(sheet)
    requires i < |table| && !Csv.NoLineFeed(table[i].row)
    ensures !Agree(header, sheet, IndexInto(EMPTY, Rows(table)))
  {
    var db := IndexInto(EMPTY, Rows(table));
    TableIsIndexed(EMPTY, header, table, i);
    var id, row := table[i].key, table[i].row;
    assert IsMapped(header, table[i]) && id in db.values && db.values[id] == row;
    var col :| 0 <= col < |row| && '\n' in row[col];
    assert Cell(row, col) == row[col];
    assert id in sheet.values ==> '\n' !in Cell(sheet.values[id], col) by {
      assert id in sheet.values ==> Csv.NoLineFeed(sheet.values[id]);
    }
  }

  lemma AgreeIffNoLineFeed(header: Row, table: Table)
    requires Ascending(table, BY_ID) && Mapped(header, table)
    ensures Agree(header, IndexInto(EMPTY, Csv.ReadBack(Csv.FileText(Rows(table)))), IndexInto(EMPTY, Rows(table)))
            <==> forall i | 0 <= i < |table| :: Csv.NoLineFeed(table[i].row)
  {
    var read := Csv.ReadBack(Csv.FileText(Rows(table)));
    if i :| 0 <= i < |table| && !Csv.NoLineFeed(table[i].row) {
      ReadRowsHoldNoLineFeed(Csv.FileText(Rows(table)));
      IndexHoldsNoLineFeed(EMPTY, read);
      LineFeedIsADifference(header, table, IndexInto(EMPTY, read), i);
    } else {
      CleanRowsReadBack(header, table);
    }
  }

  /**
   * Over an unchanged table a dry run of a published export finds no difference exactly when no cell
   * holds a line feed, whatever the two batch sizes.
   */
  lemma DryRunAfterExportIsClean(header: Row, table: Table, take: nat)
    requires take >= 1 && Ascending(table, BY_ID) && Mapped(header, table)
    requires header != [] && header[0] == "id" && Csv.NoLineFeed(header)
    ensures AllAscending([table], BY_ID)
    ensures var raw := ReadOf(header, Export([table], 0, None, take));
            && raw != [] && raw[0] == header
            && var d := DiffOf(raw[0], IndexInto(EMPTY, raw[1..]),
                               IndexInto(EMPTY, Rows(Export([table], 0, None, DIFF_PAGE))));
               NoDifference(d) <==> forall i | 0 <= i < |table| :: Csv.NoLineFeed(table[i].row)
  {
    ExportOfUnchangedTable(table, take);
    ExportOfUnchangedTable(table, DIFF_PAGE);
    RowWithIdIsPrinted(header);
    HeaderReadsBack(header, Rows(table));
    var raw, read := ReadOf(header, table), Csv.ReadBack(Csv.FileText(Rows(table)));
    assert raw == [header] + read && raw[1..] == read;
    IndexIsValid(EMPTY, read);
    IndexIsValid(EMPTY, Rows(table));
    CleanDiffIffAgreement(header, IndexInto(EMPTY, read), IndexInto(EMPTY, Rows(table)));
    AgreeIffNoLineFeed(header, table);
  }

  // ---- An input at which it is not clean --------------------------------------------------------------------

  const USERS_HEADER := ["id", "email", "firstName", "lastName", "status", "mfaEnabled", "lastLoginAt", "createdAt"]

  const LINE_FEED_USER := ["u1", "a@b.in", "A\nB", "C", "ACTIVE", "false", "", "2025-01-01T00:00:00.000Z"]

  /** One user whose first name has a line feed inside, which its schema lets through. */
  lemma LineFeedInNameDiffers()
    ensures var table := [Entry("u1", LINE_FEED_USER)];
            && AllAscending([table], BY_ID)
            && var raw := ReadOf(USERS_HEADER, Export([table], 0, None, 500));
               raw != [] && raw[0] == USERS_HEADER
               && !NoDifference(DiffOf(raw[0], IndexInto(EMPTY, raw[1..]),
                                       IndexInto(EMPTY, Rows(Export([table], 0, None, DIFF_PAGE)))))
  {
    var table := [Entry("u1", LINE_FEED_USER)];
    assert table[0].row[2][1] == '\n';
    assert !Csv.NoLineFeed(table[0].row);
    DryRunAfterExportIsClean(USERS_HEADER, table, 500);
  }
}

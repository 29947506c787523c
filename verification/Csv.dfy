/** One CSV line: the printer, the character loop that reads it back, and the file of lines. */
module Csv {
  import opened Text

  type Row = seq<string>

  /** The characters the quoting test looks for. */
  predicate Special(c: char) {
    c == '"' || c == ',' || c == '\n' || c == '\r'
  }

  predicate NeedsQuotes(cell: string) {
    exists c | c in cell :: Special(c)
  }

  /** `value.replace(/"/g, '""')`. */
  function DoubleQuotes(cell: string): string {
    if cell == "" then ""
    else (if cell[0] == '"' then "\"\"" else [cell[0]]) + DoubleQuotes(cell[1..])
  }

  function ToCell(cell: string): string {
    if NeedsQuotes(cell) then "\"" + DoubleQuotes(cell) + "\"" else cell
  }

  function ToCsvLine(row: Row): string {
    if row == [] then ""
    else if |row| == 1 then ToCell(row[0])
    else ToCell(row[0]) + "," + ToCsvLine(row[1..])
  }

  /** What the reader still has to do, in its own state: finished cells, current cell, inside quotes. */
  function Scan(rest: string, cell: string, quoted: bool, out: Row): Row
    decreases |rest|
  {
    if rest == "" then out + [cell]
    else if quoted then
      if rest[0] != '"' then Scan(rest[1..], cell + [rest[0]], true, out)
      else if |rest| > 1 && rest[1] == '"' then Scan(rest[2..], cell + "\"", true, out)
      else Scan(rest[1..], cell, false, out)
    else if rest[0] == '"' then Scan(rest[1..], cell, true, out)
    else if rest[0] == ',' then Scan(rest[1..], "", false, out + [cell])
    else Scan(rest[1..], cell + [rest[0]], false, out)
  }

  function FromLine(line: string): Row {
    Scan(line, "", false, [])
  }

  method FromCsvLine(line: string) returns (out: Row)
    ensures out == FromLine(line)
  {
    out := [];
    var cell, quoted, i := "", false, 0;
    while i < |line|
      invariant 0 <= i <= |line|
      invariant Scan(line[i..], cell, quoted, out) == FromLine(line)
    {
      var c := line[i];
      assert line[i..][1..] == line[i + 1..];
      assert i + 1 < |line| ==> line[i..][2..] == line[i + 2..];
      if quoted {
        if c == '"' {
          if i + 1 < |line| && line[i + 1] == '"' {
            cell := cell + "\"";
            i := i + 1;
          } else {
            quoted := false;
          }
        } else {
          cell := cell + [c];
        }
      } else if c == '"' {
        quoted := true;
      } else if c == ',' {
        out := out + [cell];
        cell := "";
      } else {
        cell := cell + [c];
      }
      i := i + 1;
    }
    out := out + [cell];
  }

  /** A cell is quoted exactly when it holds a quote, a comma or a line break; otherwise it is printed as it is. */
  lemma QuotedExactlyWhenNeeded(cell: string)
    ensures '"' in cell || ',' in cell || '\n' in cell || '\r' in cell <==> ToCell(cell) != cell
    ensures ToCell(cell) != cell ==> |ToCell(cell)| >= |cell| + 2 && ToCell(cell)[0] == '"' == ToCell(cell)[|ToCell(cell)| - 1]
  {
    DoublingLengthens(cell);
  }

  lemma {:induction false} DoublingLengthens(cell: string)
    ensures |DoubleQuotes(cell)| >= |cell|
  {
    if cell != "" {
      DoublingLengthens(cell[1..]);
    }
  }

  /** Cells without any of these are joined by commas. */
  lemma {:induction false} PlainRowPrintsPlainly(row: Row)
    requires forall i, c | 0 <= i < |row| && c in row[i] :: c !in {'"', ',', '\n', '\r'}
    ensures ToCsvLine(row) == Join(row, ",")
  {
    if row != [] {
      QuotedExactlyWhenNeeded(row[0]);
      PlainRowPrintsPlainly(row[1..]);
    }
  }

  // ---- Reading back what was printed ---------------------------------------------

  lemma {:induction false} ScanPlain(s: string, rest: string, cell: string, out: Row)
    requires forall c | c in s :: !Special(c)
    ensures Scan(s + rest, cell, false, out) == Scan(rest, cell + s, false, out)
  {
    if s == "" {
      assert s + rest == rest && cell + s == cell;
    } else {
      assert s[0] in s;
      ScanPlain(s[1..], rest, cell + [s[0]], out);
      assert (s + rest)[1..] == s[1..] + rest;
      assert cell + [s[0]] + s[1..] == cell + s;
    }
  }

  lemma {:induction false} ScanQuoted(s: string, rest: string, cell: string, out: Row)
    requires rest == "" || rest[0] != '"'
    ensures Scan(DoubleQuotes(s) + "\"" + rest, cell, true, out) == Scan(rest, cell + s, false, out)
  {
    var text := DoubleQuotes(s) + "\"" + rest;
    if s == "" {
      assert text == "\"" + rest && text[1..] == rest && cell + s == cell;
    } else {
      ScanQuoted(s[1..], rest, cell + [s[0]], out);
      var tail := DoubleQuotes(s[1..]) + "\"" + rest;
      assert cell + [s[0]] + s[1..] == cell + s;
      if s[0] == '"' {
        assert text == "\"\"" + tail && text[2..] == tail;
      } else {
        assert text == [s[0]] + tail && text[1..] == tail;
      }
    }
  }

  lemma ScanOpensQuote(inner: string, out: Row)
    ensures Scan("\"" + inner, "", false, out) == Scan(inner, "", true, out)
  {
    assert ("\"" + inner)[1..] == inner;
  }

  lemma ScanEndsCell(cell: string, tail: string, out: Row)
    ensures Scan("," + tail, cell, false, out) == Scan(tail, "", false, out + [cell])
  {
    assert ("," + tail)[1..] == tail;
  }

  lemma ScanCell(s: string, rest: string, out: Row)
    requires rest == "" || rest[0] == ','
    ensures Scan(ToCell(s) + rest, "", false, out) == Scan(rest, s, false, out)
  {
    assert "" + s == s;
    if NeedsQuotes(s) {
      var inner := DoubleQuotes(s) + "\"" + rest;
      ScanQuoted(s, rest, "", out);
      ScanOpensQuote(inner, out);
      assert ToCell(s) + rest == "\"" + inner;
    } else {
      ScanPlain(s, rest, "", out);
    }
  }

  lemma {:induction false} ScanRow(row: Row, out: Row)
    requires row != []
    ensures Scan(ToCsvLine(row), "", false, out) == out + row
  {
    if |row| == 1 {
      ScanCell(row[0], "", out);
      assert ToCell(row[0]) + "" == ToCell(row[0]);
      assert [row[0]] == row;
    } else {
      var tail := ToCsvLine(row[1..]);
      ScanCell(row[0], "," + tail, out);
      Associates(ToCell(row[0]), ",", tail);
      ScanEndsCell(row[0], tail, out);
      ScanRow(row[1..], out + [row[0]]);
      Associates(out, [row[0]], row[1..]);
      assert [row[0]] + row[1..] == row;
    }
  }

  /** Every row with a cell reads back as itself, and the row without cells is the only one that does not. */
  lemma CsvRoundTrip(row: Row)
    ensures FromLine(ToCsvLine(row)) == row <==> row != []
  {
    if row == [] {
      assert FromLine("") == [""];
    } else {
      ScanRow(row, []);
      assert [] + row == row;
    }
  }

  /** Hence different non-empty rows print differently. */
  lemma CsvIsInjective(a: Row, b: Row)
    requires a != [] && b != [] && ToCsvLine(a) == ToCsvLine(b)
    ensures a == b
  {
    CsvRoundTrip(a);
    CsvRoundTrip(b);
  }

  // ---- A file of lines -----------------------------------------------------------

  function FileText(rows: seq<Row>): string {
    if rows == [] then "" else ToCsvLine(rows[0]) + "\n" + FileText(rows[1..])
  }

  function WithoutCarriageReturn(line: string): string {
    if line != "" && line[|line| - 1] == '\r' then line[..|line| - 1] else line
  }

  /** All parts but the last were ended by a line break, which takes one carriage return with it. */
  function StripReturns(parts: seq<string>): seq<string> {
    if |parts| <= 1 then parts else [WithoutCarriageReturn(parts[0])] + StripReturns(parts[1..])
  }

  /** `text.split(/\r?\n/)`. */
  function SplitLines(text: string): seq<string> {
    StripReturns(Split(text, '\n'))
  }

  /** Non-empty lines, each parsed. */
  function ParseLines(lines: seq<string>): seq<Row> {
    if lines == [] then []
    else (if lines[0] == "" then [] else [FromLine(lines[0])]) + ParseLines(lines[1..])
  }

  function ReadBack(text: string): seq<Row> {
    ParseLines(SplitLines(text))
  }

  predicate NoLineFeed(row: Row) {
    forall k | 0 <= k < |row| :: '\n' !in row[k]
  }

  /** A row the file keeps: no cell holds a line feed and the printed line is not empty. */
  predicate Clean(row: Row) {
    NoLineFeed(row) && ToCsvLine(row) != ""
  }

  function Printable(rows: seq<Row>): seq<Row> {
    if rows == [] then []
    else (if ToCsvLine(rows[0]) == "" then [] else [rows[0]]) + Printable(rows[1..])
  }

  lemma {:induction false} DoubleQuotesCharacters(s: string)
    ensures forall c | c in DoubleQuotes(s) :: c in s
  {
    if s != "" {
      DoubleQuotesCharacters(s[1..]);
    }
  }

  /** A printed line holds a line feed only inside a cell, and never ends in a carriage return. */
  lemma {:induction false} LineShape(row: Row)
    requires NoLineFeed(row)
    ensures '\n' !in ToCsvLine(row)
    ensures WithoutCarriageReturn(ToCsvLine(row)) == ToCsvLine(row)
  {
    if row != [] {
      DoubleQuotesCharacters(row[0]);
      var cell := ToCell(row[0]);
      assert '\n' !in cell;
      assert cell == "" || cell[|cell| - 1] != '\r' by {
        if !NeedsQuotes(row[0]) && row[0] != "" {
          assert row[0][|row[0]| - 1] in row[0];
        }
      }
      if |row| > 1 {
        LineShape(row[1..]);
        var tail := ToCsvLine(row[1..]);
        var line := ToCsvLine(row);
        assert line == cell + "," + tail;
        assert line[|line| - 1] == if tail == "" then ',' else tail[|tail| - 1];
      }
    }
  }

  lemma StripHead(head: string, parts: seq<string>)
    requires parts != []
    ensures StripReturns([head] + parts) == [WithoutCarriageReturn(head)] + StripReturns(parts)
  {
    assert ([head] + parts)[1..] == parts;
  }

  /** With no line feed in any cell, exactly the rows that print as an empty line are lost. */
  lemma {:induction false} ReadBackDropsEmptyLines(rows: seq<Row>)
    requires forall k | 0 <= k < |rows| :: NoLineFeed(rows[k])
    ensures ReadBack(FileText(rows)) == Printable(rows)
  {
    if rows == [] {
      assert SplitLines("") == [""];
      assert ParseLines([""]) == [] + ParseLines([]);
    } else {
      var line, rest := ToCsvLine(rows[0]), FileText(rows[1..]);
      LineShape(rows[0]);
      SplitAtSeparator(line, rest, '\n');
      SplitWithoutSeparator(line, '\n');
      StripHead(line, Split(rest, '\n'));
      ReadBackDropsEmptyLines(rows[1..]);
      assert SplitLines(FileText(rows)) == [line] + SplitLines(rest);
      assert ([line] + SplitLines(rest))[1..] == SplitLines(rest);
      CsvRoundTrip(rows[0]);
    }
  }

  predicate NoFeedIn(out: Row, cell: string, rest: string) {
    NoLineFeed(out) && '\n' !in cell && '\n' !in rest
  }

  lemma {:induction false} ScanInventsNoLineFeed(rest: string, cell: string, quoted: bool, out: Row)
    requires NoFeedIn(out, cell, rest)
    ensures NoLineFeed(Scan(rest, cell, quoted, out))
    decreases |rest|
  {
    if rest != "" {
      assert rest[0] in rest;
      if quoted {
        if rest[0] != '"' {
          ScanInventsNoLineFeed(rest[1..], cell + [rest[0]], true, out);
        } else if |rest| > 1 && rest[1] == '"' {
          ScanInventsNoLineFeed(rest[2..], cell + "\"", true, out);
        } else {
          ScanInventsNoLineFeed(rest[1..], cell, false, out);
        }
      } else if rest[0] == '"' {
        ScanInventsNoLineFeed(rest[1..], cell, true, out);
      } else if rest[0] == ',' {
        ScanInventsNoLineFeed(rest[1..], "", false, out + [cell]);
      } else {
        ScanInventsNoLineFeed(rest[1..], cell + [rest[0]], false, out);
      }
    }
  }

  lemma {:induction false} PartsHoldNoSeparator(text: string, sep: char)
    ensures forall k | 0 <= k < |Split(text, sep)| :: sep !in Split(text, sep)[k]
  {
    if text != "" {
      PartsHoldNoSeparator(text[1..], sep);
    }
  }

  lemma {:induction false} StripKeepsOut(parts: seq<string>)
    requires forall k | 0 <= k < |parts| :: '\n' !in parts[k]
    ensures |StripReturns(parts)| == |parts|
    ensures forall k | 0 <= k < |parts| :: '\n' !in StripReturns(parts)[k]
  {
    if |parts| > 1 {
      StripKeepsOut(parts[1..]);
      assert '\n' !in parts[0];
      assert '\n' !in WithoutCarriageReturn(parts[0]);
    }
  }

  lemma {:induction false} ParsedRowsHoldNoLineFeed(lines: seq<string>)
    requires forall k | 0 <= k < |lines| :: '\n' !in lines[k]
    ensures forall k | 0 <= k < |ParseLines(lines)| :: NoLineFeed(ParseLines(lines)[k])
  {
    if lines != [] {
      ParsedRowsHoldNoLineFeed(lines[1..]);
      assert '\n' !in lines[0];
      ScanInventsNoLineFeed(lines[0], "", false, []);
    }
  }

  lemma {:induction false} PrintableKeepsAll(rows: seq<Row>)
    ensures |Printable(rows)| <= |rows|
    ensures |Printable(rows)| == |rows| <==> forall k | 0 <= k < |rows| :: ToCsvLine(rows[k]) != ""
    ensures |Printable(rows)| == |rows| ==> Printable(rows) == rows
  {
    if rows != [] {
      PrintableKeepsAll(rows[1..]);
      if |Printable(rows)| == |rows| {
        assert [rows[0]] + rows[1..] == rows;
      }
      assert forall k | 0 < k < |rows| :: rows[k] == rows[1..][k - 1];
    }
  }

  /** A file reads back as the rows written to it exactly when every one of them is clean. */
  lemma FileRoundTrip(rows: seq<Row>)
    ensures ReadBack(FileText(rows)) == rows <==> forall k | 0 <= k < |rows| :: Clean(rows[k])
  {
    var text := FileText(rows);
    PartsHoldNoSeparator(text, '\n');
    StripKeepsOut(Split(text, '\n'));
    ParsedRowsHoldNoLineFeed(SplitLines(text));
    if forall k | 0 <= k < |rows| :: NoLineFeed(rows[k]) {
      ReadBackDropsEmptyLines(rows);
      PrintableKeepsAll(rows);
    }
  }
}

/** The local sheet adapter: one text file per sheet, rewritten on every append. */
module LocalFileSheets {
  import opened Csv
  import opened Text

  datatype SheetLocation = SheetLocation(spreadsheetId: string, title: string)

  predicate KeepsPath(c: char) {
    'A' <= c <= 'Z' || 'a' <= c <= 'z' || '0' <= c <= '9' || c == '.' || c == '_' || c == '-'
  }

  function Sanitised(s: string): (r: string)
    ensures |r| == |s|
  {
    seq(|s|, i requires 0 <= i < |s| => if KeepsPath(s[i]) then s[i] else '_')
  }

  function Key(at: SheetLocation): string {
    "sheets-backup/" + Sanitised(at.spreadsheetId) + "/" + Sanitised(at.title) + ".csv"
  }

  /** A staging sheet is never stored in its target's file. */
  lemma StagingKeyDiffers(spreadsheetId: string, name: string)
    ensures Key(SheetLocation(spreadsheetId, name + "__staging")) != Key(SheetLocation(spreadsheetId, name))
  {
  }

  /** What sanitising makes the same: the kept characters agree, and where one is replaced so is the other. */
  ghost predicate SameOnceSanitised(a: string, b: string) {
    |a| == |b| && forall i | 0 <= i < |a| :: a[i] == b[i] || (Replaced(a[i]) && Replaced(b[i]))
  }

  /** A character that a path may not hold becomes an underscore, which an underscore is already. */
  predicate Replaced(c: char) {
    c == '_' || !('A' <= c <= 'Z' || 'a' <= c <= 'z' || '0' <= c <= '9' || c == '.' || c == '-')
  }

  /** Two sheets share a file exactly when neither their spreadsheets nor their titles can be told apart so. */
  lemma SharedFileIffSameSanitised(a: SheetLocation, b: SheetLocation)
    ensures Key(a) == Key(b) <==> SameOnceSanitised(a.spreadsheetId, b.spreadsheetId) && SameOnceSanitised(a.title, b.title)
  {
    SanitisedAlike(a.spreadsheetId, b.spreadsheetId);
    SanitisedAlike(a.title, b.title);
    var x, y := Sanitised(a.spreadsheetId), Sanitised(b.spreadsheetId);
    var v, w := Sanitised(a.title) + ".csv", Sanitised(b.title) + ".csv";
    KeyAfterPrefix(a);
    KeyAfterPrefix(b);
    if Key(a) == Key(b) {
      SlashSeparates(x, v, y, w);
      assert v[..|v| - 4] == Sanitised(a.title) && w[..|w| - 4] == Sanitised(b.title);
    }
  }

  lemma KeyAfterPrefix(at: SheetLocation)
    ensures |Key(at)| >= 14 && Key(at)[14..] == Sanitised(at.spreadsheetId) + "/" + (Sanitised(at.title) + ".csv")
  {
  }

  lemma SlashSeparates(x: string, v: string, y: string, w: string)
    requires '/' !in x && '/' !in y && x + "/" + v == y + "/" + w
    ensures x == y && v == w
  {
    var whole := x + "/" + v;
    assert whole[|x|] == '/' && whole[|y|] == '/';
    assert forall k | 0 <= k < |x| :: whole[k] == x[k] && x[k] in x;
    assert forall k | 0 <= k < |y| :: whole[k] == y[k] && y[k] in y;
    assert x == whole[..|x|] && y == whole[..|y|] && v == whole[|x| + 1..] && w == whole[|y| + 1..];
  }

  lemma SanitisedAlike(a: string, b: string)
    ensures Sanitised(a) == Sanitised(b) <==> SameOnceSanitised(a, b)
  {
    if Sanitised(a) == Sanitised(b) {
      assert |a| == |b|;
      forall i | 0 <= i < |a|
        ensures a[i] == b[i] || (Replaced(a[i]) && Replaced(b[i]))
      {
        assert Sanitised(a)[i] == Sanitised(b)[i];
      }
    }
  }

  function WithoutFinalNewline(text: string): string {
    if text != "" && text[|text| - 1] == '\n' then text[..|text| - 1] else text
  }

  function Lines(rows: seq<Row>): seq<string> {
    seq(|rows|, i requires 0 <= i < |rows| => ToCsvLine(rows[i]))
  }

  /** The text one append leaves behind. */
  function Appended(existing: string, rows: seq<Row>): string
    requires rows != []
  {
    var body := Join(Lines(rows), "\n");
    if |existing| > 0 then WithoutFinalNewline(existing) + "\n" + body + "\n" else body + "\n"
  }

  lemma {:induction false} JoinedLines(rows: seq<Row>)
    requires rows != []
    ensures Join(Lines(rows), "\n") + "\n" == FileText(rows)
  {
    assert FileText([]) == "";
    if |rows| == 1 {
      assert FileText(rows) == ToCsvLine(rows[0]) + "\n" + "";
    } else {
      JoinedLines(rows[1..]);
      assert Lines(rows)[1..] == Lines(rows[1..]);
      var line, rest := ToCsvLine(rows[0]), Join(Lines(rows[1..]), "\n");
      Associates(line + "\n", rest, "\n");
    }
  }

  lemma {:induction false} FileTextConcat(a: seq<Row>, b: seq<Row>)
    ensures FileText(a + b) == FileText(a) + FileText(b)
  {
    if a == [] {
      assert a + b == b;
    } else {
      FileTextConcat(a[1..], b);
      assert (a + b)[1..] == a[1..] + b;
      Associates(ToCsvLine(a[0]) + "\n", FileText(a[1..]), FileText(b));
    }
  }

  lemma {:induction false} FileTextEnds(rows: seq<Row>)
    ensures FileText(rows) == "" <==> rows == []
    ensures rows != [] ==> FileText(rows)[|FileText(rows)| - 1] == '\n'
  {
    if rows != [] {
      FileTextEnds(rows[1..]);
    }
  }

  /** Taking the final line break off and putting it back makes an append plain concatenation. */
  lemma AppendConcatenates(before: seq<Row>, rows: seq<Row>)
    requires rows != []
    ensures Appended(FileText(before), rows) == FileText(before + rows)
  {
    FileTextConcat(before, rows);
    JoinedLines(rows);
    FileTextEnds(before);
    AppendedText(FileText(before), Join(Lines(rows), "\n"));
  }

  lemma AppendedText(text: string, body: string)
    requires text == "" || text[|text| - 1] == '\n'
    ensures (if |text| > 0 then WithoutFinalNewline(text) + "\n" + body + "\n" else body + "\n") == text + (body + "\n")
  {
    if text != "" {
      assert WithoutFinalNewline(text) + "\n" == text;
      Associates(text, body, "\n");
    }
  }

  class LocalFileSheetsAdapter {
    /** The storage: file contents by key. */
    var files: map<string, string>
    /** The rows each file was given, in order. */
    ghost var sheets: map<string, seq<Row>>

    ghost predicate Valid()
      reads this
    {
      files.Keys == sheets.Keys && forall k | k in files :: files[k] == FileText(sheets[k])
    }

    constructor ()
      ensures Valid() && sheets == map[]
    {
      files := map[];
      sheets := map[];
    }

    method EnsureSheet(at: SheetLocation)
      requires Valid()
      modifies this
      ensures Valid()
      ensures sheets == if Key(at) in old(sheets) then old(sheets) else old(sheets)[Key(at) := []]
    {
      if Key(at) !in files {
        files := files[Key(at) := ""];
        sheets := sheets[Key(at) := []];
      }
    }

    method AppendRows(at: SheetLocation, rows: seq<Row>)
      requires Valid()
      modifies this
      ensures Valid()
      ensures rows == [] ==> sheets == old(sheets)
      ensures rows != [] ==>
                sheets == old(sheets)[Key(at) := (if Key(at) in old(sheets) then old(sheets)[Key(at)] else []) + rows]
    {
      if rows == [] {
        return;
      }
      var existing := if Key(at) in files then files[Key(at)] else "";
      ghost var before := if Key(at) in sheets then sheets[Key(at)] else [];
      AppendConcatenates(before, rows);
      var body := Join(Lines(rows), "\n");
      var next := if |existing| > 0 then WithoutFinalNewline(existing) + "\n" + body + "\n" else body + "\n";
      files := files[Key(at) := next];
      sheets := sheets[Key(at) := before + rows];
    }

    /** Put, then delete: the two storage calls of a swap, in that order. */
    method SwapSheet(staging: SheetLocation, target: SheetLocation)
      requires Valid()
      modifies this
      ensures Valid()
      ensures sheets == old(sheets)[Key(target) := if Key(staging) in old(sheets) then old(sheets)[Key(staging)] else []]
                        - {Key(staging)}
    {
      var content := if Key(staging) in files then files[Key(staging)] else "";
      ghost var rows := if Key(staging) in sheets then sheets[Key(staging)] else [];
      files := files[Key(target) := content];
      sheets := sheets[Key(target) := rows];
      files := files - {Key(staging)};
      sheets := sheets - {Key(staging)};
    }

    method DeleteSheet(at: SheetLocation)
      requires Valid()
      modifies this
      ensures Valid() && sheets == old(sheets) - {Key(at)}
    {
      files := files - {Key(at)};
      sheets := sheets - {Key(at)};
    }

    /** Reads a sheet back: exactly the rows it was given when, and only when, all of them are clean. */
    method ReadRows(at: SheetLocation) returns (rows: seq<Row>)
      requires Valid()
      ensures Key(at) !in sheets ==> rows == []
      ensures Key(at) in sheets ==>
                (rows == sheets[Key(at)] <==> forall k | 0 <= k < |sheets[Key(at)]| :: Clean(sheets[Key(at)][k]))
      ensures rows == if Key(at) in sheets then ReadBack(FileText(sheets[Key(at)])) else []
    {
      if Key(at) !in files {
        return [];
      }
      FileRoundTrip(sheets[Key(at)]);
      rows := ParseEach(SplitLines(files[Key(at)]));
    }
  }

  /** Drop the empty lines, parse the others. */
  method ParseEach(lines: seq<string>) returns (rows: seq<Row>)
    ensures rows == ParseLines(lines)
  {
    rows := [];
    var i := 0;
    while i < |lines|
      invariant 0 <= i <= |lines|
      invariant rows + ParseLines(lines[i..]) == ParseLines(lines)
    {
      assert lines[i..][1..] == lines[i + 1..];
      if lines[i] != "" {
        var row := FromCsvLine(lines[i]);
        Associates(rows, [row], ParseLines(lines[i + 1..]));
        rows := rows + [row];
      }
      i := i + 1;
    }
  }

  function Concat(batches: seq<seq<Row>>): seq<Row> {
    if batches == [] then [] else batches[0] + Concat(batches[1..])
  }

  /** The file after a series of appends to an empty sheet. */
  function AppendAll(text: string, batches: seq<seq<Row>>): string
    decreases |batches|
  {
    if batches == [] then text
    else AppendAll(if batches[0] == [] then text else Appended(text, batches[0]), batches[1..])
  }

  lemma {:induction false} AppendsAccumulate(before: seq<Row>, batches: seq<seq<Row>>)
    ensures AppendAll(FileText(before), batches) == FileText(before + Concat(batches))
    decreases |batches|
  {
    if batches == [] {
      assert before + [] == before;
    } else {
      if batches[0] != [] {
        AppendConcatenates(before, batches[0]);
      } else {
        assert before + batches[0] == before;
      }
      AppendsAccumulate(before + batches[0], batches[1..]);
      Associates(before, batches[0], Concat(batches[1..]));
    }
  }

  /** Any series of batches reads back as their concatenation exactly when every row is clean. */
  lemma AppendedBatchesReadBack(batches: seq<seq<Row>>)
    ensures ReadBack(AppendAll("", batches)) == Concat(batches)
            <==> forall k | 0 <= k < |Concat(batches)| :: Clean(Concat(batches)[k])
  {
    AppendsAccumulate([], batches);
    assert [] + Concat(batches) == Concat(batches);
    FileRoundTrip(Concat(batches));
  }
}

/** Coverage profiles as they are printed: the mode line, and one line for each row. */
module CoveragePrint {
  import opened Options
  import opened ExactWrite
  import opened TextLines
  import opened Utf8
  import opened Decimal
  import opened Coverage

  /** `path:range statements count`. */
  function RowLine(row: Row): bytes {
    row.identity + [SPACE] + Digits(row.statements as nat) + [SPACE] + Digits(row.count as nat)
  }

  function Print(rows: seq<Row>): bytes {
    if rows == [] then Text("mode: atomic\n")
    else Print(rows[..|rows| - 1]) + RowLine(rows[|rows| - 1]) + [LF]
  }

  lemma {:induction false} NumberIsWord(n: nat)
    ensures Word(Digits(n))
  {
    DigitsHold(n, SPACE);
    DigitsAreCanonical(n);
  }

  /** A printed row is read with its own numbers, the statements first. */
  lemma {:induction false} RowIsRead(p: int -> bool, row: Row)
    requires ValidCoverageIdentity(p, row.identity)
    ensures RowOf(p, RowLine(row)) == Some(row)
  {
    var f := Fields(row.identity, Digits(row.statements as nat), Digits(row.count as nat));
    NumberIsWord(row.statements as nat);
    NumberIsWord(row.count as nat);
    FieldsOfLine(f);
    assert RowLine(row) == LineOf(f);
    FieldsAreRow(p, RowLine(row), f, row);
  }

  lemma {:induction false} FieldsAreRow(p: int -> bool, line: bytes, f: Fields, row: Row)
    requires CoverageFields(line) == Some(f) && f.identity == row.identity && ValidCoverageIdentity(p, row.identity)
    requires f.statements == Digits(row.statements as nat) && f.count == Digits(row.count as nat)
    ensures RowOf(p, line) == Some(row)
  {
    UnsignedDecimalExact(f.statements, row.statements);
    UnsignedDecimalExact(f.count, row.count);
  }

  /** Every line that is read as a row is that row printed. */
  lemma {:induction false} ReadIsRow(p: int -> bool, line: bytes)
    requires RowOf(p, line).Some?
    ensures line == RowLine(RowOf(p, line).value) && ValidCoverageIdentity(p, RowOf(p, line).value.identity)
  {
    var f := CoverageFields(line).value;
    var row := RowOf(p, line).value;
    LineOfFields(line);
    UnsignedDecimalExact(f.statements, row.statements);
    UnsignedDecimalExact(f.count, row.count);
  }

  // ----- whole profiles -----

  lemma {:induction false} ModeText()
    ensures Text("mode: atomic\n") == MODE + [LF] && LF !in MODE
  {
  }

  /** The mode line and the rows, as lines. */
  function PrintedLines(rows: seq<Row>): (r: seq<bytes>)
    ensures |r| == |rows| + 1
  {
    [MODE] + seq(|rows|, i requires 0 <= i < |rows| => RowLine(rows[i]))
  }

  lemma {:induction false} PrintJoins(rows: seq<Row>)
    ensures Join(PrintedLines(rows) + [[]], LF) == Print(rows)
  {
    var lines := PrintedLines(rows);
    assert (lines + [[]])[..|lines|] == lines;
    if rows == [] {
      ModeText();
      assert lines == [MODE];
      assert MODE + [LF] + [] == MODE + [LF];
    } else {
      var m := |rows| - 1;
      PrintJoins(rows[..m]);
      var before := PrintedLines(rows[..m]);
      assert (before + [[]])[..|before|] == before;
      assert lines == before + [RowLine(rows[m])];
      assert lines[..|before|] == before;
      JoinEnds(before, RowLine(rows[m]), Print(rows[..m]));
    }
  }

  lemma {:induction false} JoinEnds(before: seq<bytes>, line: bytes, printed: bytes)
    requires before != [] && Join(before, LF) + [LF] + [] == printed
    ensures Join(before + [line], LF) + [LF] + [] == printed + line + [LF]
  {
    assert (before + [line])[..|before|] == before;
    assert Join(before, LF) + [LF] == printed;
  }

  lemma {:induction false} LinesArePrinted(lines: seq<bytes>, rows: seq<Row>)
    requires |lines| == |rows| + 2 && lines[0] == MODE && lines[|rows| + 1] == []
    requires forall i | 0 <= i < |rows| :: lines[i + 1] == RowLine(rows[i])
    ensures lines == PrintedLines(rows) + [[]]
  {
    var printed := PrintedLines(rows) + [[]];
    forall i | 0 <= i < |lines| ensures lines[i] == printed[i] {
      if 0 < i <= |rows| { assert lines[(i - 1) + 1] == RowLine(rows[i - 1]); }
    }
  }

  /** A profile is its rows printed. */
  lemma {:induction false} ProfileIsPrinted(p: int -> bool, parse: RowParser, source: bytes, rows: seq<Row>)
    requires Reads(parse, p) && Describes(parse, Lines(source), rows)
    ensures source == Print(rows)
    ensures forall i | 0 <= i < |rows| :: ValidCoverageIdentity(p, rows[i].identity)
  {
    DescribedRows(p, parse, Lines(source), rows);
    LinesArePrinted(Lines(source), rows);
    JoinSplit(source, LF);
    PrintJoins(rows);
  }

  lemma {:induction false} DescribedRows(p: int -> bool, parse: RowParser, lines: seq<bytes>, rows: seq<Row>)
    requires Reads(parse, p) && Describes(parse, lines, rows)
    ensures forall i | 0 <= i < |rows| ::
      lines[i + 1] == RowLine(rows[i]) && ValidCoverageIdentity(p, rows[i].identity)
  {
    forall i | 0 <= i < |rows| ensures lines[i + 1] == RowLine(rows[i]) && ValidCoverageIdentity(p, rows[i].identity) {
      var line := lines[i + 1];
      assert parse(line) == Some(rows[i]) && parse(line) == RowOf(p, line);
      ReadIsRow(p, line);
    }
  }

  /** Printed rows make a profile when their lines are not too long. */
  lemma {:induction false} PrintIsProfile(p: int -> bool, parse: RowParser, rows: seq<Row>)
    requires Reads(parse, p)
    requires forall i | 0 <= i < |rows| ::
      ValidCoverageIdentity(p, rows[i].identity) && |RowLine(rows[i])| + 1 <= MAX_COVERAGE_LINE_BYTES
    ensures Describes(parse, Lines(Print(rows)), rows)
  {
    var lines := PrintedLines(rows) + [[]];
    ModeText();
    forall i: nat | i < |rows| ensures LineAt(lines, rows, i) && GoodLine(parse, lines[i + 1], rows[i]) {
      PrintedAt(rows, i);
      PrintedIsGood(p, parse, rows[i]);
    }
    PrintDescribes(parse, lines, rows);
    PrintJoins(rows);
    SplitJoin(lines, LF);
  }

  lemma {:induction false} PrintedAt(rows: seq<Row>, i: nat)
    requires i < |rows|
    ensures LineAt(PrintedLines(rows) + [[]], rows, i)
  {
  }

  lemma {:induction false} PrintedIsGood(p: int -> bool, parse: RowParser, row: Row)
    requires Reads(parse, p) && ValidCoverageIdentity(p, row.identity)
    requires |RowLine(row)| + 1 <= MAX_COVERAGE_LINE_BYTES
    ensures GoodLine(parse, RowLine(row), row)
  {
    ParsedRow(p, parse, row);
    RowIsOneLine(p, row);
  }

  ghost predicate LineAt(lines: seq<bytes>, rows: seq<Row>, i: nat)
    requires i < |rows|
  {
    i + 1 < |lines| && lines[i + 1] == RowLine(rows[i])
  }

  ghost predicate GoodLine(parse: RowParser, line: bytes, row: Row) {
    LF !in line && |line| + 1 <= MAX_COVERAGE_LINE_BYTES && parse(line) == Some(row)
  }

  lemma {:induction false} PrintDescribes(parse: RowParser, lines: seq<bytes>, rows: seq<Row>)
    requires |lines| == |rows| + 2 && lines[0] == MODE && lines[|rows| + 1] == [] && LF !in MODE
    requires forall i | 0 <= i < |rows| :: LineAt(lines, rows, i) && GoodLine(parse, lines[i + 1], rows[i])
    ensures Describes(parse, lines, rows) && forall line <- lines :: LF !in line
  {
    forall k | 1 <= k <= |rows|
      ensures LF !in lines[k] && |lines[k]| + 1 <= MAX_COVERAGE_LINE_BYTES && parse(lines[k]) == Some(rows[k - 1])
    {
      assert LineAt(lines, rows, k - 1) && GoodLine(parse, lines[(k - 1) + 1], rows[k - 1]);
    }
  }

  lemma {:induction false} ParsedRow(p: int -> bool, parse: RowParser, row: Row)
    requires Reads(parse, p) && ValidCoverageIdentity(p, row.identity)
    ensures parse(RowLine(row)) == Some(row)
  {
    RowIsRead(p, row);
    assert parse(RowLine(row)) == RowOf(p, RowLine(row));
  }

  lemma {:induction false} RowIsOneLine(p: int -> bool, row: Row)
    requires ValidCoverageIdentity(p, row.identity)
    ensures LF !in RowLine(row)
  {
    var path, r := RangeOfIdentity(p, row.identity);
    var s := PrintableTexts(p, path);
    TextIsOneLine(p, s);
    PositionIsOneLine(r);
    DigitsHold(row.statements as nat, LF);
    DigitsHold(row.count as nat, LF);
    assert LF !in row.identity;
  }

  lemma {:induction false} PositionIsOneLine(r: Range)
    ensures LF !in Position(r)
  {
    DigitsHold(r.startLine as nat, LF);
    DigitsHold(r.startColumn as nat, LF);
    DigitsHold(r.endLine as nat, LF);
    DigitsHold(r.endColumn as nat, LF);
    var c := Digits(r.endLine as nat) + [DOT] + Digits(r.endColumn as nat);
    var b := Digits(r.startColumn as nat) + [COMMA] + c;
    assert LF !in c;
    assert LF !in b;
  }

  lemma {:induction false} TextIsOneLine(p: int -> bool, s: seq<scalar>)
    requires forall i | 0 <= i < |s| :: IsPrint(p, s[i])
    ensures LF !in EncodeAll(s)
    decreases |s|
  {
    if s != [] {
      TextIsOneLine(p, s[1..]);
      NoFeed(s[0]);
    }
  }

  lemma {:induction false} NoFeed(r: scalar)
    requires r != 0x0A
    ensures LF !in Encode(r)
  {
    assert Scalar(r);
  }
}

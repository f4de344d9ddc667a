/** Coverage rows and profiles (goverify/coverage.go), as functions of the bytes. */
module Coverage {
  import opened Options
  import opened ExactWrite
  import opened Utf8
  import opened TextLines
  import opened Decimal

  const MAX_COVERAGE_BYTES := 0x400_0000
  const MAX_COVERAGE_LINE_BYTES := 0x1_0000
  const MINIMUM_COVERAGE_ROW_BYTES := 14
  const MAX_COVERAGE_ROWS := MAX_COVERAGE_BYTES / MINIMUM_COVERAGE_ROW_BYTES
  const MAX_UINT64 := 0xFFFF_FFFF_FFFF_FFFF

  const SPACE: byte := 0x20
  const COLON: byte := 0x3A
  const DOT: byte := 0x2E
  const COMMA: byte := 0x2C
  const MODE: bytes := [0x6D, 0x6F, 0x64, 0x65, 0x3A, 0x20, 0x61, 0x74, 0x6F, 0x6D, 0x69, 0x63]   // mode: atomic

  newtype uint64 = x: int | 0 <= x <= MAX_UINT64

  // ----- numbers -----

  /** What `unsignedDecimal` accepts. */
  function UnsignedDecimal(value: bytes): Option<uint64> {
    if Canonical(value) && Value(value) <= MAX_UINT64 then Some(Value(value) as uint64) else None
  }

  /** Exactly the canonical numerals of the numbers that fit. */
  lemma {:induction false} UnsignedDecimalExact(value: bytes, n: uint64)
    ensures UnsignedDecimal(value) == Some(n) <==> value == Digits(n as nat)
  {
    DigitsAreCanonical(n as nat);
    if Canonical(value) {
      CanonicalIsDigits(value);
    }
  }

  lemma {:induction false} ValuePrefix(value: bytes, i: nat)
    requires AllDigits(value) && i <= |value|
    ensures Value(value[..i]) <= Value(value)
    decreases |value|
  {
    if i < |value| {
      var m := |value| - 1;
      ValuePrefix(value[..m], i);
      assert value[..m][..i] == value[..i];
    } else {
      assert value[..i] == value;
    }
  }

  /** The accumulator of 64 bits refuses a digit exactly when the number would no longer fit. */
  method ParseUnsignedDecimal(value: bytes) returns (r: Option<uint64>)
    ensures r == UnsignedDecimal(value)
  {
    if |value| == 0 || (|value| > 1 && value[0] == ZERO) {
      return None;
    }
    var result: uint64 := 0;
    for i := 0 to |value|
      invariant AllDigits(value[..i]) && Value(value[..i]) == result as int
    {
      var character := value[i];
      if character < ZERO || character > 0x39 {
        assert !IsDigit(value[i]);
        return None;
      }
      var digit := (character - ZERO) as uint64;
      assert value[..i + 1][..i] == value[..i];
      assert Value(value[..i + 1]) == result as int * 10 + digit as int;
      if result > (MAX_UINT64 as uint64 - digit) / 10 {
        if AllDigits(value) {
          ValuePrefix(value, i + 1);
        }
        return None;
      }
      result := result * 10 + digit;
    }
    assert value[..|value|] == value;
    return Some(result);
  }

  // ----- fields -----

  datatype Fields = Fields(identity: bytes, statements: bytes, count: bytes)

  function CoverageFields(line: bytes): Option<Fields> {
    var countSeparator := LastIndexByte(line, SPACE);
    if countSeparator <= 0 || countSeparator == |line| - 1 then None
    else
      var statementSeparator := LastIndexByte(line[..countSeparator], SPACE);
      if statementSeparator <= 0 || statementSeparator == countSeparator - 1 then None
      else
        Some(Fields(line[..statementSeparator], line[statementSeparator + 1..countSeparator],
                    line[countSeparator + 1..]))
  }

  predicate Word(s: bytes) {
    s != [] && SPACE !in s
  }

  function LineOf(f: Fields): bytes {
    f.identity + [SPACE] + f.statements + [SPACE] + f.count
  }

  predicate ProperFields(f: Fields) {
    f.identity != [] && Word(f.statements) && Word(f.count)
  }

  /** A line has fields exactly when it is some text and two words after it. */
  lemma {:induction false} FieldsOfLine(f: Fields)
    requires ProperFields(f)
    ensures CoverageFields(LineOf(f)) == Some(f)
  {
    var head := f.identity + [SPACE] + f.statements;
    LastSeparator(head, f.count, SPACE);
    LastSeparator(f.identity, f.statements, SPACE);
    assert LineOf(f)[|f.identity| + 1..|head|] == head[|f.identity| + 1..];
    assert LineOf(f)[..|f.identity|] == f.identity;
  }

  lemma {:induction false} LineOfFields(line: bytes)
    requires CoverageFields(line).Some?
    ensures ProperFields(CoverageFields(line).value) && line == LineOf(CoverageFields(line).value)
  {
    var j := LastIndexByte(line, SPACE);
    var i := LastIndexByte(line[..j], SPACE);
    assert line[..j][i + 1..] == line[i + 1..j];
    assert line == line[..i] + [line[i]] + line[i + 1..j] + [line[j]] + line[j + 1..];
  }

  // ----- identities -----

  /** `path:line.column,line.column`. */
  predicate ValidPath(p: int -> bool, value: bytes) {
    value != [] && AllPrintable(p, value)
  }

  function PositiveDecimal(value: bytes): Option<uint64> {
    match UnsignedDecimal(value)
    case None => None
    case Some(n) => if n == 0 then None else Some(n)
  }

  /** A positive number, the separator, and something after it. */
  function DecimalPrefix(value: bytes, separator: byte): Option<(uint64, bytes)> {
    var index := IndexByte(value, separator);
    if index <= 0 || index == |value| - 1 then None
    else
      match PositiveDecimal(value[..index])
      case None => None
      case Some(n) => Some((n, value[index + 1..]))
  }

  predicate ValidPosition(position: bytes) {
    match DecimalPrefix(position, DOT)
    case None => false
    case Some(startLine) =>
      match DecimalPrefix(startLine.1, COMMA)
      case None => false
      case Some(startColumn) =>
        match DecimalPrefix(startColumn.1, DOT)
        case None => false
        case Some(endLine) => PositiveDecimal(endLine.1).Some?
  }

  predicate ValidCoverageIdentity(p: int -> bool, value: bytes) {
    var separator := LastIndexByte(value, COLON);
    && separator > 0 && separator != |value| - 1
    && ValidPath(p, value[..separator]) && ValidPosition(value[separator + 1..])
  }

  method ValidCoveragePath(p: int -> bool, value: bytes) returns (ok: bool)
    ensures ok <==> ValidPath(p, value)
  {
    if value == [] {
      return false;
    }
    var rest := value;
    assert rest == value;
    while rest != []
      invariant AllPrintable(p, value) <==> AllPrintable(p, rest)
      decreases |rest|
    {
      var d := DecodeRune(rest);
      if !Valid(rest) || !IsPrint(p, d.rune) {
        return false;
      }
      rest := rest[d.size..];
    }
    return true;
  }

  /** Line and column of a range's start and end. */
  datatype Range = Range(startLine: uint64, startColumn: uint64, endLine: uint64, endColumn: uint64)

  function Position(r: Range): bytes {
    Digits(r.startLine as nat) + [DOT] + (Digits(r.startColumn as nat) + [COMMA]
    + (Digits(r.endLine as nat) + [DOT] + Digits(r.endColumn as nat)))
  }

  predicate Positive(r: Range) {
    r.startLine > 0 && r.startColumn > 0 && r.endLine > 0 && r.endColumn > 0
  }

  lemma {:induction false} PrefixOfNumber(n: uint64, separator: byte, tail: bytes)
    requires !IsDigit(separator) && n > 0 && tail != []
    ensures DecimalPrefix(Digits(n as nat) + [separator] + tail, separator) == Some((n, tail))
  {
    var d := Digits(n as nat);
    DigitsHold(n as nat, separator);
    FirstSeparator(d, tail, separator);
    UnsignedDecimalExact(d, n);
  }

  lemma {:induction false} NumberOfPrefix(value: bytes, separator: byte)
    requires DecimalPrefix(value, separator).Some?
    ensures var (n, tail) := DecimalPrefix(value, separator).value;
      n > 0 && tail != [] && value == Digits(n as nat) + [separator] + tail
  {
    var index := IndexByte(value, separator);
    UnsignedDecimalExact(value[..index], PositiveDecimal(value[..index]).value);
    assert value == value[..index] + [separator] + value[index + 1..];
  }

  lemma {:induction false} PositionOfRange(r: Range)
    requires Positive(r)
    ensures ValidPosition(Position(r))
  {
    var d := Digits(r.endColumn as nat);
    var c := Digits(r.endLine as nat) + [DOT] + d;
    var b := Digits(r.startColumn as nat) + [COMMA] + c;
    assert Position(r) == Digits(r.startLine as nat) + [DOT] + b;
    PrefixOfNumber(r.startLine, DOT, b);
    PrefixOfNumber(r.startColumn, COMMA, c);
    PrefixOfNumber(r.endLine, DOT, d);
    UnsignedDecimalExact(d, r.endColumn);
  }

  lemma {:induction false} NoColon(r: Range)
    ensures COLON !in Position(r)
  {
    DigitsHold(r.startLine as nat, COLON);
    DigitsHold(r.startColumn as nat, COLON);
    DigitsHold(r.endLine as nat, COLON);
    DigitsHold(r.endColumn as nat, COLON);
    var c := Digits(r.endLine as nat) + [DOT] + Digits(r.endColumn as nat);
    var b := Digits(r.startColumn as nat) + [COMMA] + c;
    assert COLON !in c;
    assert COLON !in b;
  }

  lemma {:induction false} RangeOfPosition(position: bytes) returns (r: Range)
    requires ValidPosition(position)
    ensures Positive(r) && position == Position(r)
  {
    var startLine := DecimalPrefix(position, DOT).value;
    var startColumn := DecimalPrefix(startLine.1, COMMA).value;
    var endLine := DecimalPrefix(startColumn.1, DOT).value;
    var endColumn := PositiveDecimal(endLine.1).value;
    NumberOfPrefix(position, DOT);
    NumberOfPrefix(startLine.1, COMMA);
    NumberOfPrefix(startColumn.1, DOT);
    UnsignedDecimalExact(endLine.1, endColumn);
    r := Range(startLine.0, startColumn.0, endLine.0, endColumn);
  }

  /** Valid identities are exactly a printable path, a colon, and a range of positive numbers. */
  lemma {:induction false} IdentityOfRange(p: int -> bool, path: bytes, r: Range)
    requires ValidPath(p, path) && Positive(r)
    ensures ValidCoverageIdentity(p, path + [COLON] + Position(r))
  {
    PositionOfRange(r);
    NoColon(r);
    LastSeparator(path, Position(r), COLON);
  }

  lemma {:induction false} SplitAround(value: bytes, i: nat)
    requires i < |value|
    ensures value == value[..i] + [value[i]] + value[i + 1..]
  {
  }

  lemma {:induction false} RangeOfIdentity(p: int -> bool, value: bytes) returns (path: bytes, r: Range)
    requires ValidCoverageIdentity(p, value)
    ensures ValidPath(p, path) && Positive(r) && value == path + [COLON] + Position(r)
  {
    var i := LastIndexByte(value, COLON);
    SplitAround(value, i);
    path := value[..i];
    r := RangeOfPosition(value[i + 1..]);
  }

  // ----- rows -----

  datatype Row = Row(identity: bytes, statements: uint64, count: uint64)

  function RowOf(p: int -> bool, line: bytes): Option<Row> {
    match CoverageFields(line)
    case None => None
    case Some(f) =>
      if !ValidCoverageIdentity(p, f.identity) then None
      else
        match UnsignedDecimal(f.statements)
        case None => None
        case Some(statements) =>
          match UnsignedDecimal(f.count)
          case None => None
          case Some(count) => Some(Row(f.identity, statements, count))
  }

  /** A row takes at least 14 bytes with its line feed. */
  lemma {:induction false} RowsTakeSpace(p: int -> bool, line: bytes)
    requires RowOf(p, line).Some?
    ensures |line| + 1 >= MINIMUM_COVERAGE_ROW_BYTES
  {
    var f := CoverageFields(line).value;
    LineOfFields(line);
    IdentityTakesSpace(p, f.identity);
  }

  lemma {:induction false} IdentityTakesSpace(p: int -> bool, value: bytes)
    requires ValidCoverageIdentity(p, value)
    ensures |value| >= 9
  {
    var path, r := RangeOfIdentity(p, value);
    assert |Position(r)| >= 7;
  }

  // ----- profiles -----

  type RowParser = bytes -> Option<Row>

  /** `parse` reads a row; everything below holds of any way to read rows that takes 14 bytes or more. */
  ghost predicate Reads(parse: RowParser, p: int -> bool) {
    forall line {:trigger RowOf(p, line)} :: parse(line) == RowOf(p, line)
  }

  function Statements(rows: seq<Row>): nat {
    if rows == [] then 0
    else var m := |rows| - 1; Statements(rows[..m]) + rows[m].statements as nat
  }

  function Covered(rows: seq<Row>): nat {
    if rows == [] then 0
    else
      var m := |rows| - 1;
      Covered(rows[..m]) + if rows[m].count == 0 then 0 else rows[m].statements as nat
  }

  /** A row that counts no execution declares no statement. */
  predicate RowCovered(row: Row) {
    row.count == 0 ==> row.statements == 0
  }

  predicate Complete(rows: seq<Row>) {
    forall i | 0 <= i < |rows| :: RowCovered(rows[i])
  }

  lemma {:induction false} StatementsGrow(rows: seq<Row>, k: nat)
    requires k <= |rows|
    ensures Statements(rows[..k]) <= Statements(rows)
    decreases |rows|
  {
    if k == |rows| {
      assert rows[..k] == rows;
    } else {
      var m := |rows| - 1;
      StatementsGrow(rows[..m], k);
      assert rows[..m][..k] == rows[..k];
    }
  }

  /** Everything is covered exactly when every row is. */
  lemma {:induction false} CoveredExact(rows: seq<Row>)
    ensures Covered(rows) <= Statements(rows)
    ensures Covered(rows) == Statements(rows) <==> Complete(rows)
    decreases |rows|
  {
    if rows != [] {
      var m := |rows| - 1;
      CoveredExact(rows[..m]);
      assert Complete(rows) <==> Complete(rows[..m]) && RowCovered(rows[m]) by {
        assert forall i | 0 <= i < m :: rows[..m][i] == rows[i];
      }
    }
  }

  /** `lines` are a header, rows, and the empty piece after the last line feed. */
  ghost predicate Describes(parse: RowParser, lines: seq<bytes>, rows: seq<Row>) {
    && |lines| == |rows| + 2 && lines[0] == MODE && lines[|rows| + 1] == []
    && (forall i | 0 <= i <= |rows| :: |lines[i]| + 1 <= MAX_COVERAGE_LINE_BYTES)
    && (forall i | 0 <= i < |rows| :: parse(lines[i + 1]) == Some(rows[i]))
  }

  /** `rows` are the rows of the profile `source`. */
  ghost predicate Profile(parse: RowParser, source: bytes, rows: seq<Row>) {
    && |source| <= MAX_COVERAGE_BYTES
    && Describes(parse, Lines(source), rows)
    && 0 < Statements(rows) <= MAX_UINT64
  }

  lemma {:induction false} OneProfile(parse: RowParser, source: bytes, a: seq<Row>, b: seq<Row>)
    requires Profile(parse, source, a) && Profile(parse, source, b)
    ensures a == b
  {
    forall i | 0 <= i < |a| ensures a[i] == b[i] {
      assert parse(Lines(source)[i + 1]) == Some(a[i]);
    }
  }
}

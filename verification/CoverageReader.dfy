/** The coverage checker (goverify/coverage.go): it reads a stream in fragments of any size, and its verdict is a
function of the bytes alone. */
module CoverageReader {
  import opened Options
  import opened ExactWrite
  import opened TextLines
  import opened Coverage

  // ----- the stream -----

  datatype ReadStatus = Delimited | BufferFull | EndOfStream | Failed

  /** bufio.Reader: the bytes still to come, and whether the source has failed. */
  class Stream {
    var rest: bytes
    var broken: bool

    /** Takes bytes up to the next line feed, or fewer when the buffer is full, the stream ends, or the source fails. */
    method ReadSlice() returns (fragment: bytes, status: ReadStatus)
      modifies this
      ensures fragment + rest == old(rest)
      ensures broken <==> old(broken) || status == Failed
      ensures status == Delimited ==>
        fragment != [] && fragment[|fragment| - 1] == LF && LF !in fragment[..|fragment| - 1]
      ensures status != Delimited ==> LF !in fragment
      ensures status == BufferFull ==> fragment != []
      ensures status == EndOfStream ==> rest == []
    {
      var feed := IndexByte(rest, LF);
      var end := if feed < 0 then |rest| else feed;
      var taken: nat :| taken <= end;
      status := *;
      if status == Failed {
        broken := true;
      } else if status == BufferFull && taken > 0 {
      } else if feed >= 0 {
        taken, status := feed + 1, Delimited;
      } else {
        taken, status := |rest|, EndOfStream;
      }
      fragment := rest[..taken];
      rest := rest[taken..];
    }
  }

  // ----- lines -----

  datatype LineRead = Line(text: bytes) | EndOfFile | BadLine

  /** The next line, within the limits of the line and of the whole profile. */
  function NextLine(rest: bytes, count: nat): LineRead {
    var feed := IndexByte(rest, LF);
    if feed < 0 then (if rest == [] then EndOfFile else BadLine)
    else if count + feed + 1 > MAX_COVERAGE_BYTES || feed + 1 > MAX_COVERAGE_LINE_BYTES then BadLine
    else Line(rest[..feed])
  }

  /** A part that is over a limit makes the whole line so. */
  lemma {:induction false} TooLong(line: bytes, rest: bytes, count: nat)
    requires line != [] && LF !in line[..|line| - 1]
    requires count + |line| > MAX_COVERAGE_BYTES || |line| > MAX_COVERAGE_LINE_BYTES
    ensures NextLine(line + rest, count) == BadLine
  {
    assert (line + rest)[..|line| - 1] == line[..|line| - 1];
    IndexAfter(line + rest, LF, |line| - 1);
  }

  lemma {:induction false} WholeLine(line: bytes, rest: bytes, count: nat)
    requires line != [] && LF !in line[..|line| - 1] && line[|line| - 1] == LF
    requires count + |line| <= MAX_COVERAGE_BYTES && |line| <= MAX_COVERAGE_LINE_BYTES
    ensures NextLine(line + rest, count) == Line(line[..|line| - 1])
    ensures line + rest == line[..|line| - 1] + [LF] + rest
  {
    var m := |line| - 1;
    assert (line + rest)[..m] == line[..m];
    FirstIs(line + rest, LF, m);
  }

  lemma {:induction false} Gather(line: bytes, fragment: bytes, rest: bytes, before: bytes)
    requires before == fragment + rest
    ensures line + before == (line + fragment) + rest
    ensures rest == [] ==> line + before == line + fragment
  {
  }

  /** What a fragment says about the line whose beginning it continues. */
  lemma {:induction false} Fragment(line: bytes, fragment: bytes, status: ReadStatus, rest: bytes, before: bytes,
                                    count: nat)
    requires LF !in line && count + |line| <= MAX_COVERAGE_BYTES && |line| <= MAX_COVERAGE_LINE_BYTES
    requires before == fragment + rest
    requires if status == Delimited then
               fragment != [] && fragment[|fragment| - 1] == LF && LF !in fragment[..|fragment| - 1]
             else LF !in fragment
    requires status == EndOfStream ==> rest == []
    ensures var whole := line + fragment;
      && line + before == whole + rest
      && (if count + |whole| > MAX_COVERAGE_BYTES || |whole| > MAX_COVERAGE_LINE_BYTES then
            NextLine(line + before, count) == BadLine
          else if status == EndOfStream then
            NextLine(line + before, count) == (if whole == [] then EndOfFile else BadLine)
          else if status == Delimited then
            && whole != [] && whole[|whole| - 1] == LF
            && NextLine(line + before, count) == Line(whole[..|whole| - 1])
            && line + before == whole[..|whole| - 1] + [LF] + rest
          else LF !in whole)
  {
    Gather(line, fragment, rest, before);
    var whole := line + fragment;
    if whole != [] {
      var m := |whole| - 1;
      assert LF !in whole[..m] by {
        assert fragment == [] ==> whole[..m] == line[..m];
        assert fragment != [] ==> whole[..m] == line + fragment[..|fragment| - 1];
      }
      if count + |whole| > MAX_COVERAGE_BYTES || |whole| > MAX_COVERAGE_LINE_BYTES {
        TooLong(whole, rest, count);
      } else if status == Delimited {
        WholeLine(whole, rest, count);
      }
    }
  }

  // ----- the summary -----

  datatype Summary = Summary(rows: nat, statements: uint64, covered: uint64)

  /** The identity of the first row with statements that never ran. */
  function FirstUncovered(rows: seq<Row>): bytes {
    if rows == [] then []
    else
      var m := |rows| - 1;
      var first := FirstUncovered(rows[..m]);
      if first == [] && !RowCovered(rows[m]) then rows[m].identity else first
  }

  lemma {:induction false} FirstUncoveredExact(rows: seq<Row>, i: nat)
    requires forall j | 0 <= j < |rows| :: rows[j].identity != []
    requires i < |rows| && !RowCovered(rows[i]) && forall j | 0 <= j < i :: RowCovered(rows[j])
    ensures FirstUncovered(rows) == rows[i].identity
    decreases |rows|
  {
    var m := |rows| - 1;
    if i < m {
      FirstUncoveredExact(rows[..m], i);
    } else {
      AllCovered(rows[..m]);
    }
  }

  lemma {:induction false} AllCovered(rows: seq<Row>)
    requires forall j | 0 <= j < |rows| :: RowCovered(rows[j])
    ensures FirstUncovered(rows) == []
  {
    if rows != [] {
      AllCovered(rows[..|rows| - 1]);
    }
  }

  ghost predicate Sums(s: Summary, first: bytes, rows: seq<Row>) {
    && s.rows == |rows| && s.statements as nat == Statements(rows) && s.covered as nat == Covered(rows)
    && first == FirstUncovered(rows)
  }

  /** The summary after one more row. */
  function Tally(s: Summary, row: Row): Summary
    requires s.statements as nat + row.statements as nat <= MAX_UINT64 && s.covered <= s.statements
  {
    Summary(s.rows + 1, s.statements + row.statements, if row.count == 0 then s.covered else s.covered + row.statements)
  }

  lemma {:induction false} SumsNext(s: Summary, first: bytes, rows: seq<Row>, row: Row)
    requires Sums(s, first, rows)
    ensures s.covered <= s.statements
    ensures s.statements as nat + row.statements as nat <= MAX_UINT64 ==>
      Sums(Tally(s, row), if first == [] && !RowCovered(row) then row.identity else first, rows + [row])
  {
    assert (rows + [row])[..|rows|] == rows;
    CoveredExact(rows);
  }

  // ----- how far the profile has been read -----

  ghost predicate Spacious(parse: RowParser) {
    forall line :: parse(line).Some? ==> |line| + 1 >= MINIMUM_COVERAGE_ROW_BYTES
  }

  /** The first `count` bytes are the header and the lines of `rows`. */
  ghost predicate Reading(parse: RowParser, source: bytes, count: nat, rows: seq<Row>) {
    && 1 <= count <= |source| && count <= MAX_COVERAGE_BYTES && source[count - 1] == LF
    && Describes(parse, Lines(source[..count]), rows)
    && |MODE| + 1 + MINIMUM_COVERAGE_ROW_BYTES * |rows| <= count
  }

  lemma {:induction false} LineAhead(source: bytes, count: nat, text: bytes)
    requires count <= |source| && (count > 0 ==> source[count - 1] == LF)
    requires NextLine(source[count..], count) == Line(text)
    ensures count + |text| < |source| && source[count + |text|] == LF
    ensures count == 0 ==> Lines(source[..count + |text| + 1]) == [text] + [[]]
    ensures count > 0 ==> Lines(source[..count + |text| + 1]) == Lines(source[..count - 1]) + [text] + [[]]
    ensures count > 0 ==> Lines(source[..count]) == Lines(source[..count - 1]) + [[]]
  {
    LineText(source[count..], count, text);
    PieceTo(source, count, |text|, LF);
    if count > 0 { ClosedLines(source, count); }
  }

  lemma {:induction false} ClosedLines(source: bytes, count: nat)
    requires 0 < count <= |source| && source[count - 1] == LF
    ensures Lines(source[..count]) == Lines(source[..count - 1]) + [[]]
  {
    CloseLast(source[..count - 1], source[..count], LF);
  }

  lemma {:induction false} LineText(rest: bytes, count: nat, text: bytes)
    requires NextLine(rest, count) == Line(text)
    ensures |text| < |rest| && rest[|text|] == LF && rest[..|text|] == text && LF !in text
  {
  }

  lemma {:induction false} HeaderRead(parse: RowParser, source: bytes)
    requires NextLine(source, 0) == Line(MODE)
    ensures Reading(parse, source, |MODE| + 1, [])
  {
    assert source[0..] == source;
    LineAhead(source, 0, MODE);
  }

  lemma {:induction false} RowRead(parse: RowParser, source: bytes, count: nat, rows: seq<Row>, text: bytes)
    requires Spacious(parse) && Reading(parse, source, count, rows)
    requires NextLine(source[count..], count) == Line(text) && parse(text).Some?
    ensures Reading(parse, source, count + |text| + 1, rows + [parse(text).value])
  {
    LineAhead(source, count, text);
    var before := Lines(source[..count - 1]);
    var lines := Lines(source[..count + |text| + 1]);
    var more := rows + [parse(text).value];
    assert lines == before + [text] + [[]];
    assert forall i | 0 <= i <= |rows| :: lines[i] == Lines(source[..count])[i];
    forall i | 0 <= i < |more| ensures parse(lines[i + 1]) == Some(more[i]) {
      if i < |rows| {
        assert parse(Lines(source[..count])[i + 1]) == Some(rows[i]);
      }
    }
  }

  /** What has been read is how any description of the whole begins. */
  lemma {:induction false} ReadIsPrefix(parse: RowParser, source: bytes, count: nat, rows: seq<Row>, all: seq<Row>)
    requires Reading(parse, source, count, rows) && Describes(parse, Lines(source), all)
    ensures |rows| <= |all| && all[..|rows|] == rows
  {
    ClosedPiecesStay(source, count, LF);
    forall i | 0 <= i < |rows| ensures rows[i] == all[i] {
      ClosedPiece(source, count, LF, i + 1);
      assert parse(Lines(source[..count])[i + 1]) == Some(rows[i]);
      assert parse(Lines(source)[i + 1]) == Some(all[i]);
    }
  }

  /** When bytes are left, the next of them are a line of the profile. */
  lemma {:induction false} NextIsRow(parse: RowParser, source: bytes, count: nat, rows: seq<Row>, all: seq<Row>)
    requires Reading(parse, source, count, rows) && Describes(parse, Lines(source), all) && count < |source|
    ensures var feed := IndexByte(source[count..], LF);
      feed >= 0 && |rows| < |all| && parse(source[count..][..feed]) == Some(all[|rows|])
      && feed + 1 <= MAX_COVERAGE_LINE_BYTES
  {
    var feed := IndexByte(source[count..], LF);
    var before := Lines(source[..count - 1]);
    assert source[..count][..count - 1] == source[..count - 1];
    assert Lines(source[..count]) == before + [[]];
    if feed < 0 {
      OpenEnd(source, count, LF);
    } else {
      PieceTo(source, count, IndexByte(source[count..], LF), LF);
      ClosedPiece(source, count + feed + 1, LF, |rows| + 1);
    }
  }

  /** A line over a limit, or unterminated, is in no profile. */
  lemma {:induction false} BadLineFails(parse: RowParser, source: bytes, count: nat, rows: seq<Row>, all: seq<Row>)
    requires Reading(parse, source, count, rows) && NextLine(source[count..], count) == BadLine
    ensures !Profile(parse, source, all)
  {
    if Profile(parse, source, all) {
      NextIsRow(parse, source, count, rows, all);
    }
  }

  /** Nor is a row that does not parse, or that takes the sum beyond 64 bits. */
  lemma {:induction false} BadRowFails(parse: RowParser, source: bytes, count: nat, rows: seq<Row>, text: bytes,
                                       all: seq<Row>)
    requires Reading(parse, source, count, rows) && NextLine(source[count..], count) == Line(text)
    requires parse(text).Some? ==> Statements(rows) + parse(text).value.statements as nat > MAX_UINT64
    ensures !Profile(parse, source, all)
  {
    if Profile(parse, source, all) {
      ReadIsPrefix(parse, source, count, rows, all);
      NextIsRow(parse, source, count, rows, all);
      assert all[..|rows| + 1][..|rows|] == rows;
      StatementsGrow(all, |rows| + 1);
    }
  }

  lemma {:induction false} BadHeaderFails(parse: RowParser, source: bytes, all: seq<Row>)
    requires NextLine(source, 0) != Line(MODE)
    ensures !Profile(parse, source, all)
  {
    if IndexByte(source, LF) >= 0 {
      FirstLine(source, IndexByte(source, LF));
    } else {
      OpenEnd(source, 0, LF);
      assert source[0..] == source;
    }
  }

  lemma {:induction false} FirstLine(source: bytes, feed: nat)
    requires feed < |source| && source[feed] == LF && LF !in source[..feed]
    ensures |Lines(source)| > 1 && Lines(source)[0] == source[..feed]
  {
    assert source[0..] == source;
    PieceTo(source, 0, feed, LF);
    ClosedPiece(source, feed + 1, LF, 0);
  }

  // ----- the checker -----

  /** Where a read line leaves the stream and the counter. */
  ghost predicate Delivered(r: LineRead, source: bytes, start: nat, count: nat, rest: bytes, broken: bool) {
    && r == (if broken then BadLine else NextLine(source, start))
    && (r.Line? ==> count == start + |r.text| + 1 && source == r.text + [LF] + rest)
    && (r == EndOfFile ==> rest == source == [])
  }

  datatype Verdict = Accepted | Invalid | Incomplete(first: bytes)

  class Checker {
    const p: int -> bool
    const stream: Stream
    var count: nat
    var result: Summary
    var firstUncovered: bytes

    constructor (p: int -> bool, stream: Stream)
      ensures this.p == p && this.stream == stream
      ensures count == 0 && Sums(result, firstUncovered, [])
    {
      this.p := p;
      this.stream := stream;
      count := 0;
      result := Summary(0, 0, 0);
      firstUncovered := [];
    }

    /** Puts the fragments of a line together. */
    method ReadLine() returns (r: LineRead)
      requires !stream.broken && count <= MAX_COVERAGE_BYTES
      modifies this`count, stream
      ensures !stream.broken ==> r == NextLine(old(stream.rest), old(count))
      ensures stream.broken ==> r == BadLine
      ensures r.Line? ==> count == old(count) + |r.text| + 1 && old(stream.rest) == r.text + [LF] + stream.rest
      ensures r == EndOfFile ==> stream.rest == old(stream.rest) == []
    {
      var line: bytes := [];
      while true
        invariant line + stream.rest == old(stream.rest) && LF !in line
        invariant count == old(count) + |line| <= MAX_COVERAGE_BYTES && |line| <= MAX_COVERAGE_LINE_BYTES
        invariant !stream.broken
        decreases |stream.rest|
      {
        var done;
        line, done := ReadFragment(line, old(count));
        if done.Some? {
          return done.value;
        }
      }
    }

    /** One round of that loop: the line with one more fragment, and how it ends unless the buffer was full. */
    method ReadFragment(line: bytes, ghost start: nat) returns (whole: bytes, done: Option<LineRead>)
      requires !stream.broken && LF !in line
      requires count == start + |line| <= MAX_COVERAGE_BYTES && |line| <= MAX_COVERAGE_LINE_BYTES
      modifies this`count, stream
      ensures done.None? ==> !stream.broken && LF !in whole && whole + stream.rest == line + old(stream.rest)
      ensures done.None? ==> count == start + |whole| <= MAX_COVERAGE_BYTES && |whole| <= MAX_COVERAGE_LINE_BYTES
      ensures done.None? ==> |stream.rest| < |old(stream.rest)|
      ensures done.Some? ==> Delivered(done.value, line + old(stream.rest), start, count, stream.rest, stream.broken)
    {
      ghost var before := stream.rest;
      var fragment, status := stream.ReadSlice();
      Fragment(line, fragment, status, stream.rest, before, start);
      count := count + |fragment|;
      whole := line + fragment;
      if count > MAX_COVERAGE_BYTES || |line| > MAX_COVERAGE_LINE_BYTES - |fragment| {
        return whole, Some(BadLine);
      }
      if status == BufferFull {
        return whole, None;
      }
      if status == EndOfStream {
        return whole, Some(if |whole| != 0 then BadLine else EndOfFile);
      }
      if status == Failed || |whole| == 0 || whole[|whole| - 1] != LF {
        return whole, Some(BadLine);
      }
      return whole, Some(Line(whole[..|whole| - 1]));
    }

    /** Takes a row; the sums stay within 64 bits and `covered` within `statements`. */
    method Add(line: bytes, ghost parse: RowParser, ghost rows: seq<Row>) returns (ok: bool)
      requires Reads(parse, p) && Sums(result, firstUncovered, rows)
      modifies this`result, this`firstUncovered
      ensures ok <==> parse(line).Some? && |rows| != MAX_COVERAGE_ROWS
                      && Statements(rows) + parse(line).value.statements as nat <= MAX_UINT64
      ensures ok ==> Sums(result, firstUncovered, rows + [parse(line).value])
    {
      assert parse(line) == RowOf(p, line);
      var fields := CoverageFields(line);
      if fields.None? || !ValidCoverageIdentity(p, fields.value.identity) || result.rows == MAX_COVERAGE_ROWS {
        return false;
      }
      var statements := ParseUnsignedDecimal(fields.value.statements);
      if statements.None? || statements.value > MAX_UINT64 as uint64 - result.statements {
        return false;
      }
      var executions := ParseUnsignedDecimal(fields.value.count);
      if executions.None? {
        return false;
      }
      assert parse(line) == Some(Row(fields.value.identity, statements.value, executions.value));
      Count(fields.value.identity, statements.value, executions.value, rows);
      return true;
    }

    method Count(identity: bytes, statements: uint64, executions: uint64, ghost rows: seq<Row>)
      requires Sums(result, firstUncovered, rows) && Statements(rows) + statements as nat <= MAX_UINT64
      modifies this`result, this`firstUncovered
      ensures Sums(result, firstUncovered, rows + [Row(identity, statements, executions)])
    {
      SumsNext(result, firstUncovered, rows, Row(identity, statements, executions));
      result := result.(rows := result.rows + 1, statements := result.statements + statements);
      if executions != 0 {
        result := result.(covered := result.covered + statements);
      } else if statements != 0 && firstUncovered == [] {
        firstUncovered := identity;
      }
    }
  }

  /** What the caller learns: the verdict on the bytes, or a failure when the stream breaks. */
  ghost predicate Judges(parse: RowParser, source: bytes, broken: bool, verdict: Verdict, result: Summary) {
    && (broken ==> verdict == Invalid)
    && (verdict == Invalid ==> result == Summary(0, 0, 0))
    && (!broken && verdict == Invalid ==> NoProfile(parse, source))
    && (verdict != Invalid ==> exists rows ::
          && Profile(parse, source, rows)
          && Sums(result, FirstUncovered(rows), rows)
          && verdict == if Complete(rows) then Accepted else Incomplete(FirstUncovered(rows)))
  }

  /** Two runs over the same bytes come to the same verdict and the same summary, however the stream cut them. */
  lemma {:induction false} FragmentsAreInvisible(parse: RowParser, source: bytes, a: Verdict, r: Summary, b: Verdict,
                                                 s: Summary)
    requires Judges(parse, source, false, a, r) && Judges(parse, source, false, b, s)
    ensures a == b && r == s
  {
    if a != Invalid && b != Invalid {
      var x :| Profile(parse, source, x) && Sums(r, FirstUncovered(x), x)
               && a == if Complete(x) then Accepted else Incomplete(FirstUncovered(x));
      var y :| Profile(parse, source, y) && Sums(s, FirstUncovered(y), y)
               && b == if Complete(y) then Accepted else Incomplete(FirstUncovered(y));
      OneProfile(parse, source, x, y);
    }
  }

  /** A profile is accepted exactly when it declares statements and no row without executions declares any. */
  lemma {:induction false} AcceptedExact(parse: RowParser, source: bytes, verdict: Verdict, result: Summary)
    requires Judges(parse, source, false, verdict, result)
    ensures verdict == Accepted <==> exists rows :: Profile(parse, source, rows) && Complete(rows)
    ensures verdict != Invalid ==> 0 < result.covered as nat || verdict != Accepted
    ensures result.covered <= result.statements
  {
    if verdict != Invalid {
      var x :| Profile(parse, source, x) && Sums(result, FirstUncovered(x), x)
               && verdict == if Complete(x) then Accepted else Incomplete(FirstUncovered(x));
      CoveredExact(x);
      if rows :| Profile(parse, source, rows) && Complete(rows) {
        OneProfile(parse, source, rows, x);
      }
    }
  }

  method ReadSourceLine(owner: Checker, ghost source: bytes) returns (r: LineRead)
    requires !owner.stream.broken && owner.count <= MAX_COVERAGE_BYTES
    requires owner.count <= |source| && owner.stream.rest == source[owner.count..]
    modifies owner`count, owner.stream
    ensures !owner.stream.broken ==> r == NextLine(source[old(owner.count)..], old(owner.count))
    ensures owner.stream.broken ==> r == BadLine
    ensures r.Line? ==> owner.count == old(owner.count) + |r.text| + 1 <= |source|
                        && owner.stream.rest == source[owner.count..]
    ensures r == EndOfFile ==> |source| == old(owner.count)
  {
    ghost var count := owner.count;
    r := owner.ReadLine();
    if r.Line? {
      RestAfter(source, count, r.text, owner.stream.rest);
    }
  }

  /** The stream is sound, and the checker has read and summed up `rows`. */
  ghost predicate Ready(owner: Checker, parse: RowParser, source: bytes, rows: seq<Row>)
    reads owner, owner.stream
  {
    && !owner.stream.broken && Reading(parse, source, owner.count, rows)
    && owner.stream.rest == source[owner.count..] && Sums(owner.result, owner.firstUncovered, rows)
  }

  ghost predicate NoProfile(parse: RowParser, source: bytes) {
    forall all :: !Profile(parse, source, all)
  }

  datatype Progress = More | Finished | Stopped

  lemma {:induction false} BadLineEnds(parse: RowParser, source: bytes, count: nat, rows: seq<Row>)
    requires Reading(parse, source, count, rows) && NextLine(source[count..], count) == BadLine
    ensures NoProfile(parse, source)
  {
    forall all ensures !Profile(parse, source, all) {
      BadLineFails(parse, source, count, rows, all);
    }
  }

  method ReadRow(owner: Checker, ghost parse: RowParser, ghost source: bytes, ghost rows: seq<Row>)
    returns (progress: Progress, ghost next: seq<Row>)
    requires Reads(parse, owner.p) && Spacious(parse) && Ready(owner, parse, source, rows)
    modifies owner, owner.stream
    ensures progress == More ==> Ready(owner, parse, source, next) && old(owner.count) < owner.count
    ensures progress == Finished ==> old(owner.count) == |source| && owner.result == old(owner.result)
                                     && owner.firstUncovered == old(owner.firstUncovered) && !owner.stream.broken
    ensures progress == Stopped ==> owner.stream.broken || NoProfile(parse, source)
  {
    ghost var count := owner.count;
    var line := ReadSourceLine(owner, source);
    next := rows;
    if line == EndOfFile {
      return Finished, rows;
    }
    if line == BadLine {
      if !owner.stream.broken { BadLineEnds(parse, source, count, rows); }
      return Stopped, rows;
    }
    var ok := TakeRow(owner, line.text, parse, source, count, rows);
    if !ok {
      return Stopped, rows;
    }
    return More, rows + [parse(line.text).value];
  }

  /** A line that has been read, as a row. */
  method TakeRow(owner: Checker, text: bytes, ghost parse: RowParser, ghost source: bytes, ghost count: nat,
                 ghost rows: seq<Row>)
    returns (ok: bool)
    requires Reads(parse, owner.p) && Spacious(parse) && Reading(parse, source, count, rows)
    requires NextLine(source[count..], count) == Line(text) && Sums(owner.result, owner.firstUncovered, rows)
    modifies owner`result, owner`firstUncovered
    ensures ok ==> parse(text).Some? && Sums(owner.result, owner.firstUncovered, rows + [parse(text).value])
    ensures ok ==> Reading(parse, source, count + |text| + 1, rows + [parse(text).value])
    ensures !ok ==> NoProfile(parse, source)
  {
    ok := owner.Add(text, parse, rows);
    if ok {
      RowRead(parse, source, count, rows, text);
    } else {
      if parse(text).Some? { RoomForRow(parse, source, count, rows, text); }
      forall all ensures !Profile(parse, source, all) {
        BadRowFails(parse, source, count, rows, text, all);
      }
    }
  }

  /** Reads every row, unless a row is malformed or the stream breaks. */
  method ReadRows(owner: Checker, ghost parse: RowParser, ghost source: bytes) returns (ok: bool, ghost rows: seq<Row>)
    requires Reads(parse, owner.p) && Spacious(parse) && Ready(owner, parse, source, [])
    modifies owner, owner.stream
    ensures owner.stream.broken ==> !ok
    ensures ok ==> Reading(parse, source, |source|, rows) && Sums(owner.result, owner.firstUncovered, rows)
    ensures !ok ==> owner.stream.broken || NoProfile(parse, source)
  {
    rows := [];
    while true
      invariant Ready(owner, parse, source, rows)
      decreases |source| - owner.count
    {
      var progress;
      ghost var next;
      progress, next := ReadRow(owner, parse, source, rows);
      if progress != More {
        return progress == Finished, rows;
      }
      rows := next;
    }
  }

  /** The limit on rows is never what stops the reader: that many rows would not fit into the limit on bytes. */
  lemma {:induction false} RoomForRow(parse: RowParser, source: bytes, count: nat, rows: seq<Row>, text: bytes)
    requires Spacious(parse) && Reading(parse, source, count, rows)
    requires NextLine(source[count..], count) == Line(text) && parse(text).Some?
    ensures |rows| + 1 < MAX_COVERAGE_ROWS
  {
  }

  lemma {:induction false} RestAfter(source: bytes, count: nat, text: bytes, rest: bytes)
    requires count <= |source| && source[count..] == text + [LF] + rest
    ensures count + |text| + 1 <= |source| && rest == source[count + |text| + 1..]
  {
    assert source[count..][|text| + 1..] == rest;
  }

  method ReadHeader(owner: Checker, ghost parse: RowParser, ghost source: bytes) returns (ok: bool)
    requires !owner.stream.broken && owner.count == 0 && owner.stream.rest == source
    requires Sums(owner.result, owner.firstUncovered, [])
    modifies owner`count, owner.stream
    ensures ok ==> Ready(owner, parse, source, [])
    ensures !ok ==> owner.stream.broken || NoProfile(parse, source)
  {
    var mode := owner.ReadLine();
    if mode != Line(MODE) {
      if !owner.stream.broken {
        forall all ensures !Profile(parse, source, all) { BadHeaderFails(parse, source, all); }
      }
      return false;
    }
    HeaderRead(parse, source);
    assert source[0..] == source;
    RestAfter(source, 0, MODE, owner.stream.rest);
    return true;
  }

  /** Reads the whole stream, and judges what it has read. */
  method CheckStream(owner: Checker, ghost parse: RowParser, ghost source: bytes)
    returns (result: Summary, verdict: Verdict)
    requires Reads(parse, owner.p) && Spacious(parse)
    requires !owner.stream.broken && owner.count == 0 && owner.stream.rest == source
    requires Sums(owner.result, owner.firstUncovered, [])
    modifies owner, owner.stream
    ensures Judges(parse, source, owner.stream.broken, verdict, result)
  {
    result, verdict := Summary(0, 0, 0), Invalid;
    var ok := ReadHeader(owner, parse, source);
    if !ok {
      return;
    }
    ghost var rows;
    ok, rows := ReadRows(owner, parse, source);
    if !ok {
      return;
    }
    Conclusion(parse, source, owner.result, owner.firstUncovered, rows);
    if owner.result.rows == 0 || owner.result.statements == 0 {
      return;
    }
    result := owner.result;
    verdict := if result.covered != result.statements then Incomplete(owner.firstUncovered) else Accepted;
  }

  /** What the sums of a whole profile say about it. */
  lemma {:induction false} Conclusion(parse: RowParser, source: bytes, s: Summary, first: bytes, rows: seq<Row>)
    requires Reading(parse, source, |source|, rows) && Sums(s, first, rows)
    ensures s.rows == 0 || s.statements == 0 ==> NoProfile(parse, source)
    ensures s.rows != 0 && s.statements != 0 ==>
      Judges(parse, source, false, if s.covered != s.statements then Incomplete(first) else Accepted, s)
  {
    assert source[..|source|] == source;
    if s.rows == 0 || s.statements == 0 {
      NoStatements(parse, source, rows);
    } else {
      CoveredExact(rows);
      assert Profile(parse, source, rows);
    }
  }

  lemma {:induction false} RowsAreSpacious(p: int -> bool, parse: RowParser)
    requires Reads(parse, p)
    ensures Spacious(parse)
  {
    forall line ensures parse(line).Some? ==> |line| + 1 >= MINIMUM_COVERAGE_ROW_BYTES {
      assert parse(line) == RowOf(p, line);
      if RowOf(p, line).Some? { RowsTakeSpace(p, line); }
    }
  }

  method CheckCoverage(p: int -> bool, stream: Stream)
    returns (result: Summary, verdict: Verdict, ghost parse: RowParser)
    requires !stream.broken
    modifies stream
    ensures Reads(parse, p)
    ensures Judges(parse, old(stream.rest), stream.broken, verdict, result)
  {
    parse := line => RowOf(p, line);
    RowsAreSpacious(p, parse);
    var owner := new Checker(p, stream);
    result, verdict := CheckStream(owner, parse, stream.rest);
  }

  lemma {:induction false} NoStatements(parse: RowParser, source: bytes, rows: seq<Row>)
    requires Describes(parse, Lines(source), rows) && Statements(rows) == 0
    ensures NoProfile(parse, source)
  {
    forall all | Describes(parse, Lines(source), all) ensures all == rows {
      forall i | 0 <= i < |all| ensures all[i] == rows[i] {
        assert parse(Lines(source)[i + 1]) == Some(all[i]);
      }
    }
  }
}

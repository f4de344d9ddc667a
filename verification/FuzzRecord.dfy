/** The progress record of a fuzz run (goverify/campaign.go):
`fuzz: elapsed: E, execs: N (R/sec)`, optionally followed by `, new interesting: I (total: T)`. */
module FuzzRecord {
  import opened Options
  import opened ExactWrite
  import opened Decimal
  import opened TextLines
  import opened FuzzOutput

  const MAX_UINT64 := 0xFFFF_FFFF_FFFF_FFFF
  const COMMA: byte := 0x2C
  // "fuzz: elapsed: "
  const ELAPSED: bytes := [0x66, 0x75, 0x7A, 0x7A, 0x3A, 0x20, 0x65, 0x6C, 0x61, 0x70, 0x73, 0x65, 0x64, 0x3A, 0x20]
  const EXECS: bytes := [0x2C, 0x20, 0x65, 0x78, 0x65, 0x63, 0x73, 0x3A, 0x20]   // ", execs: "
  const OPEN: bytes := [0x20, 0x28]   // " ("
  const RATE: bytes := [0x2F, 0x73, 0x65, 0x63, 0x29]   // "/sec)"
  // ", new interesting: "
  const INTERESTING: bytes :=
    [0x2C, 0x20, 0x6E, 0x65, 0x77, 0x20, 0x69, 0x6E, 0x74, 0x65, 0x72, 0x65, 0x73, 0x74, 0x69, 0x6E, 0x67, 0x3A, 0x20]
  const TOTAL: bytes := [0x20, 0x28, 0x74, 0x6F, 0x74, 0x61, 0x6C, 0x3A, 0x20]   // " (total: "
  const CLOSE: byte := 0x29   // ")"

  /** bytes.Cut: the text before and after the first occurrence of a separator. */
  function Cut(s: bytes, separator: bytes): Option<(bytes, bytes)>
    requires separator != []
  {
    if |s| < |separator| then None
    else if s[..|separator|] == separator then Some(([], s[|separator|..]))
    else
      match Cut(s[1..], separator)
      case None => None
      case Some(parts) => Some(([s[0]] + parts.0, parts.1))
  }

  lemma {:induction false} CutJoins(s: bytes, separator: bytes)
    requires separator != [] && Cut(s, separator).Some?
    ensures s == Cut(s, separator).value.0 + separator + Cut(s, separator).value.1
  {
    if s[..|separator|] != separator {
      CutJoins(s[1..], separator);
      var parts := Cut(s[1..], separator).value;
      ConsJoin(s[0], parts.0, separator, parts.1);
      assert s == [s[0]] + s[1..];
    }
  }

  lemma {:induction false} ConsJoin(first: byte, head: bytes, separator: bytes, tail: bytes)
    ensures [first] + (head + separator + tail) == ([first] + head) + separator + tail
  {
  }

  lemma {:induction false} CutAt(head: bytes, separator: bytes, tail: bytes)
    requires separator != [] && separator[0] !in head
    ensures Cut(head + separator + tail, separator) == Some((head, tail))
    decreases |head|
  {
    var s := head + separator + tail;
    if head == [] {
      assert s[..|separator|] == separator && s[|separator|..] == tail;
    } else {
      CutAt(head[1..], separator, tail);
      assert s[1..] == head[1..] + separator + tail;
      assert s[..|separator|][0] == head[0] && head[0] in head;
      assert head == [head[0]] + head[1..];
    }
  }

  predicate HasSuffix(s: bytes, b: byte) {
    s != [] && s[|s| - 1] == b
  }

  // ----- the suffix -----

  predicate ValidFuzzExecutionSuffix(value: bytes) {
    value == [] ||
    match Cut(value, TOTAL)
    case None => false
    case Some(parts) =>
      && HasSuffix(parts.1, CLOSE)
      && INTERESTING <= value
      && Canonical(if INTERESTING <= parts.0 then parts.0[|INTERESTING|..] else parts.0)
      && Canonical(parts.1[..|parts.1| - 1])
  }

  function Suffix(interesting: nat, total: nat): bytes {
    INTERESTING + Digits(interesting) + TOTAL + (Digits(total) + [CLOSE])
  }

  /** A prefix in which the separator cannot begin is passed over. */
  lemma {:induction false} CutOver(prefix: bytes, tail: bytes, separator: bytes)
    requires |separator| >= 2 && separator[1] !in prefix
    requires tail != [] && tail[0] != separator[1] && Cut(tail, separator).Some?
    ensures var parts := Cut(tail, separator).value;
      Cut(prefix + tail, separator) == Some((prefix + parts.0, parts.1))
    decreases |prefix|
  {
    var parts := Cut(tail, separator).value;
    if prefix == [] {
      assert prefix + tail == tail && prefix + parts.0 == parts.0;
    } else {
      var s := prefix + tail;
      CutOver(prefix[1..], tail, separator);
      assert s[1..] == prefix[1..] + tail && s[0] == prefix[0];
      CutJoins(tail, separator);
      SecondByte(prefix, tail);
      assert s[..|separator|][1] == s[1];
      assert [prefix[0]] + (prefix[1..] + parts.0) == prefix + parts.0;
    }
  }

  lemma {:induction false} SecondByte(prefix: bytes, tail: bytes)
    requires prefix != [] && tail != []
    ensures (prefix + tail)[1] == tail[0] || (prefix + tail)[1] in prefix
  {
  }

  lemma {:induction false} SuffixIsValid(interesting: nat, total: nat)
    ensures ValidFuzzExecutionSuffix(Suffix(interesting, total))
  {
    DigitsAreCanonical(interesting);
    DigitsAreCanonical(total);
    NumberSuffix(Digits(interesting), Digits(total));
  }

  lemma {:induction false} NumberSuffix(i: bytes, t: bytes)
    requires Canonical(i) && Canonical(t)
    ensures ValidFuzzExecutionSuffix(INTERESTING + i + TOTAL + (t + [CLOSE]))
  {
    SuffixParts(i, t + [CLOSE]);
    assert (t + [CLOSE])[..|t|] == t;
    PartsAreValid(INTERESTING + i + TOTAL + (t + [CLOSE]), INTERESTING + i, t + [CLOSE]);
  }

  lemma {:induction false} PartsAreValid(value: bytes, head: bytes, tail: bytes)
    requires Cut(value, TOTAL) == Some((head, tail)) && INTERESTING <= value
    requires INTERESTING <= head && Canonical(head[|INTERESTING|..])
    requires HasSuffix(tail, CLOSE) && Canonical(tail[..|tail| - 1])
    ensures ValidFuzzExecutionSuffix(value)
  {
  }

  lemma {:induction false} SuffixParts(i: bytes, t: bytes)
    requires Canonical(i)
    ensures var value := INTERESTING + i + TOTAL + t;
      Cut(value, TOTAL) == Some((INTERESTING + i, t)) && INTERESTING <= value
    ensures INTERESTING <= INTERESTING + i && (INTERESTING + i)[|INTERESTING|..] == i
  {
    var tail := i + TOTAL + t;
    CutAt(i, TOTAL, t);
    CutOver(INTERESTING, tail, TOTAL);
    assert INTERESTING + i + TOTAL + t == INTERESTING + tail;
  }

  lemma {:induction false} SuffixOfValid(value: bytes) returns (interesting: nat, total: nat)
    requires ValidFuzzExecutionSuffix(value) && value != []
    ensures value == Suffix(interesting, total)
  {
    var parts := Cut(value, TOTAL).value;
    CutJoins(value, TOTAL);
    HeadIsNoNumber(value, parts.0);
    var i, t := parts.0[|INTERESTING|..], parts.1[..|parts.1| - 1];
    CanonicalIsDigits(i);
    CanonicalIsDigits(t);
    interesting, total := Value(i), Value(t);
    Rejoin(parts.0, parts.1);
  }

  lemma {:induction false} Rejoin(head: bytes, tail: bytes)
    requires INTERESTING <= head && HasSuffix(tail, CLOSE)
    ensures head == INTERESTING + head[|INTERESTING|..] && tail == tail[..|tail| - 1] + [CLOSE]
  {
  }

  lemma {:induction false} HeadIsNoNumber(value: bytes, head: bytes)
    requires INTERESTING <= value && head <= value
    ensures !Canonical(head)
  {
    assert value[0] == value[..|INTERESTING|][0];
    assert head == [] || head[0] == value[0];
  }

  // ----- the line -----

  datatype Fields = Fields(elapsed: bytes, digits: bytes, rate: bytes, suffix: bytes)

  function FuzzExecutionFields(line: bytes): Option<Fields> {
    if !(ELAPSED <= line) then None
    else
      match Cut(line[|ELAPSED|..], EXECS)
      case None => None
      case Some(first) =>
        match Cut(first.1, OPEN)
        case None => None
        case Some(second) =>
          match Cut(second.1, RATE)
          case None => None
          case Some(third) => Some(Fields(first.0, second.0, third.0, third.1))
  }

  /** strconv.ParseUint in base 10 with 64 bits. */
  function ParseUint(digits: bytes): Option<nat> {
    if digits != [] && AllDigits(digits) && Value(digits) <= MAX_UINT64 then Some(Value(digits)) else None
  }

  /** `duration` stands for time.ParseDuration with a result that is not negative. */
  function ParseFuzzExecutionLine(duration: bytes -> bool, line: bytes): Option<nat> {
    match FuzzExecutionFields(line)
    case None => None
    case Some(f) =>
      if |f.digits| == 0 || (|f.digits| > 1 && f.digits[0] == ZERO) || !Canonical(f.rate)
         || !ValidFuzzExecutionSuffix(f.suffix) || !duration(f.elapsed) then None
      else
        match ParseUint(f.digits)
        case None => None
        case Some(n) => if n == 0 then None else Some(n)
  }

  function RecordLine(elapsed: bytes, executions: nat, rate: nat, suffix: bytes): bytes {
    ELAPSED + (elapsed + EXECS + (Digits(executions) + OPEN + (Digits(rate) + RATE + suffix)))
  }

  /** A duration is never written with a comma. */
  ghost predicate PlainDurations(duration: bytes -> bool) {
    forall elapsed | duration(elapsed) :: COMMA !in elapsed
  }

  /** Every well-formed record is read back, with its number of executions. */
  lemma {:induction false} RecordIsRead(duration: bytes -> bool, elapsed: bytes, executions: nat, rate: nat,
                                        suffix: bytes)
    requires PlainDurations(duration) && duration(elapsed) && 1 <= executions <= MAX_UINT64
    requires ValidFuzzExecutionSuffix(suffix)
    ensures ParseFuzzExecutionLine(duration, RecordLine(elapsed, executions, rate, suffix)) == Some(executions)
  {
    RecordFields(elapsed, executions, rate, suffix);
    DigitsAreCanonical(executions);
    DigitsAreCanonical(rate);
    ParseFields(duration, RecordLine(elapsed, executions, rate, suffix),
                Fields(elapsed, Digits(executions), Digits(rate), suffix));
  }

  lemma {:induction false} ParseFields(duration: bytes -> bool, line: bytes, f: Fields)
    requires FuzzExecutionFields(line) == Some(f) && duration(f.elapsed)
    requires Canonical(f.digits) && 1 <= Value(f.digits) <= MAX_UINT64 && Canonical(f.rate)
    requires ValidFuzzExecutionSuffix(f.suffix)
    ensures ParseFuzzExecutionLine(duration, line) == Some(Value(f.digits))
  {
  }

  lemma {:induction false} RecordFields(elapsed: bytes, executions: nat, rate: nat, suffix: bytes)
    requires COMMA !in elapsed
    ensures FuzzExecutionFields(RecordLine(elapsed, executions, rate, suffix))
         == Some(Fields(elapsed, Digits(executions), Digits(rate), suffix))
  {
    var third := Digits(rate) + RATE + suffix;
    var second := Digits(executions) + OPEN + third;
    var first := elapsed + EXECS + second;
    DigitsHold(executions, OPEN[0]);
    DigitsHold(rate, RATE[0]);
    CutAt(elapsed, EXECS, second);
    CutAt(Digits(executions), OPEN, third);
    CutAt(Digits(rate), RATE, suffix);
    assert (ELAPSED + first)[|ELAPSED|..] == first && (ELAPSED + first)[..|ELAPSED|] == ELAPSED;
  }

  /** Nothing else is read. */
  lemma {:induction false} ReadIsRecord(duration: bytes -> bool, line: bytes)
    returns (elapsed: bytes, rate: nat, suffix: bytes)
    requires ParseFuzzExecutionLine(duration, line).Some?
    ensures var n := ParseFuzzExecutionLine(duration, line).value;
      && 1 <= n <= MAX_UINT64 && duration(elapsed) && ValidFuzzExecutionSuffix(suffix)
      && line == RecordLine(elapsed, n, rate, suffix)
  {
    var f := FuzzExecutionFields(line).value;
    FieldsJoin(line);
    CanonicalIsDigits(f.digits);
    CanonicalIsDigits(f.rate);
    elapsed, rate, suffix := f.elapsed, Value(f.rate), f.suffix;
  }

  lemma {:induction false} FieldsJoin(line: bytes)
    requires FuzzExecutionFields(line).Some?
    ensures var f := FuzzExecutionFields(line).value;
      line == ELAPSED + (f.elapsed + EXECS + (f.digits + OPEN + (f.rate + RATE + f.suffix)))
  {
    var first := Cut(line[|ELAPSED|..], EXECS).value;
    var second := Cut(first.1, OPEN).value;
    CutJoins(line[|ELAPSED|..], EXECS);
    CutJoins(first.1, OPEN);
    CutJoins(second.1, RATE);
    assert line == ELAPSED + line[|ELAPSED|..];
  }

  function Recorder(duration: bytes -> bool): bytes -> Option<nat> {
    line => ParseFuzzExecutionLine(duration, line)
  }

  /** The terminal count of a control: that of the last record before a `PASS` and a final `ok` line. */
  method TerminalExecutions(duration: bytes -> bool, output: bytes) returns (result: Option<nat>)
    ensures match result
            case Some(n) =>
              EndsOk(Content(output)) && 1 <= n <= MAX_UINT64 &&
              exists i :: IsLastPair(Content(output), i, Recorder(duration))
                          && Recorder(duration)(Content(output)[i]) == Some(n)
            case None => !EndsOk(Content(output)) || forall i :: !IsPair(Content(output), i, Recorder(duration))
    ensures result == Terminal(output, Recorder(duration))
  {
    result := TerminalFuzzExecutions(output, Recorder(duration));
  }

  /** Every count can be reported: the record, `PASS` and `ok` on lines of their own. */
  lemma {:induction false} CountIsReported(duration: bytes -> bool, elapsed: bytes, executions: nat)
    returns (output: bytes)
    requires PlainDurations(duration) && duration(elapsed) && LF !in elapsed && 1 <= executions <= MAX_UINT64
    ensures Terminal(output, Recorder(duration)) == Some(executions)
  {
    var record := RecordLine(elapsed, executions, 0, []);
    output := Join([record, PASS, OK], LF);
    RecordIsRead(duration, elapsed, executions, 0, []);
    RecordIsPlain(elapsed, executions);
    SplitJoin([record, PASS, OK], LF);
    ThreeLines(record, PASS, OK);
    LastOfThree([record, PASS, OK], Recorder(duration));
  }

  lemma {:induction false} RecordIsPlain(elapsed: bytes, executions: nat)
    requires LF !in elapsed
    ensures var record := RecordLine(elapsed, executions, 0, []); LF !in record && HasSuffix(record, CLOSE)
  {
    DigitsHold(executions, LF);
    DigitsHold(0, LF);
    assert RecordLine(elapsed, executions, 0, [])
        == ELAPSED + (elapsed + EXECS + (Digits(executions) + OPEN + (Digits(0) + RATE)));
  }

  lemma {:induction false} ThreeLines(a: bytes, b: bytes, c: bytes)
    requires a != [] && b != [] && c != [] && a[|a| - 1] != CR && b[|b| - 1] != CR && c[|c| - 1] != CR
    ensures NonBlank([a, b, c]) == [a, b, c]
  {
    NonBlankLast([], a);
    NonBlankLast([a], b);
    NonBlankLast([a, b], c);
    assert [a] + [b] == [a, b] && [a, b] + [c] == [a, b, c];
  }

  lemma {:induction false} LastOfThree(r: seq<bytes>, record: bytes -> Option<nat>)
    requires |r| == 3 && r[1] == PASS && r[2] == OK && record(r[0]).Some?
    ensures EndsOk(r) && LastPair(r, record) == record(r[0])
  {
    assert IsPair(r, 0, record);
  }
}

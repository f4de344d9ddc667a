/** The terminal record of a fuzz run: a backward scan over raw output that agrees with reading the
output forwards, line by line. */
module FuzzOutput {
  import opened Options
  import opened ExactWrite
  import opened TextLines

  const CR: byte := 13
  const PASS: bytes := [80, 65, 83, 83]
  const OK: bytes := [111, 107, 32, 32, 9]

  // ----- reading forwards -----

  function Strip(line: bytes): bytes {
    if line != [] && line[|line| - 1] == CR then Strip(line[..|line| - 1]) else line
  }

  function NonBlank(lines: seq<bytes>): seq<bytes> {
    if lines == [] then []
    else
      var m := |lines| - 1;
      NonBlank(lines[..m]) + if Strip(lines[m]) == [] then [] else [Strip(lines[m])]
  }

  /** The lines that count: carriage returns at their ends dropped, and then the blank ones. */
  function Content(s: bytes): seq<bytes> {
    NonBlank(Lines(s))
  }

  predicate IsPair(r: seq<bytes>, i: int, record: bytes -> Option<nat>) {
    0 <= i < |r| - 2 && r[i + 1] == PASS && record(r[i]).Some?
  }

  ghost predicate IsLastPair(r: seq<bytes>, i: int, record: bytes -> Option<nat>) {
    IsPair(r, i, record) && forall j | IsPair(r, j, record) :: j <= i
  }

  predicate EndsOk(r: seq<bytes>) {
    r != [] && OK <= r[|r| - 1]
  }

  /** The count of the last pair of a record and `PASS`. */
  function LastPair(r: seq<bytes>, record: bytes -> Option<nat>): Option<nat> {
    var i := |r| - 3;
    if i < 0 then None
    else if IsPair(r, i, record) then record(r[i])
    else LastPair(r[..|r| - 1], record)
  }

  /** The count that a whole output reports: that of its last pair, if it ends in an `ok` line. */
  function Terminal(output: bytes, record: bytes -> Option<nat>): Option<nat> {
    if EndsOk(Content(output)) then LastPair(Content(output), record) else None
  }

  lemma {:induction false} LastPairExact(r: seq<bytes>, record: bytes -> Option<nat>)
    ensures match LastPair(r, record)
            case Some(n) => exists i :: IsLastPair(r, i, record) && record(r[i]) == Some(n)
            case None => forall i :: !IsPair(r, i, record)
  {
    var m := |r| - 1;
    if m < 2 {
    } else if IsPair(r, m - 2, record) {
      assert IsLastPair(r, m - 2, record);
    } else {
      LastPairExact(r[..m], record);
      assert forall i :: IsPair(r, i, record) <==> IsPair(r[..m], i, record);
      if i :| IsLastPair(r[..m], i, record) && record(r[..m][i]) == LastPair(r, record) {
        assert IsLastPair(r, i, record);
      }
    }
  }

  // ----- what the end of a text says about its lines -----

  lemma {:induction false} NonBlankLast(a: seq<bytes>, l: bytes)
    ensures NonBlank(a + [l]) == NonBlank(a) + if Strip(l) == [] then [] else [Strip(l)]
  {
    assert (a + [l])[..|a|] == a;
  }

  lemma {:induction false} DropLast(s: bytes)
    requires s != [] && (s[|s| - 1] == LF || s[|s| - 1] == CR)
    ensures Content(s[..|s| - 1]) == Content(s)
  {
    var r := Lines(s[..|s| - 1]);
    var m := |r| - 1;
    if s[|s| - 1] == LF {
      NonBlankLast(r, []);
    } else {
      assert (r[m] + [CR])[..|r[m]|] == r[m];
      NonBlankLast(r[..m], r[m] + [CR]);
      NonBlankLast(r[..m], r[m]);
      assert r[..m] + [r[m]] == r;
    }
  }

  // ----- scanning backwards -----

  /** `line` is the last line of `r`, and the text before `start` holds the others. */
  ghost predicate TakesLast(output: bytes, r: seq<bytes>, line: bytes, start: nat) {
    start <= |output| &&
    if r == [] then line == [] && Content(output[..start]) == []
    else line == r[|r| - 1] && Content(output[..start]) == r[..|r| - 1]
  }

  function TrimReturn(line: bytes): bytes {
    if line != [] && line[|line| - 1] == CR then line[..|line| - 1] else line
  }

  method PreviousOutputLine(output: bytes, end: nat) returns (line: bytes, start: nat)
    requires end <= |output|
    ensures end > 0 ==> start < end
    ensures start <= end && TakesLast(output, Content(output[..end]), line, start)
  {
    var stop: nat := end;
    while stop != 0 && (output[stop - 1] == LF || output[stop - 1] == CR)
      invariant stop <= end && Content(output[..stop]) == Content(output[..end])
    {
      DropLastAt(output, stop);
      stop := stop - 1;
    }
    start := stop;
    while start != 0 && output[start - 1] != LF
      invariant start <= stop && forall i | start <= i < stop :: output[i] != LF
    {
      start := start - 1;
    }
    line := TrimReturn(output[start..stop]);
    LastLineAt(output, start, stop);
  }

  lemma {:induction false} DropLastAt(output: bytes, stop: nat)
    requires 0 < stop <= |output| && (output[stop - 1] == LF || output[stop - 1] == CR)
    ensures Content(output[..stop - 1]) == Content(output[..stop])
  {
    assert output[..stop][..stop - 1] == output[..stop - 1];
    DropLast(output[..stop]);
  }

  lemma {:induction false} LastLineAt(output: bytes, start: nat, stop: nat)
    requires start <= stop <= |output| && (start > 0 ==> output[start - 1] == LF)
    requires (forall i | start <= i < stop :: output[i] != LF)
    requires (stop > 0 ==> output[stop - 1] != LF && output[stop - 1] != CR)
    ensures TakesLast(output, Content(output[..stop]), output[start..stop], start)
  {
    LastLine(output[..stop], start);
    assert output[..stop][start..] == output[start..stop] && output[..stop][..start] == output[..start];
  }

  lemma {:induction false} LastLine(s: bytes, start: nat)
    requires start <= |s| && (start > 0 ==> s[start - 1] == LF) && forall i | start <= i < |s| :: s[i] != LF
    requires s != [] ==> s[|s| - 1] != LF && s[|s| - 1] != CR
    ensures s == [] ==> Content(s) == []
    ensures s != [] ==> start < |s| && Content(s) == Content(s[..start]) + [s[start..]]
  {
    if s == [] {
      NonBlankLast([], []);
    } else {
      OpenPiece(s, start, LF);
      LinesBefore(s, start);
      NonBlankLast(if start == 0 then [] else Lines(s[..start - 1]), s[start..]);
      assert Strip(s[start..]) == s[start..];
    }
  }

  lemma {:induction false} LinesBefore(s: bytes, start: nat)
    requires start <= |s| && (start > 0 ==> s[start - 1] == LF)
    ensures Content(s[..start]) == NonBlank(if start == 0 then [] else Lines(s[..start - 1]))
  {
    if start > 0 {
      assert s[..start][..start - 1] == s[..start - 1];
      DropLast(s[..start]);
    } else {
      assert s[..0] == [];
      NonBlankLast([], []);
    }
  }

  /** `k` lines are left and every pair that is not among them has been ruled out. */
  ghost predicate Left(output: bytes, position: int, r: seq<bytes>, k: int, record: bytes -> Option<nat>) {
    && 0 <= position <= |output| && 0 <= k < |r| && Content(output[..position]) == r[..k]
    && forall j | IsPair(r, j, record) :: j + 1 < k
  }

  lemma {:induction false} LeftNext(output: bytes, from: int, r: seq<bytes>, k: int, record: bytes -> Option<nat>,
                                    line: bytes, position: nat)
    requires Left(output, from, r, k, record) && TakesLast(output, Content(output[..from]), line, position)
    requires k > 0 && line != PASS
    ensures Left(output, position, r, k - 1, record)
  {
    assert r[..k][..k - 1] == r[..k - 1];
  }

  /** A `PASS` line is followed up: the line before it either completes the last pair or rules it out. */
  lemma {:induction false} LeftPass(output: bytes, from: int, r: seq<bytes>, k: int, record: bytes -> Option<nat>,
                                    line: bytes, position: nat, terminal: bytes, before: nat)
    requires Left(output, from, r, k, record) && TakesLast(output, Content(output[..from]), line, position)
    requires TakesLast(output, Content(output[..position]), terminal, before)
    requires record([]).None? && line == PASS
    ensures k > 0
    ensures record(terminal).Some? ==> IsLastPair(r, k - 2, record) && terminal == r[k - 2]
    ensures record(terminal).None? ==> Left(output, position, r, k - 1, record)
  {
    assert r[..k] != [];
    assert r[..k][..k - 1] == r[..k - 1];
    if record(terminal).Some? {
      assert r[..k - 1] != [];
      assert r[..k - 1][k - 2] == r[k - 2];
      assert IsPair(r, k - 2, record);
    } else {
      if k >= 2 { assert terminal == r[..k - 1][k - 2] == r[k - 2]; }
    }
  }

  /** The count comes from the last valid record that is directly followed by `PASS`, before a final
      `ok` line; `record` is the parser of one fuzz line, which rejects the empty line. */
  method TerminalFuzzExecutions(output: bytes, record: bytes -> Option<nat>) returns (result: Option<nat>)
    requires record([]).None?
    ensures match result
            case Some(n) =>
              EndsOk(Content(output)) &&
              exists i :: IsLastPair(Content(output), i, record) && record(Content(output)[i]) == Some(n)
            case None => !EndsOk(Content(output)) || forall i :: !IsPair(Content(output), i, record)
    ensures result == Terminal(output, record)
  {
    ghost var r := Content(output);
    LastPairExact(r, record);
    assert output[..|output|] == output;
    var line, position := PreviousOutputLine(output, |output|);
    if !(OK <= line) {
      return None;
    }
    result := ScanBack(output, position, record, r);
  }

  /** The loop over the lines before the final one. */
  method ScanBack(output: bytes, from: nat, record: bytes -> Option<nat>, ghost r: seq<bytes>)
    returns (result: Option<nat>)
    requires record([]).None?
    requires r != [] && from <= |output| && Content(output[..from]) == r[..|r| - 1]
    ensures match result
            case Some(n) => exists i :: IsLastPair(r, i, record) && record(r[i]) == Some(n)
            case None => forall i :: !IsPair(r, i, record)
  {
    var line: bytes;
    var position := from;
    ghost var k: int := |r| - 1;
    while position != 0
      invariant Left(output, position, r, k, record)
      decreases position
    {
      ghost var was := position;
      line, position := PreviousOutputLine(output, position);
      if line != PASS {
        if k > 0 {
          LeftNext(output, was, r, k, record, line, position);
          k := k - 1;
        }
        continue;
      }
      var terminal, before := PreviousOutputLine(output, position);
      LeftPass(output, was, r, k, record, line, position, terminal, before);
      var executions := record(terminal);
      if executions.Some? {
        return executions;
      }
      k := k - 1;
    }
    EmptyContent(output);
    return None;
  }

  lemma {:induction false} EmptyContent(output: bytes)
    ensures Content(output[..0]) == []
  {
    assert output[..0] == [];
    NonBlankLast([], []);
  }
}

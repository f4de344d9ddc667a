/** What the campaign returns once all workers have left: the deterministic choice of a failure, or the
report of every control. */
module CampaignReport {
  import opened Options
  import opened ExactWrite
  import opened Campaign
  import opened Decimal
  import opened TextLines
  import opened FuzzOutput
  import opened FuzzRecord

  // ----- one control -----

  /** The executions that an output reports, read with the parser of a record. */
  function CountOf(duration: bytes -> bool): Count {
    output => Terminal(output, Recorder(duration))
  }

  method RunControl(duration: bytes -> bool, run: Run, minimum: nat) returns (o: Outcome)
    ensures o == RunFuzzControl(CountOf(duration), run, minimum)
  {
    var err := run.err;
    if err.None? && (!run.started || run.exitCode != 0 || !run.completed) {
      err := Some({CampaignFailure});
    }
    var terminal: Option<nat> := None;
    if err.None? {
      terminal := TerminalExecutions(duration, run.stdout);
    }
    var executions := if terminal.Some? then terminal.value else 0;
    if err.None? && (terminal.None? || executions < minimum) {
      err := Some({CampaignFailure});
    }
    return Outcome(err, run.cleanupFailure, executions);
  }

  /** A control that ran to its minimum has printed so: its last record before `PASS` and a final `ok` line says it. */
  lemma {:induction false} MinimumIsPrinted(duration: bytes -> bool, c: Config, slot: Slot)
    requires c.count == CountOf(duration) && RanToMinimum(c, slot)
    ensures EndsOk(Content(slot.run.stdout))
    ensures exists i, elapsed, rate, suffix ::
              && IsLastPair(Content(slot.run.stdout), i, Recorder(duration))
              && Content(slot.run.stdout)[i] == RecordLine(elapsed, slot.outcome.executions, rate, suffix)
    ensures c.minimum <= slot.outcome.executions <= MAX_UINT64
  {
    var r := Content(slot.run.stdout);
    LastPairExact(r, Recorder(duration));
    var i :| IsLastPair(r, i, Recorder(duration)) && Recorder(duration)(r[i]) == Some(slot.outcome.executions);
    var elapsed, rate, suffix := ReadIsRecord(duration, r[i]);
    assert r[i] == RecordLine(elapsed, slot.outcome.executions, rate, suffix);
  }

  /** No minimum is out of reach: some output reports it. */
  lemma {:induction false} MinimumCanBeMet(duration: bytes -> bool, elapsed: bytes, c: Config) returns (output: bytes)
    requires c.count == CountOf(duration) && c.minimum <= MAX_UINT64
    requires PlainDurations(duration) && duration(elapsed) && LF !in elapsed
    ensures Suffices(c, output)
  {
    output := CountIsReported(duration, elapsed, if c.minimum == 0 then 1 else c.minimum);
  }

  // ----- the failure that is reported -----

  /** `i` is the first outcome of its class. */
  ghost predicate LeastOf(outcomes: seq<Outcome>, family: Outcome -> bool, i: nat) {
    i < |outcomes| && family(outcomes[i]) && forall j | 0 <= j < i :: !family(outcomes[j])
  }

  predicate AnyFailure(o: Outcome) {
    o.err.Some?
  }

  /** The choice does not depend on which worker failed first: a surviving process tree comes before any
      other root failure, and within a class the lowest index wins. */
  method DeterministicFuzzFailure(outcomes: seq<Outcome>, fallback: nat) returns (index: nat, genuine: bool)
    ensures genuine <==> exists i :: 0 <= i < |outcomes| && Genuine(outcomes[i])
    ensures genuine ==>
              || LeastOf(outcomes, CleanupClass, index)
              || (LeastOf(outcomes, RootClass, index) && forall i | 0 <= i < |outcomes| :: !CleanupClass(outcomes[i]))
    ensures !genuine ==>
              || LeastOf(outcomes, AnyFailure, index)
              || (index == fallback && forall i | 0 <= i < |outcomes| :: !AnyFailure(outcomes[i]))
  {
    for i := 0 to |outcomes|
      invariant forall j | 0 <= j < i :: !CleanupClass(outcomes[j])
    {
      if CleanupClass(outcomes[i]) {
        return i, true;
      }
    }
    for i := 0 to |outcomes|
      invariant forall j | 0 <= j < i :: !RootClass(outcomes[j])
    {
      if RootClass(outcomes[i]) {
        return i, true;
      }
    }
    for i := 0 to |outcomes|
      invariant forall j | 0 <= j < i :: !AnyFailure(outcomes[j])
    {
      if AnyFailure(outcomes[i]) {
        return i, false;
      }
    }
    return fallback, false;
  }

  // ----- the report of a successful campaign -----

  function Line(name: bytes, executions: nat): bytes {
    if executions == 1 then name + Text(": 1 execution\n")
    else name + Text(": ") + Digits(executions) + Text(" executions\n")
  }

  /** The line names the number of executions, which can be read back from it. */
  lemma {:induction false} CountIsNamed(name: bytes, executions: nat)
    ensures Line(name, executions)
         == name + (Text(": ") + (Digits(executions)
                                  + if executions == 1 then Text(" execution\n") else Text(" executions\n")))
    ensures |name| + 2 <= |Line(name, executions)|
    ensures var rest := Line(name, executions)[|name| + 2..];
      var i := IndexByte(rest, 0x20);
      0 <= i && AllDigits(rest[..i]) && Value(rest[..i]) == executions
  {
    var digits := Digits(executions);
    var ending := if executions == 1 then Text("execution\n") else Text("executions\n");
    NamedOnce(name, executions);
    SpaceBefore();
    AfterName(name, digits, ending);
    DigitsAreCanonical(executions);
    DigitsHold(executions, 0x20);
    FirstSeparator(digits, ending, 0x20);
  }

  lemma {:induction false} AfterName(name: bytes, digits: bytes, ending: bytes)
    ensures var line := name + (Text(": ") + (digits + ([0x20] + ending)));
      |name| + 2 <= |line| && line[|name| + 2..] == digits + [0x20] + ending
  {
    var line := name + (Text(": ") + (digits + ([0x20] + ending)));
    assert line[|name|..] == Text(": ") + (digits + ([0x20] + ending));
    assert line[|name| + 2..] == line[|name|..][2..];
  }

  lemma {:induction false} NamedOnce(name: bytes, executions: nat)
    ensures Line(name, executions)
         == name + (Text(": ") + (Digits(executions)
                                  + if executions == 1 then Text(" execution\n") else Text(" executions\n")))
  {
    if executions == 1 {
      assert Digits(1) == [0x31];
      assert Text(": 1 execution\n") == Text(": ") + ([0x31] + Text(" execution\n"));
    }
  }

  lemma {:induction false} SpaceBefore()
    ensures Text(" execution\n") == [0x20] + Text("execution\n")
    ensures Text(" executions\n") == [0x20] + Text("executions\n")
  {
  }

  function Report(names: seq<bytes>, outcomes: seq<Outcome>): bytes
    requires |names| == |outcomes|
  {
    if names == [] then []
    else
      var m := |names| - 1;
      Report(names[..m], outcomes[..m]) + Line(names[m], outcomes[m].executions)
  }

  lemma {:induction false} ReportPrefix(names: seq<bytes>, outcomes: seq<Outcome>, i: nat)
    requires |names| == |outcomes| && i <= |names|
    ensures Report(names[..i], outcomes[..i]) <= Report(names, outcomes)
    decreases |names|
  {
    if i == |names| {
      assert names[..i] == names && outcomes[..i] == outcomes;
    } else {
      var m := |names| - 1;
      ReportPrefix(names[..m], outcomes[..m], i);
      assert names[..m][..i] == names[..i] && outcomes[..m][..i] == outcomes[..i];
    }
  }

  lemma {:induction false} ReportNext(names: seq<bytes>, outcomes: seq<Outcome>, i: nat)
    requires |names| == |outcomes| && i < |names|
    ensures Report(names[..i + 1], outcomes[..i + 1]) ==
            Report(names[..i], outcomes[..i]) + Line(names[i], outcomes[i].executions)
    ensures Report(names[..i], outcomes[..i]) <= Report(names, outcomes)
    ensures Report(names[..i + 1], outcomes[..i + 1]) <= Report(names, outcomes)
  {
    ReportPrefix(names, outcomes, i);
    ReportPrefix(names, outcomes, i + 1);
    assert names[..i + 1][..i] == names[..i] && outcomes[..i + 1][..i] == outcomes[..i];
  }

  lemma {:induction false} PrefixOfWhole(base: bytes, part: bytes, whole: bytes, got: bytes)
    requires got <= base + part && part <= whole
    ensures got <= base + whole
  {
    assert whole == part + whole[|part|..];
    assert base + whole == (base + part) + whole[|part|..];
  }

  lemma {:induction false} Associate(a: bytes, b: bytes, c: bytes)
    ensures (a + b) + c == a + (b + c)
  {
  }

  datatype CampaignError = ControlFailed(index: nat) | CampaignCancelled | ReportFailed

  /** One line of the report, unless the context ends or the sink fails. */
  method WriteOutcome(ctx: Context, line: bytes, output: Writer, ghost base: bytes, ghost done: bytes,
                      ghost whole: bytes)
    returns (err: Option<CampaignError>)
    requires output.accepted == base + done && done + line <= whole
    modifies ctx, output
    ensures old(ctx.done) ==> ctx.done
    ensures err.None? ==> output.accepted == base + (done + line)
    ensures base <= output.accepted <= base + whole
    ensures err.Some? ==> !err.value.ControlFailed?
    ensures err.Some? ==> if err.value.CampaignCancelled? then ctx.done else !output.sound
    ensures old(ctx.Alive()) ==> ctx.Alive()
  {
    assert done <= whole;
    PrefixOfWhole(base, done, whole, output.accepted);
    var cancelled := ctx.Err();
    if cancelled {
      return Some(CampaignCancelled);
    }
    var written := Bytes(output, line);
    Associate(base, done, line);
    PrefixOfWhole(base, done + line, whole, output.accepted);
    return if written.Some? then Some(ReportFailed) else None;
  }

  /** One line for each control in index order, unless the context ends or the sink fails. */
  method WriteFuzzOutcomes(ctx: Context, names: seq<bytes>, outcomes: seq<Outcome>, output: Writer)
    returns (err: Option<CampaignError>)
    requires |names| == |outcomes|
    modifies ctx, output
    ensures old(ctx.done) ==> ctx.done
    ensures err.None? ==> output.accepted == old(output.accepted) + Report(names, outcomes)
    ensures old(output.accepted) <= output.accepted <= old(output.accepted) + Report(names, outcomes)
    ensures err.Some? ==> !err.value.ControlFailed?
    ensures err.Some? ==> if err.value.CampaignCancelled? then ctx.done else !output.sound
    ensures old(ctx.Alive()) ==> ctx.Alive()
  {
    ghost var base, whole := output.accepted, Report(names, outcomes);
    ghost var done: bytes := [];
    for i := 0 to |names|
      invariant old(ctx.done) ==> ctx.done
      invariant old(ctx.Alive()) ==> ctx.Alive()
      invariant done == Report(names[..i], outcomes[..i]) && output.accepted == base + done
    {
      ReportNext(names, outcomes, i);
      err := WriteOutcome(ctx, Line(names[i], outcomes[i].executions), output, base, done, whole);
      if err.Some? {
        return;
      }
      done := Report(names[..i + 1], outcomes[..i + 1]);
    }
    assert names[..|names|] == names && outcomes[..|outcomes|] == outcomes;
    return None;
  }

  // ----- the end of the campaign -----

  /** The slice of outcomes as the code after the join reads it: an unclaimed slot is a zero value. */
  function Outcomes(s: State): seq<Outcome> {
    seq(|s.outcomes|, i requires 0 <= i < |s.outcomes| =>
                        if s.outcomes[i].Written? then s.outcomes[i].outcome else Outcome(None, false, 0))
  }

  /** `index` is that of the failure to report: the first of the first class that has one. */
  ghost predicate RootFailure(outcomes: seq<Outcome>, index: nat) {
    || LeastOf(outcomes, CleanupClass, index)
    || (LeastOf(outcomes, RootClass, index) && forall i | 0 <= i < |outcomes| :: !CleanupClass(outcomes[i]))
  }

  /** The control failed, and its process tree survived. */
  ghost predicate SurvivesAt(s: State, i: nat)
    requires i < |s.outcomes|
  {
    Failed(s.outcomes[i]) && Survives(s.outcomes[i].run)
  }

  /** The control failed for another reason than a cancellation. */
  ghost predicate FailsAt(s: State, i: nat)
    requires i < |s.outcomes|
  {
    Failed(s.outcomes[i]) && !Echoes(s.outcomes[i].run)
  }

  /** The failure to report, said of the runs: the first control whose process tree survived, or when there is none the
      first that failed for another reason than a cancellation. */
  ghost predicate Reported(s: State, index: nat) {
    index < |s.outcomes| &&
    if exists i :: 0 <= i < |s.outcomes| && SurvivesAt(s, i) then
      SurvivesAt(s, index) && forall j | 0 <= j < index :: !SurvivesAt(s, j)
    else
      FailsAt(s, index) && forall j | 0 <= j < index :: !FailsAt(s, j)
  }

  lemma {:induction false} ReportedExact(c: Config, s: State, index: nat)
    requires Ownership(c, s)
    ensures RootFailure(Outcomes(s), index) <==> Reported(s, index)
    ensures FirstOfAll(Outcomes(s), index) <==> OnlyEchoes(s, index)
  {
    forall i | 0 <= i < |s.outcomes|
      ensures CleanupClass(Outcomes(s)[i]) <==> SurvivesAt(s, i)
      ensures RootClass(Outcomes(s)[i]) <==> FailsAt(s, i)
      ensures AnyFailure(Outcomes(s)[i]) <==> Failed(s.outcomes[i])
    {
      if s.outcomes[i].Written? { ClassesOfRun(c.count, s.outcomes[i].run, c.minimum); }
    }
  }

  /** No failure is genuine, and this is the first. */
  ghost predicate FirstOfAll(outcomes: seq<Outcome>, index: nat) {
    LeastOf(outcomes, AnyFailure, index) && forall i | 0 <= i < |outcomes| :: !Genuine(outcomes[i])
  }

  /** No failure is genuine, and this is the first, said of the runs. */
  ghost predicate OnlyEchoes(s: State, index: nat) {
    && index < |s.outcomes| && Failed(s.outcomes[index]) && (forall j | 0 <= j < index :: !Failed(s.outcomes[j]))
    && forall i | 0 <= i < |s.outcomes| :: !SurvivesAt(s, i) && !FailsAt(s, i)
  }

  /** Some control failed for a reason of its own. */
  ghost predicate SomeGenuine(s: State) {
    exists i :: 0 <= i < |s.outcomes| && (SurvivesAt(s, i) || FailsAt(s, i))
  }

  lemma {:induction false} SomeGenuineExact(c: Config, s: State)
    requires Ownership(c, s)
    ensures SomeGenuine(s) <==> exists i :: 0 <= i < |Outcomes(s)| && Genuine(Outcomes(s)[i])
  {
    forall i | 0 <= i < |s.outcomes| ensures Genuine(Outcomes(s)[i]) <==> SurvivesAt(s, i) || FailsAt(s, i) {
      if s.outcomes[i].Written? { ClassesOfRun(c.count, s.outcomes[i].run, c.minimum); }
    }
    if i :| 0 <= i < |Outcomes(s)| && Genuine(Outcomes(s)[i]) {
      assert SurvivesAt(s, i) || FailsAt(s, i);
    }
    if i :| 0 <= i < |s.outcomes| && (SurvivesAt(s, i) || FailsAt(s, i)) {
      assert Genuine(Outcomes(s)[i]);
    }
  }

  /** What is known of the slots once all workers have left. */
  lemma {:induction false} Joined(c: Config, run: seq<Action>, s: State)
    requires After(c, run) == Some(s) && AllExited(s) && c.jobs > 0
    ensures Ownership(c, s) && |s.outcomes| == c.controls && (s.failed || s.parentDone || !ContextDone(s))
    ensures !s.failed && !s.parentDone ==> forall i | 0 <= i < c.controls :: RanToMinimum(c, s.outcomes[i])
    ensures SomeGenuine(s) ==> s.failed && exists i :: 0 <= i < |Outcomes(s)| && Genuine(Outcomes(s)[i])
    ensures s.failed ==> exists i :: 0 <= i < |Outcomes(s)| && AnyFailure(Outcomes(s)[i])
    ensures c.honest && s.failed && !s.parentDone ==>
              exists i :: 0 <= i < |Outcomes(s)| && Genuine(Outcomes(s)[i])
  {
    InvAfter(c, run);
    if !s.failed && !s.parentDone {
      SuccessIsComplete(c, run);
    }
    FailedFlagIsExact(c, run);
    SomeGenuineExact(c, s);
    if s.failed {
      assert AnyFailure(Outcomes(s)[s.firstIndex]);
    }
    if c.honest && s.failed && !s.parentDone {
      WinnerIsGenuine(c, run);
      assert Genuine(Outcomes(s)[s.firstIndex]);
    }
  }

  /** The failure of a campaign in which a control failed. */
  method ReportFailure(outcomes: seq<Outcome>, fallback: nat, parent: Context, ghost alive: bool, ghost honest: bool)
    returns (err: CampaignError)
    requires honest && alive ==> exists i :: 0 <= i < |outcomes| && Genuine(outcomes[i])
    requires !alive ==> parent.done
    requires exists i :: 0 <= i < |outcomes| && AnyFailure(outcomes[i])
    modifies parent
    ensures old(parent.Alive()) ==> !parent.done
    ensures err != ReportFailed && (err.CampaignCancelled? ==> parent.done)
    ensures err.ControlFailed? ==> RootFailure(outcomes, err.index) || FirstOfAll(outcomes, err.index)
    ensures honest && err.ControlFailed? ==> RootFailure(outcomes, err.index)
    ensures honest && alive ==> err.ControlFailed?
    ensures (exists i :: 0 <= i < |outcomes| && Genuine(outcomes[i])) ==> err.ControlFailed?
  {
    var failureIndex, genuine := DeterministicFuzzFailure(outcomes, fallback);
    if !genuine {
      var cancelled := parent.Err();
      if cancelled {
        return CampaignCancelled;
      }
    }
    return ControlFailed(failureIndex);
  }

  /** Everything after all workers have left, for a state that some interleaving leads to. `parent` is the
      caller's context, which may still end at any moment. */
  method ConcludeCampaign(c: Config, ghost run: seq<Action>, s: State, names: seq<bytes>, parent: Context,
                          output: Writer)
    returns (err: Option<CampaignError>)
    requires After(c, run) == Some(s) && AllExited(s) && c.jobs > 0
    requires |names| == c.controls && (s.parentDone ==> parent.done)
    modifies parent, output
    // Success: every control ran to its minimum and is reported once, in index order.
    ensures err.None? ==>
              && |s.outcomes| == c.controls && (forall i | 0 <= i < c.controls :: RanToMinimum(c, s.outcomes[i]))
              && output.accepted == old(output.accepted) + Report(names, Outcomes(s))
    // A failure is reported exactly when there was one, and it is the deterministic root failure.
    ensures err.Some? && err.value.ControlFailed? ==> s.failed && output.accepted == old(output.accepted)
    ensures err.Some? && err.value.ControlFailed? ==> Reported(s, err.value.index) || OnlyEchoes(s, err.value.index)
    ensures c.honest && err.Some? && err.value.ControlFailed? ==> Reported(s, err.value.index)
    ensures s.failed ==> err.Some?
    ensures SomeGenuine(s) ==> err.Some? && err.value.ControlFailed?
    ensures c.honest && s.failed && !s.parentDone ==> err.value.ControlFailed?
    // Otherwise only the caller's context or the sink can stop the report.
    ensures err.Some? && !s.failed ==> if err.value.CampaignCancelled? then parent.done else !output.sound
    ensures old(parent.Alive()) ==> !parent.done
  {
    Joined(c, run, s);
    if s.failed {
      var failure := ReportFailure(Outcomes(s), s.firstIndex, parent, !s.parentDone, c.honest);
      if failure.ControlFailed? { ReportedExact(c, s, failure.index); }
      return Some(failure);
    }
    var cancelled := parent.Err();
    if cancelled {
      return Some(CampaignCancelled);
    }
    err := WriteFuzzOutcomes(parent, names, Outcomes(s), output);
  }
}

/** Profile execution (execute.go) and its exit status (cmd/secverify/execution.go). An error is the set of the
sentinels it joins. */
module Execution {
  import opened Options
  import opened ExactWrite
  import SafeOutput
  import SafeWriter

  datatype State = Pass | Fail | Cancelled | Unavailable | InvocationError

  /** The sentinels of this verifier, of the process owner, and of contexts; anything else is `OtherError`. */
  datatype Tag =
    | ErrInvalidPlan | ErrFailed | ErrUnavailable | ErrCancelled | ErrInvocation | ErrOutput | ErrReporting
    | ErrCleanup | ErrUnsupported
    | ContextCanceled | DeadlineExceeded
    | OtherError

  type Err = Option<set<Tag>>

  function Tags(err: Err): set<Tag> {
    match err case None => {} case Some(tags) => tags
  }

  const SENTINELS: set<Tag> :=
    {ErrInvalidPlan, ErrFailed, ErrUnavailable, ErrCancelled, ErrInvocation, ErrOutput, ErrReporting}

  // ----- one control -----

  datatype Command = Command(expectedStdout: Option<bytes>, expectedStderr: Option<bytes>, showSuccessOutput: bool)

  datatype Control = Control(id: bytes, name: bytes, command: Command)

  /** How the process owner says that a process tree ended. */
  datatype Ending = Completed | CleanupFailure | OtherEnding

  datatype Outcome = Outcome(started: bool, exitCode: int, ending: Ending, stdout: bytes, stderr: bytes)

  datatype ControlResult = ControlResult(id: bytes, state: State, exitCode: int, stdoutBytes: nat, stderrBytes: nat)

  /** One call of the process runner, as it happened. */
  datatype Run = Run(id: bytes, outcome: Outcome, err: Err, timedOut: bool)

  predicate MatchesExpectedOutput(command: Command, outcome: Outcome) {
    && (command.expectedStdout.Some? ==> command.expectedStdout.value == outcome.stdout)
    && (command.expectedStderr.Some? ==> command.expectedStderr.value == outcome.stderr)
  }

  /** A run that deserves to pass. */
  predicate Succeeded(command: Command, run: Run) {
    && run.err.None? && run.outcome.started && run.outcome.exitCode == 0 && run.outcome.ending == Completed
    && !run.timedOut
    && (command.expectedStdout == None || command.expectedStdout == Some(run.outcome.stdout))
    && (command.expectedStderr == None || command.expectedStderr == Some(run.outcome.stderr))
  }

  class Runner {
    /** An honest runner joins none of the verifier's sentinels, and reports cancellation only after the caller's. */
    const honest: bool
    var runs: seq<Run>

    /** Runs a control for any length of time, in which the caller may cancel and the control's own time may run out. */
    method Start(parent: Context, control: Control) returns (run: Run)
      modifies this`runs, parent
      ensures run.id == control.id && runs == old(runs) + [run]
      ensures old(parent.done) ==> parent.done
      ensures old(parent.Alive()) ==> !parent.done
      ensures honest ==> Honest(run, parent.done)
    {
      var stopped := parent.Err();
      run := *;
      run := run.(id := control.id);
      if honest {
        run := run.(err := if run.err.None? then None
                           else Some(run.err.value - SENTINELS - if stopped then {} else {ContextCanceled}));
      }
      runs := runs + [run];
    }
  }

  function Reason(ctx: Context): Tag {
    if ctx.expires then DeadlineExceeded else ContextCanceled
  }

  /** What a context answers: nothing, or why it is done. */
  method ContextErr(ctx: Context) returns (err: Err)
    modifies ctx
    ensures err == if !ctx.done then None else Some({if ctx.expires then DeadlineExceeded else ContextCanceled})
    ensures old(ctx.done) ==> ctx.done
    ensures old(ctx.Alive()) ==> !ctx.done
  {
    var done := ctx.Err();
    err := if done then Some({Reason(ctx)}) else None;
  }

  /** The control's own context is done when its time is up or when the caller's is done, for whichever came first. */
  method ControlErr(parent: Context, timedOut: bool) returns (err: Err)
    modifies parent
    ensures old(parent.done) ==> parent.done
    ensures old(parent.Alive()) ==> !parent.done
    ensures err.Some? <==> timedOut || parent.done
    ensures err.Some? ==>
      (timedOut && err.value == {DeadlineExceeded}) || (parent.done && err.value == {Reason(parent)})
  {
    err := ContextErr(parent);
    var first: bool := *;
    if timedOut && (err.None? || first) {
      err := Some({DeadlineExceeded});
    }
  }

  function ExitFor(tags: set<Tag>): int {
    if ErrCleanup in tags then 1
    else if ErrUnavailable in tags then 3
    else if ErrCancelled in tags || ContextCanceled in tags then 4
    else if ErrInvocation in tags || ErrInvalidPlan in tags then 2
    else 1
  }

  /** The status the documentation gives for each state (README.md:164-172). */
  function ExitStatus(state: State): int {
    match state
    case Pass => 0
    case Fail => 1
    case InvocationError => 2
    case Unavailable => 3
    case Cancelled => 4
  }

  /** The status that is returned for an error, when it can be reported. */
  function StatusOf(tags: set<Tag>): int {
    if ErrReporting in tags then 2 else ExitFor(tags)
  }

  // ----- classification -----

  /** A run with what the contexts answered about it: whether the caller's was done when the run ended, what it answered
      when it was asked, and what the control's own context answered after that. */
  datatype Judgement = Judgement(run: Run, before: bool, parentErr: Err, controlErr: Err)

  /** The contexts are asked only about runs that were cleaned up and supported. */
  predicate AsksContexts(run: Run) {
    ErrCleanup !in Tags(run.err) && run.outcome.ending != CleanupFailure && ErrUnsupported !in Tags(run.err)
  }

  /** The answers fit together, and fit whether the caller's context is done now. */
  predicate Plausible(j: Judgement, done: bool) {
    && Tags(j.parentErr) + Tags(j.controlErr) <= {ContextCanceled, DeadlineExceeded}
    && (j.before || j.parentErr.Some? || ContextCanceled in Tags(j.controlErr) ==> done)
    && (j.controlErr.Some? ==> j.run.timedOut || done)
    && (AsksContexts(j.run) && j.before ==> j.parentErr.Some?)
    && (AsksContexts(j.run) && j.parentErr.None? && j.run.timedOut ==> j.controlErr.Some?)
  }

  /** The state and the error of a run, from what the contexts answered. */
  function Classify(j: Judgement): (State, Err) {
    var run := j.run;
    if ErrCleanup in Tags(run.err) || run.outcome.ending == CleanupFailure then
      (Fail, Some({ErrFailed, ErrCleanup} + Tags(run.err)))
    else if ErrUnsupported in Tags(run.err) then (Unavailable, Some({ErrUnavailable} + Tags(run.err)))
    else if j.parentErr.Some? then (Cancelled, Some({ErrCancelled} + j.parentErr.value + Tags(run.err)))
    else if j.controlErr.Some? then (Fail, Some({ErrFailed} + j.controlErr.value + Tags(run.err)))
    else if !run.outcome.started then (InvocationError, Some({ErrInvocation} + Tags(run.err)))
    else if run.err.Some? || run.outcome.exitCode != 0 || run.outcome.ending != Completed then
      (Fail, Some({ErrFailed} + Tags(run.err)))
    else (Pass, None)
  }

  /** A mismatch with the expected output adds its error, and turns a pass, and no other state, into a failure. */
  function Judge(command: Command, j: Judgement): (State, Err) {
    var (state, err) := Classify(j);
    if MatchesExpectedOutput(command, j.run.outcome) then (state, err)
    else if state == Pass then (Fail, Some({ErrFailed, ErrOutput} + Tags(err)))
    else (state, Some({ErrOutput} + Tags(err)))
  }

  /** The caller cancelled after its context was asked and before the control's was. */
  predicate InGap(j: Judgement) {
    AsksContexts(j.run) && j.parentErr.None? && ContextCanceled in Tags(j.controlErr)
  }

  /** An honest runner joins none of the verifier's sentinels, and reports a cancellation only after the caller's. */
  predicate Honest(run: Run, cancelled: bool) {
    Tags(run.err) !! SENTINELS && (ContextCanceled in Tags(run.err) ==> cancelled)
  }

  /** A process tree survived the run. */
  predicate LeftBehind(run: Run) {
    ErrCleanup in Tags(run.err) || run.outcome.ending == CleanupFailure
  }

  /** Which runs lead to which state, and with which errors. A surviving process tree comes first, then a platform that
      is not supported, then the caller's context, then the control's own. */
  lemma {:induction false} StatesAreExact(j: Judgement)
    ensures var (state, err) := Classify(j);
      && (state == Unavailable <==> !LeftBehind(j.run) && ErrUnsupported in Tags(j.run.err))
      && (state == Cancelled <==> !LeftBehind(j.run) && ErrUnsupported !in Tags(j.run.err) && j.parentErr.Some?)
      && (state == InvocationError <==>
            && !LeftBehind(j.run) && ErrUnsupported !in Tags(j.run.err) && j.parentErr.None? && j.controlErr.None?
            && !j.run.outcome.started)
      && (state == Pass <==>
            && !LeftBehind(j.run) && j.run.err.None? && j.parentErr.None? && j.controlErr.None?
            && j.run.outcome.started && j.run.outcome.exitCode == 0 && j.run.outcome.ending == Completed)
    ensures var (state, err) := Classify(j);
      && (state == Unavailable ==> err == Some({ErrUnavailable} + Tags(j.run.err)))
      && (state == Cancelled ==> err == Some({ErrCancelled} + Tags(j.parentErr) + Tags(j.run.err)))
      && (state == InvocationError ==> err == Some({ErrInvocation} + Tags(j.run.err)))
      && (state == Fail ==> {ErrFailed} + Tags(j.run.err) <= Tags(err))
      && (LeftBehind(j.run) ==> ErrCleanup in Tags(err))
  {
  }

  /** Output other than expected is always an error of its own. It fails a control that would pass, and changes no other
      state. */
  lemma {:induction false} MismatchIsReported(command: Command, j: Judgement)
    ensures var expected := (command.expectedStdout == None || command.expectedStdout == Some(j.run.outcome.stdout))
                            && (command.expectedStderr == None || command.expectedStderr == Some(j.run.outcome.stderr));
      var (before, cause) := Classify(j);
      var (state, err) := Judge(command, j);
      && (expected ==> state == before && err == cause)
      && (!expected && before == Pass ==> state == Fail && err == Some({ErrFailed, ErrOutput}))
      && (!expected && before != Pass ==> state == before && err == Some({ErrOutput} + Tags(cause)))
  {
    var none: set<Tag> := {};
    assert {ErrFailed, ErrOutput} + none == {ErrFailed, ErrOutput};
  }

  lemma {:induction false} StatusesAreExact(j: Judgement, done: bool)
    requires Plausible(j, done) && Honest(j.run, j.before)
    ensures var (state, err) := Classify(j);
      && (LeftBehind(j.run) ==> state == Fail && StatusOf(Tags(err)) == 1)
      && (state == Unavailable ==> StatusOf(Tags(err)) == 3)
      && (state == Cancelled ==> StatusOf(Tags(err)) == 4)
      && (state == InvocationError ==> StatusOf(Tags(err)) == if ContextCanceled in Tags(j.run.err) then 4 else 2)
  {
    assert SENTINELS
        == {ErrInvalidPlan, ErrFailed, ErrUnavailable, ErrCancelled, ErrInvocation, ErrOutput, ErrReporting};
    assert forall t | t in SENTINELS :: t !in Tags(j.run.err);
  }

  /** A control passes exactly when its run deserves to, unless the caller's context is done. */
  lemma {:induction false} JudgeIsFair(command: Command, j: Judgement, done: bool)
    requires Plausible(j, done)
    ensures var (state, err) := Judge(command, j);
      && (err.None? <==> state == Pass)
      && (state == Pass ==> Succeeded(command, j.run))
      && (Succeeded(command, j.run) && !done ==> state == Pass)
      && (InGap(j) ==> state == Fail && done)
  {
  }

  /** With an honest runner the error leads to the documented status of the state exactly outside the gap. */
  lemma {:induction false} JudgeAgrees(command: Command, j: Judgement, done: bool)
    requires Plausible(j, done) && Honest(j.run, j.before)
    ensures var (state, err) := Judge(command, j);
      err.Some? ==> ErrReporting !in err.value && (StatusOf(err.value) != ExitStatus(state) <==> InGap(j))
    ensures InGap(j) ==> StatusOf(Tags(Judge(command, j).1)) == ExitStatus(Cancelled)
  {
    assert SENTINELS
        == {ErrInvalidPlan, ErrFailed, ErrUnavailable, ErrCancelled, ErrInvocation, ErrOutput, ErrReporting};
    assert forall t | t in SENTINELS :: t !in Tags(j.run.err);
  }

  /** Such a gap exists: the program succeeded, yet the state is `fail` and the status that of a cancellation. */
  lemma {:induction false} CancelledInTheGap(id: bytes, stdout: bytes, stderr: bytes)
    ensures var run := Run(id, Outcome(true, 0, Completed, stdout, stderr), None, false);
      var j := Judgement(run, false, None, Some({ContextCanceled}));
      var (state, err) := Judge(Command(None, None, false), j);
      && Plausible(j, true) && Honest(j.run, false) && InGap(j)
      && state == Fail && err == Some({ErrFailed, ContextCanceled})
      && StatusOf(err.value) == 4 && ExitStatus(state) == 1
  {
    assert {ErrFailed} + {ContextCanceled} + {} == {ErrFailed, ContextCanceled};
  }

  method ClassifyOutcome(parent: Context, run: Run) returns (state: State, err: Err, ghost j: Judgement)
    modifies parent
    ensures old(parent.done) ==> parent.done
    ensures old(parent.Alive()) ==> !parent.done
    ensures j.run == run && j.before == old(parent.done) && Plausible(j, parent.done)
    ensures (state, err) == Classify(j)
  {
    j := Judgement(run, parent.done, None, None);
    if ErrCleanup in Tags(run.err) || run.outcome.ending == CleanupFailure {
      return Fail, Some({ErrFailed, ErrCleanup} + Tags(run.err)), j;
    }
    if ErrUnsupported in Tags(run.err) {
      return Unavailable, Some({ErrUnavailable} + Tags(run.err)), j;
    }
    var answer := ContextErr(parent);
    j := j.(parentErr := answer);
    if answer.Some? {
      var again := ContextErr(parent);
      return Cancelled, Some({ErrCancelled} + Tags(again) + Tags(run.err)), j;
    }
    var own := ControlErr(parent, run.timedOut);
    j := j.(controlErr := own);
    if own.Some? {
      return Fail, Some({ErrFailed} + own.value + Tags(run.err)), j;
    }
    if !run.outcome.started {
      return InvocationError, Some({ErrInvocation} + Tags(run.err)), j;
    }
    if run.err.Some? || run.outcome.exitCode != 0 || run.outcome.ending != Completed {
      return Fail, Some({ErrFailed} + Tags(run.err)), j;
    }
    return Pass, None, j;
  }

  /** Classification, and then the comparison with the expected output. */
  method JudgeRun(parent: Context, command: Command, run: Run) returns (state: State, err: Err, ghost j: Judgement)
    modifies parent
    ensures old(parent.done) ==> parent.done
    ensures old(parent.Alive()) ==> !parent.done
    ensures j.run == run && j.before == old(parent.done) && Plausible(j, parent.done)
    ensures (state, err) == Judge(command, j)
  {
    state, err, j := ClassifyOutcome(parent, run);
    if !MatchesExpectedOutput(command, run.outcome) {
      ghost var cause := Tags(err);
      err := Some({ErrOutput} + Tags(err));
      if state == Pass {
        state := Fail;
        err := Some({ErrFailed} + Tags(err));
        assert {ErrFailed} + ({ErrOutput} + cause) == {ErrFailed, ErrOutput} + cause;
      }
    }
  }

  // ----- writing -----

  /** A failing sink may report any error at all. */
  method WriteText(output: Writer, text: bytes) returns (err: Err)
    modifies output
    ensures old(output.accepted) <= output.accepted <= old(output.accepted) + text
    ensures err.None? ==> output.accepted == old(output.accepted) + text
    ensures output.sound ==> err.None?
  {
    var failure := Bytes(output, text);
    var tags: set<Tag> := *;
    err := if failure.None? then None else Some(tags);
  }

  /** What a control wrote reaches the sink only in its safe rendering. */
  method WriteControlOutput(p: int -> bool, output: Writer, outcome: Outcome) returns (err: Err)
    modifies output
    ensures var k := SafeOutput.Classes(p);
      var text := SafeOutput.Render(k, outcome.stdout) + SafeOutput.Render(k, outcome.stderr);
      && SafeOutput.Regular(k)
      && old(output.accepted) <= output.accepted <= old(output.accepted) + text
      && (err.None? ==> output.accepted == old(output.accepted) + text)
    ensures output.sound ==> err.None?
  {
    SafeOutput.ClassesAreStandard(p);
    var tags: set<Tag> := *;
    var failure := SafeWriter.Write(p, output, outcome.stdout);
    if failure.Some? {
      return Some(tags);
    }
    failure := SafeWriter.Write(p, output, outcome.stderr);
    return if failure.None? then None else Some(tags);
  }

  // ----- why execution ended -----

  /** Everything went well; the caller's context was found done; a sink refused a text; the last run decided; or the
      request itself was refused. */
  datatype Cause =
    | Finished
    | Stopped(reason: set<Tag>)
    | Unreported(failure: set<Tag>)
    | Judged(command: Command, judgement: Judgement)
    | Refused(tags: set<Tag>)

  /** The state and the error that a cause leads to. */
  function Conclusion(c: Cause): (State, Err) {
    match c
    case Finished => (Pass, None)
    case Stopped(reason) => (Cancelled, Some({ErrCancelled} + reason))
    case Unreported(failure) => (InvocationError, Some({ErrInvocation, ErrReporting} + failure))
    case Judged(command, j) => Judge(command, j)
    case Refused(tags) => (InvocationError, Some(tags))
  }

  /** The exit code and the sizes of a result are those of its run. */
  predicate Measures(result: ControlResult, outcome: Outcome) {
    && result.exitCode == outcome.exitCode
    && result.stdoutBytes == |outcome.stdout| && result.stderrBytes == |outcome.stderr|
  }

  /** What is shown of a control's own output. */
  function Shown(k: SafeOutput.Classifier, command: Command, state: State, outcome: Outcome): bytes
    requires SafeOutput.Regular(k)
  {
    if state != Pass || command.showSuccessOutput then
      SafeOutput.Render(k, outcome.stdout) + SafeOutput.Render(k, outcome.stderr)
    else []
  }

  /** The output of a control that does not pass is shown in full, and that of one that passes only on request. */
  lemma {:induction false} FailuresAreShown(p: int -> bool, command: Command, state: State, outcome: Outcome)
    ensures var k := SafeOutput.Classes(p);
      var text := SafeOutput.Render(k, outcome.stdout) + SafeOutput.Render(k, outcome.stderr);
      && SafeOutput.Regular(k)
      && (state != Pass ==> Shown(k, command, state, outcome) == text)
      && (state == Pass ==> Shown(k, command, state, outcome) == if command.showSuccessOutput then text else [])
  {
    SafeOutput.ClassesAreStandard(p);
  }

  type Display = (Command, State, Outcome) -> bytes

  /** `shown` is `Shown` with the renderer in use, as a value. */
  ghost predicate Displays(shown: Display, p: int -> bool) {
    && SafeOutput.Regular(SafeOutput.Classes(p))
    && forall c, s, o {:trigger Shown(SafeOutput.Classes(p), c, s, o)} ::
         shown(c, s, o) == Shown(SafeOutput.Classes(p), c, s, o)
  }

  function Displayed(p: int -> bool): Display {
    (command: Command, state: State, outcome: Outcome) =>
      SafeOutput.ClassesAreStandard(p); Shown(SafeOutput.Classes(p), command, state, outcome)
  }

  /** The judgement is of this run, fits the context, and comes from an honest runner if the runner is one. */
  ghost predicate JudgedAs(c: Cause, command: Command, run: Run, done: bool, honest: bool) {
    && c.Judged? && c.command == command && c.judgement.run == run && Plausible(c.judgement, done)
    && (honest ==> Honest(run, c.judgement.before))
  }

  /** The control's own output, if it is to be shown, and then the line with its result. */
  method Present(p: int -> bool, output: Writer, command: Command, state: State, outcome: Outcome, footing: bytes,
                 ghost shown: Display)
    returns (err: Err)
    requires Displays(shown, p)
    modifies output
    ensures output.sound ==> err.None?
    ensures err.None? ==> output.accepted == old(output.accepted) + shown(command, state, outcome) + footing
  {
    assert shown(command, state, outcome) == Shown(SafeOutput.Classes(p), command, state, outcome);
    if state != Pass || command.showSuccessOutput {
      err := WriteControlOutput(p, output, outcome);
      if err.Some? {
        return;
      }
    }
    assert output.accepted == old(output.accepted) + shown(command, state, outcome);
    err := WriteText(output, footing);
  }

  /** One control: unless a sink refuses a text, the result is that of its one run, which is written in full. */
  method ExecuteControl(p: int -> bool, parent: Context, output: Writer, control: Control, runner: Runner,
                        heading: bytes, footing: State -> bytes, ghost shown: Display)
    returns (result: ControlResult, err: Err, ghost run: Option<Run>, ghost cause: Cause)
    requires Displays(shown, p)
    modifies parent, output, runner`runs
    ensures old(parent.done) ==> parent.done
    ensures old(parent.Alive()) ==> !parent.done
    ensures runner.runs == old(runner.runs) + if run.None? then [] else [run.value]
    ensures result.id == control.id && (result.state, err) == Conclusion(cause)
    ensures run.Some? ==> run.value.id == control.id && Measures(result, run.value.outcome)
    ensures if cause.Unreported? then !output.sound
            else run.Some? && JudgedAs(cause, control.command, run.value, parent.done, runner.honest)
    ensures cause.Judged? ==>
      output.accepted == old(output.accepted) + heading
                         + shown(control.command, result.state, cause.judgement.run.outcome) + footing(result.state)
  {
    var writeErr := WriteText(output, heading);
    if writeErr.Some? {
      return ControlResult(control.id, InvocationError, 0, 0, 0), Some({ErrInvocation, ErrReporting} + writeErr.value),
             None, Unreported(writeErr.value);
    }
    var started := runner.Start(parent, control);
    run := Some(started);
    var state, resultErr;
    ghost var j;
    state, resultErr, j := JudgeRun(parent, control.command, started);
    cause := Judged(control.command, j);
    result := ControlResult(control.id, state, started.outcome.exitCode,
                            |started.outcome.stdout|, |started.outcome.stderr|);
    writeErr := Present(p, output, control.command, state, started.outcome, footing(state), shown);
    if writeErr.Some? {
      var tags := writeErr.value + Tags(resultErr);
      return result.(state := InvocationError), Some({ErrInvocation, ErrReporting} + tags), run, Unreported(tags);
    }
    return result, resultErr, run, cause;
  }

  // ----- a profile -----

  /** The texts before and after a control, which give positions, states and durations. */
  datatype Words = Words(profile: bytes, heading: nat -> bytes, footing: (nat, State) -> bytes, acknowledgement: bytes)

  /** Everything that is written while these controls pass. */
  function Transcript(shown: Display, controls: seq<Control>, runs: seq<Run>, words: Words): bytes
    requires |runs| <= |controls|
    decreases |runs|
  {
    if runs == [] then []
    else
      var m := |runs| - 1;
      Transcript(shown, controls, runs[..m], words) + words.heading(m)
      + shown(controls[m].command, Pass, runs[m].outcome) + words.footing(m, Pass)
  }

  class Result {
    var state: State
    var controls: seq<ControlResult>

    constructor (state: State)
      ensures this.state == state && controls == []
    {
      this.state := state;
      controls := [];
    }
  }

  /** The results are those of the first controls, in order; all but the last pass, each because its own run
      deserved to; and nothing has been run beyond the last result. */
  ghost predicate Sequential(controls: seq<Control>, results: seq<ControlResult>, runs: seq<Run>) {
    && |results| <= |controls| && |runs| <= |results| <= |runs| + 1
    && (forall i | 0 <= i < |results| :: results[i].id == controls[i].id)
    && (forall i | 0 <= i < |runs| :: runs[i].id == controls[i].id && Measures(results[i], runs[i].outcome))
    && (forall i | 0 <= i < |results| - 1 :: results[i].state == Pass)
    && (forall i | 0 <= i < |results| && results[i].state == Pass ::
          i < |runs| && Succeeded(controls[i].command, runs[i]))
  }

  /** As many results as runs so far, and all of them pass. */
  ghost predicate Passing(controls: seq<Control>, results: seq<ControlResult>, runs: seq<Run>) {
    && Sequential(controls, results, runs) && |results| == |runs|
    && forall j | 0 <= j < |results| :: results[j].state == Pass
  }

  /** The cause is true of what happened: `done` says whether the caller's context is done, and `sound` whether the sink
      takes everything. */
  ghost predicate Ended(controls: seq<Control>, results: seq<ControlResult>, runs: seq<Run>, cause: Cause, done: bool,
                        sound: bool, honest: bool) {
    && Sequential(controls, results, runs)
    && match cause
       case Finished => Passing(controls, results, runs) && |results| == |controls|
       case Stopped(reason) => done && Passing(controls, results, runs) && reason <= {ContextCanceled, DeadlineExceeded}
       case Unreported(_) => !sound
       case Judged(command, j) =>
         && runs != [] && |results| == |runs|
         && JudgedAs(cause, controls[|runs| - 1].command, runs[|runs| - 1], done, honest)
         && results[|runs| - 1].state == Conclusion(cause).0 != Pass
       case Refused(_) => false
  }

  method ExecuteControls(p: int -> bool, ctx: Context, output: Writer, controls: seq<Control>, result: Result,
                         runner: Runner, words: Words, ghost shown: Display)
    returns (err: Err, ghost cause: Cause)
    requires Displays(shown, p) && runner.runs == [] && result.controls == [] && result.state == Pass
    modifies ctx, output, result, runner`runs
    ensures old(ctx.done) ==> ctx.done
    ensures old(ctx.Alive()) ==> !ctx.done
    ensures (result.state, err) == Conclusion(cause)
    ensures Ended(controls, result.controls, runner.runs, cause, ctx.done, output.sound, runner.honest)
    ensures cause.Finished? ==>
      !ctx.done && output.accepted == old(output.accepted) + Transcript(shown, controls, runner.runs, words)
  {
    cause := Finished;
    for i := 0 to |controls|
      invariant old(ctx.done) ==> ctx.done
      invariant old(ctx.Alive()) ==> !ctx.done
      invariant result.state == Pass && |runner.runs| == i && Passing(controls, result.controls, runner.runs)
      invariant output.accepted == old(output.accepted) + Transcript(shown, controls, runner.runs, words)
    {
      var cancelled := ContextErr(ctx);
      if cancelled.Some? {
        result.state := Cancelled;
        return Some({ErrCancelled} + cancelled.value), Stopped(cancelled.value);
      }
      ghost var before, earlier := runner.runs, result.controls;
      var controlResult, controlErr;
      ghost var run;
      controlResult, controlErr, run, cause :=
        ExecuteControl(p, ctx, output, controls[i], runner, words.heading(i), state => words.footing(i, state), shown);
      result.controls := result.controls + [controlResult];
      OneMore(controls, earlier, before, controlResult, run, cause, ctx.done, output.sound, runner.honest);
      if controlErr.Some? {
        result.state := controlResult.state;
        return controlErr, cause;
      }
      TranscriptNext(shown, controls, before, run.value, words, old(output.accepted));
    }
    var cancelled := ContextErr(ctx);
    if cancelled.Some? {
      result.state := Cancelled;
      return Some({ErrCancelled} + cancelled.value), Stopped(cancelled.value);
    }
    return None, Finished;
  }

  lemma {:induction false} TranscriptNext(shown: Display, controls: seq<Control>, runs: seq<Run>, run: Run,
                                          words: Words, start: bytes)
    requires |runs| < |controls|
    ensures start + Transcript(shown, controls, runs + [run], words)
         == start + Transcript(shown, controls, runs, words) + words.heading(|runs|)
            + shown(controls[|runs|].command, Pass, run.outcome) + words.footing(|runs|, Pass)
  {
    assert (runs + [run])[..|runs|] == runs;
  }

  /** One more control either passes, or ends the profile for a cause that is true. */
  lemma {:induction false} OneMore(controls: seq<Control>, results: seq<ControlResult>, before: seq<Run>,
                                   next: ControlResult,
                                   run: Option<Run>, cause: Cause, done: bool, sound: bool, honest: bool)
    requires Passing(controls, results, before) && |before| < |controls|
    requires next.id == controls[|before|].id && next.state == Conclusion(cause).0
    requires run.Some? ==> run.value.id == next.id && Measures(next, run.value.outcome)
    requires if cause.Unreported? then !sound
             else run.Some? && JudgedAs(cause, controls[|before|].command, run.value, done, honest)
    ensures var runs := before + if run.None? then [] else [run.value];
      if Conclusion(cause).1.None? then run.Some? && Passing(controls, results + [next], runs)
      else Ended(controls, results + [next], runs, cause, done, sound, honest)
  {
    if cause.Judged? {
      JudgeIsFair(cause.command, cause.judgement, done);
    }
  }

  // ----- a request -----

  /** What admission makes of the plan and the profile's name. */
  datatype Admission = Rejected(statFailed: bool) | UnknownProfile | Admitted(controls: seq<Control>)

  /** Admission looks at the context now and then, and gives up when it is done. */
  method Admit(ctx: Context, admission: Admission) returns (err: Err)
    modifies ctx
    ensures old(ctx.done) ==> ctx.done
    ensures old(ctx.Alive()) ==> !ctx.done
    ensures err.None? ==> !admission.Rejected?
    ensures err.Some? ==>
      ctx.done || (admission.Rejected? && ErrInvalidPlan in err.value && err.value <= {ErrInvalidPlan, OtherError})
  {
    var cancelled := ContextErr(ctx);
    var noticed: bool := *;
    if noticed && cancelled.Some? {
      return cancelled;
    }
    return if admission.Rejected? then Some({ErrInvalidPlan} + if admission.statFailed then {OtherError} else {})
           else None;
  }

  /** Why a request was refused. */
  predicate RefusedFor(valid: bool, admission: Admission, tags: set<Tag>) {
    if !valid then tags == {ErrInvocation}
    else match admission
         case Rejected(_) => ErrInvalidPlan in tags && tags <= {ErrInvalidPlan, OtherError}
         case UnknownProfile => tags == {ErrInvocation, ErrInvalidPlan}
         case Admitted(_) => false
  }

  /** The cause is true of the whole request. */
  ghost predicate Concluded(valid: bool, admission: Admission, results: seq<ControlResult>, runs: seq<Run>,
                            cause: Cause, done: bool, sound: bool, honest: bool) {
    if results == [] && runs == [] then
      match cause
      case Finished => valid && admission == Admitted([])
      case Stopped(reason) => done && reason <= {ContextCanceled, DeadlineExceeded}
      case Unreported(_) => !sound
      case Judged(_, _) => false
      case Refused(tags) => RefusedFor(valid, admission, tags)
    else
      && valid && admission.Admitted?
      && if cause.Unreported? then !sound && Sequential(admission.controls, results, runs)
         else Ended(admission.controls, results, runs, cause, done, sound, honest)
  }

  /** Unless the context is done or the sink refuses a text, a request passes exactly when it is valid and all of its
      controls run and deserve to pass; and what is run is then the whole profile. */
  lemma {:induction false} PassIsExact(valid: bool, admission: Admission, results: seq<ControlResult>, runs: seq<Run>,
                                       cause: Cause, honest: bool)
    requires Concluded(valid, admission, results, runs, cause, false, true, honest)
    ensures Conclusion(cause).0 == Pass <==>
      && valid && admission.Admitted?
      && forall i | 0 <= i < |runs| && i < |admission.controls| :: Succeeded(admission.controls[i].command, runs[i])
    ensures Conclusion(cause).0 == Pass ==> |runs| == |results| == |admission.controls|
    ensures Conclusion(cause).0 == Pass <==> cause.Finished?
  {
    if cause.Judged? {
      JudgeIsFair(cause.command, cause.judgement, false);
    }
  }

  /** The status follows from the state except when the last run falls into the gap. */
  lemma {:induction false} StatusIsExact(valid: bool, admission: Admission, results: seq<ControlResult>, runs: seq<Run>,
                                         cause: Cause, done: bool, sound: bool)
    requires Concluded(valid, admission, results, runs, cause, done, sound, true) && !cause.Finished?
    ensures Conclusion(cause).1.Some?
    ensures StatusOf(Conclusion(cause).1.value) != ExitStatus(Conclusion(cause).0) <==>
      cause.Judged? && InGap(cause.judgement)
    ensures cause.Judged? && InGap(cause.judgement) ==>
      Conclusion(cause).0 == Fail && StatusOf(Conclusion(cause).1.value) == ExitStatus(Cancelled)
    ensures cause.Stopped? ==> Conclusion(cause).0 == Cancelled && StatusOf(Conclusion(cause).1.value) == 4
    ensures cause.Unreported? ==> Conclusion(cause).0 == InvocationError && StatusOf(Conclusion(cause).1.value) == 2
    ensures cause.Refused? ==> Conclusion(cause).0 == InvocationError && StatusOf(Conclusion(cause).1.value) == 2
  {
    if cause.Judged? {
      JudgeIsFair(cause.command, cause.judgement, done);
      JudgeAgrees(cause.command, cause.judgement, done);
    }
  }

  method Execute(p: int -> bool, ctx: Context, valid: bool, admission: Admission, output: Writer, runner: Runner,
                 words: Words)
    returns (result: Result, err: Err, ghost cause: Cause)
    requires runner.runs == []
    modifies ctx, output, runner`runs
    ensures fresh(result) && (old(ctx.done) ==> ctx.done)
    ensures old(ctx.Alive()) ==> !ctx.done
    ensures (result.state, err) == Conclusion(cause)
    ensures Concluded(valid, admission, result.controls, runner.runs, cause, ctx.done, output.sound, runner.honest)
    ensures cause.Finished? ==> admission.Admitted? && |runner.runs| <= |admission.controls|
    ensures cause.Finished? ==>
      output.accepted == old(output.accepted) + words.profile
                         + Transcript(Displayed(p), admission.controls, runner.runs, words) + words.acknowledgement
  {
    SafeOutput.ClassesAreStandard(p);
    assert Displays(Displayed(p), p);
    result := new Result(InvocationError);
    if !valid {
      return result, Some({ErrInvocation}), Refused({ErrInvocation});
    }
    var cancelled := ContextErr(ctx);
    if cancelled.Some? {
      result.state := Cancelled;
      return result, Some({ErrCancelled} + cancelled.value), Stopped(cancelled.value);
    }
    var admitErr := Admit(ctx, admission);
    if admitErr.Some? {
      cancelled := ContextErr(ctx);
      if cancelled.Some? {
        result.state := Cancelled;
        return result, Some({ErrCancelled} + cancelled.value), Stopped(cancelled.value);
      }
      return result, admitErr, Refused(admitErr.value);
    }
    if admission.UnknownProfile? {
      return result, Some({ErrInvocation, ErrInvalidPlan}), Refused({ErrInvocation, ErrInvalidPlan});
    }
    var writeErr := WriteText(output, words.profile);
    if writeErr.Some? {
      return result, Some({ErrInvocation, ErrReporting} + writeErr.value), Unreported(writeErr.value);
    }
    result.state := Pass;
    err, cause := ExecuteControls(p, ctx, output, admission.controls, result, runner, words, Displayed(p));
    if err.Some? {
      return;
    }
    writeErr := WriteText(output, words.acknowledgement);
    if writeErr.Some? {
      result.state := InvocationError;
      return result, Some({ErrInvocation, ErrReporting} + writeErr.value), Unreported(writeErr.value);
    }
  }

  // ----- the exit status -----

  /** `accepted` says that standard error took the message. */
  method ReportExecutionError(stderr: Writer, message: bytes, tags: set<Tag>) returns (code: int, ghost accepted: bool)
    modifies stderr
    ensures code == if accepted then StatusOf(tags) else 2
    ensures accepted ==> stderr.accepted == old(stderr.accepted) + message
    ensures stderr.sound ==> accepted
  {
    var failure := Bytes(stderr, message);
    if failure.Some? {
      return 2, false;
    }
    return if ErrReporting in tags then 2 else ExitFor(tags), true;
  }

  const SECVERIFY: bytes := [0x73, 0x65, 0x63, 0x76, 0x65, 0x72, 0x69, 0x66, 0x79, 0x3A, 0x20]   // "secverify: "

  /** The line that reports a failure is one line, and safe, whatever the error says. */
  lemma {:induction false} FailureLineIsSafe(p: int -> bool, message: bytes)
    ensures var k := SafeOutput.Classes(p);
      SafeOutput.Regular(k)
      && SafeOutput.Safe(k, SECVERIFY + SafeOutput.Escaped(k, message, true, true) + [SafeOutput.LF], true, false)
      && SafeOutput.LF !in SafeOutput.Escaped(k, message, true, true)
  {
    var k := SafeOutput.Classes(p);
    SafeOutput.ClassesAreStandard(p);
    SafeOutput.DiagnosticIsSafe(k, message, false);
    PrefixedLine(k, SafeOutput.Escaped(k, message, true, true));
  }

  lemma {:induction false} PrefixedLine(k: SafeOutput.Classifier, d: bytes)
    requires SafeOutput.Standard(k) && SafeOutput.Safe(k, d, false, false)
    ensures SafeOutput.Safe(k, SECVERIFY + d + [SafeOutput.LF], true, false)
  {
    var rest := d + [SafeOutput.LF];
    SafeOutput.SafeWithLineFeed(k, d, false);
    SafeByte(k, 0x20, rest);
    SafeByte(k, 0x3A, [0x20] + rest);
    SafeOutput.SafeOrdinary(k, SECVERIFY[..9], [0x3A] + ([0x20] + rest), true, false);
    PrefixParts(rest);
    assert SECVERIFY + d + [SafeOutput.LF] == SECVERIFY + rest;
  }

  lemma {:induction false} PrefixParts(rest: bytes)
    ensures SECVERIFY + rest == SECVERIFY[..9] + ([0x3A] + ([0x20] + rest))
  {
  }

  lemma {:induction false} SafeByte(k: SafeOutput.Classifier, b: byte, rest: bytes)
    requires SafeOutput.Regular(k) && SafeOutput.Safe(k, rest, false, false)
    requires b == 0x20 || b == 0x3A
    ensures SafeOutput.Safe(k, [b] + rest, false, false)
  {
    var v := [b] + rest;
    assert SafeOutput.RegularAt(k(v), v);
    assert v[1..] == rest;
  }

  method WriteFailure(p: int -> bool, stderr: Writer, message: bytes, tags: set<Tag>)
    returns (code: int, ghost accepted: bool)
    modifies stderr
    ensures code == if accepted then ExitFor(tags) else 2
    ensures var line := SECVERIFY + SafeOutput.Escaped(SafeOutput.Classes(p), message, true, true) + [SafeOutput.LF];
      accepted ==> stderr.accepted == old(stderr.accepted) + line
    ensures stderr.sound ==> accepted
  {
    var k := SafeOutput.Classes(p);
    SafeOutput.ClassesAreStandard(p);
    var text := SafeWriter.Diagnostic(k, message);
    var failure := Bytes(stderr, SECVERIFY + text + [SafeOutput.LF]);
    return if failure.Some? then 2 else ExitFor(tags), failure.None?;
  }

  /** The exit status follows from the cause, which is true of what was run. With an honest runner, and unless standard
      error refuses the message, it differs from the documented status of the state exactly when the caller cancelled
      in the gap of the last run. */
  method ExecuteVerification(p: int -> bool, ctx: Context, valid: bool, admission: Admission, stdout: Writer,
                             stderr: Writer, runner: Runner, words: Words, message: bytes)
    returns (code: int, ghost results: seq<ControlResult>, ghost cause: Cause, ghost accepted: bool)
    requires runner.runs == [] && stdout != stderr
    modifies ctx, stdout, stderr, runner`runs
    ensures old(ctx.Alive()) ==> !ctx.done
    ensures Concluded(valid, admission, results, runner.runs, cause, ctx.done, stdout.sound, runner.honest)
    ensures stderr.sound ==> accepted
    ensures code == if cause.Finished? then 0 else if accepted then StatusOf(Tags(Conclusion(cause).1)) else 2
    ensures cause.Finished? ==> stderr.accepted == old(stderr.accepted)
    ensures cause.Finished? ==> admission.Admitted? && |runner.runs| <= |admission.controls|
    ensures cause.Finished? ==>
      stdout.accepted == old(stdout.accepted) + words.profile
                         + Transcript(Displayed(p), admission.controls, runner.runs, words) + words.acknowledgement
    ensures runner.honest && accepted ==>
      (code != ExitStatus(Conclusion(cause).0) <==> cause.Judged? && InGap(cause.judgement))
    ensures runner.honest && accepted && cause.Judged? && InGap(cause.judgement) ==>
      Conclusion(cause).0 == Fail && code == ExitStatus(Cancelled)
  {
    var result, err;
    result, err, cause := Execute(p, ctx, valid, admission, stdout, runner, words);
    results := result.controls;
    if err.None? {
      ErrorlessIsFinished(valid, admission, results, runner.runs, cause, ctx.done, stdout.sound, runner.honest);
      return 0, results, cause, true;
    }
    if runner.honest {
      StatusIsExact(valid, admission, results, runner.runs, cause, ctx.done, stdout.sound);
    }
    if |result.controls| != 0 || ErrReporting in err.value {
      code, accepted := ReportExecutionError(stderr, message, err.value);
    } else {
      code, accepted := WriteFailure(p, stderr, message, err.value);
    }
  }

  lemma {:induction false} ErrorlessIsFinished(valid: bool, admission: Admission, results: seq<ControlResult>,
                                               runs: seq<Run>, cause: Cause, done: bool, sound: bool, honest: bool)
    requires Concluded(valid, admission, results, runs, cause, done, sound, honest)
    ensures Conclusion(cause).1.None? <==> cause.Finished?
  {
    if cause.Judged? {
      JudgeIsFair(cause.command, cause.judgement, done);
    }
  }
}

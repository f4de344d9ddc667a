/** The parallel fuzz campaign as a system of atomic steps.

Workers share an atomic counter, a slice of outcomes, a once-only failure record and a context that the
first failure or the caller may cancel. One action below is one atomic step of the program, and a run
is any sequence of enabled actions, so a theorem about all runs covers every interleaving. */
module Campaign {
  import opened Options
  import opened ExactWrite

  /** The sentinels that an error joins, as far as the campaign looks at them. */
  datatype Tag = Cleanup | ProcessCancelled | ContextCancelled | CampaignFailure | OtherFailure

  /** `cleanupFailure` is the process owner's own report that a process tree survived. */
  datatype Outcome = Outcome(err: Option<set<Tag>>, cleanupFailure: bool, executions: nat)

  /** What the process runner returns for one control. */
  datatype Run = Run(err: Option<set<Tag>>, started: bool, exitCode: int, completed: bool, cleanupFailure: bool,
                     stdout: bytes)

  /** How the executions that an output reports are read from it. */
  type Count = bytes -> Option<nat>

  /** The outcome recorded for a run: success needs a clean exit and an output that reports the minimum. */
  function RunFuzzControl(count: Count, run: Run, minimum: nat): (o: Outcome)
    ensures o.err.None? <==>
            && run.err.None? && run.started && run.exitCode == 0 && run.completed
            && count(run.stdout).Some? && count(run.stdout).value >= minimum
    ensures o.err.None? ==> minimum <= o.executions == count(run.stdout).value
    ensures o.err.Some? ==> o.err == if run.err.Some? then run.err else Some({CampaignFailure})
    ensures o.cleanupFailure == run.cleanupFailure
  {
    var err := if run.err.None? && (!run.started || run.exitCode != 0 || !run.completed)
               then Some({CampaignFailure}) else run.err;
    var terminal := if err.None? then count(run.stdout) else None;
    var executions := if terminal.Some? then terminal.value else 0;
    var err' := if err.None? && (terminal.None? || executions < minimum) then Some({CampaignFailure}) else err;
    Outcome(err', run.cleanupFailure, executions)
  }

  /** A process tree survived the run, by the error or by the process owner's own report. */
  predicate Survives(run: Run) {
    run.cleanupFailure || (run.err.Some? && Cleanup in run.err.value)
  }

  /** The run's error reports a cancellation. */
  predicate Echoes(run: Run) {
    run.err.Some? && (ProcessCancelled in run.err.value || ContextCancelled in run.err.value)
  }

  predicate CleanupClass(o: Outcome) {
    o.err.Some? && (Cleanup in o.err.value || o.cleanupFailure)
  }

  /** A failure that is not merely the echo of a cancellation. */
  predicate RootClass(o: Outcome) {
    o.err.Some? && ProcessCancelled !in o.err.value && ContextCancelled !in o.err.value
  }

  predicate Genuine(o: Outcome) {
    CleanupClass(o) || RootClass(o)
  }

  /** The classes of a recorded failure are said of the run that failed. */
  lemma {:induction false} ClassesOfRun(count: Count, run: Run, minimum: nat)
    ensures var o := RunFuzzControl(count, run, minimum);
      o.err.Some? ==> (CleanupClass(o) <==> Survives(run)) && (RootClass(o) <==> !Echoes(run))
  {
  }

  // ----- the system -----

  /** `honest` restricts the runner: it then reports nothing but a cancellation only when its context
      is already done. Only the theorems about root failures assume it. */
  datatype Config = Config(controls: nat, jobs: nat, minimum: nat, count: Count, honest: bool)

  /** `output` is what a control prints that succeeds. */
  ghost predicate Suffices(c: Config, output: bytes) {
    c.count(output).Some? && c.count(output).value >= c.minimum
  }

  /** Where a worker is. The last three stages are the body of the once-only record. */
  datatype Worker =
    | Checking
    | Claiming
    | Running(index: nat)
    | Failing(index: nat)
    | StoringFailed(index: nat)
    | StoringIndex(index: nat)
    | Cancelling(index: nat)
    | Exited

  datatype Once = Unused | Busy(owner: nat) | Done

  /** An outcome, the worker that wrote it, and the run it was recorded for. */
  datatype Slot = Empty | Written(writer: nat, run: Run, outcome: Outcome)

  /** `claims[i]` is the worker that drew index `i`; it is a history variable. */
  datatype State = State(next: nat, claims: seq<nat>, outcomes: seq<Slot>, once: Once, failed: bool, firstIndex: nat,
                         cancelled: bool, parentDone: bool, workers: seq<Worker>)

  datatype Action =
    | Check(w: nat)
    | Claim(w: nat)
    | Finish(w: nat, run: Run)
    | EnterOnce(w: nat)
    | StoreFailed(w: nat)
    | StoreIndex(w: nat)
    | Cancel(w: nat)
    | ParentDone

  function Min(a: nat, b: nat): nat {
    if a < b then a else b
  }

  function Start(c: Config): State {
    State(0, [], seq(c.controls, i => Empty), Unused, false, 0, false, false,
          seq(Min(c.jobs, c.controls), i => Checking))
  }

  predicate ContextDone(s: State) {
    s.cancelled || s.parentDone
  }

  predicate Possible(c: Config, s: State, o: Outcome) {
    c.honest && o.err.Some? && !Genuine(o) ==> ContextDone(s)
  }

  function Move(s: State, w: nat, to: Worker): State
    requires w < |s.workers|
  {
    s.(workers := s.workers[w := to])
  }

  /** One atomic step, or nothing when it is not enabled. */
  function Step(c: Config, s: State, a: Action): Option<State> {
    if a.ParentDone? then
      if s.parentDone then None else Some(s.(parentDone := true))
    else if a.w >= |s.workers| then None
    else
      match (a, s.workers[a.w])
      case (Check(w), Checking) =>
        Some(Move(s, w, if ContextDone(s) then Exited else Claiming))
      case (Claim(w), Claiming) =>
        var drawn := s.(next := s.next + 1, claims := s.claims + [w]);
        Some(Move(drawn, w, if s.next >= c.controls then Exited else Running(s.next)))
      case (Finish(w, run), Running(i)) =>
        var o := RunFuzzControl(c.count, run, c.minimum);
        if i >= |s.outcomes| || !Possible(c, s, o) then None
        else
          var written := s.(outcomes := s.outcomes[i := Written(w, run, o)]);
          Some(Move(written, w, if o.err.Some? then Failing(i) else Checking))
      case (EnterOnce(w), Failing(i)) =>
        if s.once.Unused? then Some(Move(s.(once := Busy(w)), w, StoringFailed(i)))
        else if s.once.Done? then Some(Move(s, w, Checking))
        else None
      case (StoreFailed(w), StoringFailed(i)) =>
        Some(Move(s.(failed := true), w, StoringIndex(i)))
      case (StoreIndex(w), StoringIndex(i)) =>
        Some(Move(s.(firstIndex := i), w, Cancelling(i)))
      case (Cancel(w), Cancelling(i)) =>
        Some(Move(s.(cancelled := true, once := Done), w, Checking))
      case _ => None
  }

  /** The state a run leads to, or nothing when some action was not enabled. */
  function After(c: Config, run: seq<Action>): Option<State> {
    if run == [] then Some(Start(c))
    else
      match After(c, run[..|run| - 1])
      case None => None
      case Some(s) => Step(c, s, run[|run| - 1])
  }

  predicate AllExited(s: State) {
    forall i | 0 <= i < |s.workers| :: s.workers[i].Exited?
  }

  // ----- the invariant -----

  predicate InOnce(p: Worker) {
    p.StoringFailed? || p.StoringIndex? || p.Cancelling?
  }

  predicate Failed(slot: Slot) {
    slot.Written? && slot.outcome.err.Some?
  }

  /** Each index has at most one claimant, which alone runs it and writes its outcome. */
  ghost predicate Ownership(c: Config, s: State) {
    && |s.workers| == Min(c.jobs, c.controls) && |s.outcomes| == c.controls && |s.claims| == s.next
    && (forall w | 0 <= w < |s.workers| && s.workers[w].Running? ::
          var i := s.workers[w].index;
          i < c.controls && i < s.next && s.claims[i] == w && s.outcomes[i].Empty?)
    && (forall i | 0 <= i < c.controls && s.outcomes[i].Written? ::
          i < s.next && s.claims[i] == s.outcomes[i].writer)
    && (forall i | 0 <= i < c.controls && i < s.next && s.outcomes[i].Empty? ::
          s.claims[i] < |s.workers| && s.workers[s.claims[i]] == Running(i))
    && (forall i | 0 <= i < c.controls && s.outcomes[i].Written? ::
          s.outcomes[i].outcome == RunFuzzControl(c.count, s.outcomes[i].run, c.minimum))
  }

  /** At most one worker at a time is inside the once-only record, and it is the one that entered. */
  ghost predicate Gate(s: State) {
    && (forall w | 0 <= w < |s.workers| :: InOnce(s.workers[w]) <==> s.once == Busy(w))
    && (s.once.Busy? ==> s.once.owner < |s.workers|)
    && (s.cancelled <==> s.once.Done?)
    && (s.once.Unused? ==> !s.failed)
    && (forall w | 0 <= w < |s.workers| && (s.workers[w].StoringIndex? || s.workers[w].Cancelling?) :: s.failed)
  }

  /** Whatever is being recorded, or has been, is a failed control. */
  ghost predicate Record(s: State) {
    && (forall w | 0 <= w < |s.workers| && (s.workers[w].Failing? || InOnce(s.workers[w])) ::
          s.workers[w].index < |s.outcomes| && Failed(s.outcomes[s.workers[w].index]))
    && (s.once.Done? ==> s.failed && s.firstIndex < |s.outcomes| && Failed(s.outcomes[s.firstIndex]))
    && (forall w | 0 <= w < |s.workers| && s.workers[w].Cancelling? :: s.firstIndex == s.workers[w].index)
  }

  /** While the caller's context is alive, the recorded failure is genuine; while nothing is cancelled,
      every failure is. */
  ghost predicate Roots(c: Config, s: State) {
    c.honest ==>
    && (!ContextDone(s) ==> forall i | 0 <= i < |s.outcomes| && Failed(s.outcomes[i]) :: Genuine(s.outcomes[i].outcome))
    && (!s.parentDone ==>
          && (forall w | 0 <= w < |s.workers| && InOnce(s.workers[w]) && s.workers[w].index < |s.outcomes|
                         && Failed(s.outcomes[s.workers[w].index]) ::
                Genuine(s.outcomes[s.workers[w].index].outcome))
          && (s.once.Done? && s.firstIndex < |s.outcomes| && Failed(s.outcomes[s.firstIndex]) ==>
                Genuine(s.outcomes[s.firstIndex].outcome)))
  }

  /** Nothing is forgotten: a failure is recorded or about to be, and workers leave for a reason. */
  ghost predicate Settled(c: Config, s: State) {
    && (s.once.Unused? ==> forall i | 0 <= i < |s.outcomes| && Failed(s.outcomes[i]) ::
          s.outcomes[i].writer < |s.workers| && s.workers[s.outcomes[i].writer] == Failing(i))
    && (forall w | 0 <= w < |s.workers| && s.workers[w].Exited? :: ContextDone(s) || s.next >= c.controls)
  }

  ghost predicate Inv(c: Config, s: State) {
    Ownership(c, s) && Gate(s) && Record(s) && Roots(c, s) && Settled(c, s)
  }

  // Every action keeps every part. Only a claim and a finish touch the slots; the other actions are
  // the failure record, the cancellation checks and the caller.

  lemma {:induction false} OwnershipClaim(c: Config, s: State, a: Action)
    requires Inv(c, s) && a.Claim? && Step(c, s, a).Some?
    ensures Ownership(c, Step(c, s, a).value)
  {
  }

  lemma {:induction false} OwnershipFinish(c: Config, s: State, a: Action)
    requires Inv(c, s) && a.Finish? && Step(c, s, a).Some?
    ensures Ownership(c, Step(c, s, a).value)
  {
  }

  lemma {:induction false} OwnershipOther(c: Config, s: State, a: Action)
    requires Inv(c, s) && !a.Claim? && !a.Finish? && Step(c, s, a).Some?
    ensures Ownership(c, Step(c, s, a).value)
  {
    if !a.ParentDone? { OwnershipMoves(c, s, Step(c, s, a).value, a.w); }
  }

  /** A worker that runs no control, before or after, owns nothing. */
  lemma {:induction false} OwnershipMoves(c: Config, s: State, t: State, w: nat)
    requires Ownership(c, s) && w < |s.workers| == |t.workers| && !s.workers[w].Running? && !t.workers[w].Running?
    requires t.next == s.next && t.claims == s.claims && t.outcomes == s.outcomes
    requires t.workers == s.workers[w := t.workers[w]]
    ensures Ownership(c, t)
  {
  }

  lemma {:induction false} GateClaim(c: Config, s: State, a: Action)
    requires Inv(c, s) && a.Claim? && Step(c, s, a).Some?
    ensures Gate(Step(c, s, a).value)
  {
  }

  lemma {:induction false} GateFinish(c: Config, s: State, a: Action)
    requires Inv(c, s) && a.Finish? && Step(c, s, a).Some?
    ensures Gate(Step(c, s, a).value)
  {
  }

  lemma {:induction false} GateOther(c: Config, s: State, a: Action)
    requires Inv(c, s) && !a.Claim? && !a.Finish? && Step(c, s, a).Some?
    ensures Gate(Step(c, s, a).value)
  {
  }

  lemma {:induction false} RecordClaim(c: Config, s: State, a: Action)
    requires Inv(c, s) && a.Claim? && Step(c, s, a).Some?
    ensures Record(Step(c, s, a).value)
  {
  }

  lemma {:induction false} RecordFinish(c: Config, s: State, a: Action)
    requires Inv(c, s) && a.Finish? && Step(c, s, a).Some?
    ensures Record(Step(c, s, a).value)
  {
  }

  lemma {:induction false} RecordStore(c: Config, s: State, a: Action)
    requires Inv(c, s) && (a.StoreIndex? || a.Cancel?) && Step(c, s, a).Some?
    ensures Record(Step(c, s, a).value)
  {
  }

  lemma {:induction false} RecordOther(c: Config, s: State, a: Action)
    requires Inv(c, s) && !a.Claim? && !a.Finish? && Step(c, s, a).Some?
    ensures Record(Step(c, s, a).value)
  {
    if a.StoreIndex? || a.Cancel? { RecordStore(c, s, a); }
  }

  lemma {:induction false} RootsClaim(c: Config, s: State, a: Action)
    requires Inv(c, s) && a.Claim? && Step(c, s, a).Some?
    ensures Roots(c, Step(c, s, a).value)
  {
  }

  lemma {:induction false} RootsFinish(c: Config, s: State, a: Action)
    requires Inv(c, s) && a.Finish? && Step(c, s, a).Some?
    ensures Roots(c, Step(c, s, a).value)
  {
  }

  lemma {:induction false} RootsOther(c: Config, s: State, a: Action)
    requires Inv(c, s) && !a.Claim? && !a.Finish? && Step(c, s, a).Some?
    ensures Roots(c, Step(c, s, a).value)
  {
  }

  lemma {:induction false} SettledClaim(c: Config, s: State, a: Action)
    requires Inv(c, s) && a.Claim? && Step(c, s, a).Some?
    ensures Settled(c, Step(c, s, a).value)
  {
  }

  lemma {:induction false} SettledFinish(c: Config, s: State, a: Action)
    requires Inv(c, s) && a.Finish? && Step(c, s, a).Some?
    ensures Settled(c, Step(c, s, a).value)
  {
  }

  lemma {:induction false} SettledOther(c: Config, s: State, a: Action)
    requires Inv(c, s) && !a.Claim? && !a.Finish? && Step(c, s, a).Some?
    ensures Settled(c, Step(c, s, a).value)
  {
  }

  lemma {:induction false} InvStep(c: Config, s: State, a: Action)
    requires Inv(c, s) && Step(c, s, a).Some?
    ensures Inv(c, Step(c, s, a).value)
  {
    if a.Claim? {
      OwnershipClaim(c, s, a); GateClaim(c, s, a); RecordClaim(c, s, a); RootsClaim(c, s, a); SettledClaim(c, s, a);
    } else if a.Finish? {
      OwnershipFinish(c, s, a); GateFinish(c, s, a); RecordFinish(c, s, a);
      RootsFinish(c, s, a); SettledFinish(c, s, a);
    } else {
      OwnershipOther(c, s, a); GateOther(c, s, a); RecordOther(c, s, a); RootsOther(c, s, a); SettledOther(c, s, a);
    }
  }

  /** The invariant holds in every state of every run. */
  lemma {:induction false} InvAfter(c: Config, run: seq<Action>)
    requires After(c, run).Some?
    ensures Inv(c, After(c, run).value)
  {
    if run != [] {
      InvAfter(c, run[..|run| - 1]);
      InvStep(c, After(c, run[..|run| - 1]).value, run[|run| - 1]);
    }
  }

  // ----- runs end -----

  function Rank(p: Worker): nat {
    match p
    case Exited => 0
    case Claiming => 1
    case Checking => 2
    case Cancelling(_) => 4
    case StoringIndex(_) => 5
    case StoringFailed(_) => 6
    case Failing(_) => 7
    case Running(_) => 8
  }

  function Ranks(ws: seq<Worker>): nat {
    if ws == [] then 0 else Ranks(ws[..|ws| - 1]) + Rank(ws[|ws| - 1])
  }

  lemma {:induction false} RanksUpdate(ws: seq<Worker>, w: nat, p: Worker)
    requires w < |ws|
    ensures Ranks(ws[w := p]) == Ranks(ws) - Rank(ws[w]) + Rank(p)
  {
    var m := |ws| - 1;
    if w == m {
      assert ws[w := p][..m] == ws[..m];
    } else {
      assert ws[w := p][..m] == ws[..m][w := p];
      RanksUpdate(ws[..m], w, p);
    }
  }

  function Measure(c: Config, s: State): nat {
    8 * (if s.next < c.controls then c.controls - s.next else 0) + Ranks(s.workers) + if s.parentDone then 0 else 1
  }

  lemma {:induction false} RankDrops(c: Config, s: State, a: Action)
    requires Step(c, s, a).Some? && !a.ParentDone?
    ensures var t := Step(c, s, a).value;
            && a.w < |s.workers| == |t.workers| && t.workers == s.workers[a.w := t.workers[a.w]]
            && t.parentDone == s.parentDone
            && (if t.next == s.next then Rank(t.workers[a.w]) < Rank(s.workers[a.w])
                else t.next == s.next + 1 && Rank(t.workers[a.w]) <= if s.next < c.controls then 8 else 0)
            && (t.next != s.next ==> Rank(s.workers[a.w]) == 1)
  {
  }

  lemma {:induction false} StepDecreases(c: Config, s: State, a: Action)
    requires Inv(c, s) && Step(c, s, a).Some?
    ensures Measure(c, Step(c, s, a).value) < Measure(c, s)
  {
    if !a.ParentDone? {
      RankDrops(c, s, a);
      RanksUpdate(s.workers, a.w, Step(c, s, a).value.workers[a.w]);
    }
  }

  lemma {:induction false} RanksStart(n: nat)
    ensures Ranks(seq(n, i => Checking)) == 2 * n
  {
    if n > 0 {
      RanksStart(n - 1);
      assert seq(n, i => Checking)[..n - 1] == seq(n - 1, i => Checking);
    }
  }

  /** No interleaving goes on for ever: a run of `n` controls has at most `8n + 2w + 1` steps. */
  lemma {:induction false} RunsEnd(c: Config, run: seq<Action>)
    requires After(c, run).Some?
    ensures |run| + Measure(c, After(c, run).value) <= 8 * c.controls + 2 * Min(c.jobs, c.controls) + 1
  {
    if run == [] {
      RanksStart(Min(c.jobs, c.controls));
    } else {
      RunsEnd(c, run[..|run| - 1]);
      InvAfter(c, run[..|run| - 1]);
      StepDecreases(c, After(c, run[..|run| - 1]).value, run[|run| - 1]);
    }
  }

  function NextOf(p: Worker, v: nat): Action {
    match p
    case Checking => Check(v)
    case Claiming => Claim(v)
    case Running(_) => Finish(v, Run(Some({CampaignFailure}), true, 0, true, false, []))
    case Failing(_) => EnterOnce(v)
    case StoringFailed(_) => StoreFailed(v)
    case StoringIndex(_) => StoreIndex(v)
    case Cancelling(_) => Cancel(v)
    case Exited => ParentDone
  }

  lemma {:induction false} CanMove(c: Config, s: State, v: nat)
    requires v < |s.workers| && !s.workers[v].Exited?
    requires s.workers[v].Running? ==> s.workers[v].index < |s.outcomes|
    requires s.workers[v].Failing? ==> !s.once.Busy?
    ensures !NextOf(s.workers[v], v).ParentDone? && Step(c, s, NextOf(s.workers[v], v)).Some?
  {
  }

  /** No interleaving gets stuck: until all workers have left, one of them can move. */
  lemma {:induction false} NoDeadlock(c: Config, run: seq<Action>)
    requires After(c, run).Some? && !AllExited(After(c, run).value)
    ensures exists a: Action :: !a.ParentDone? && Step(c, After(c, run).value, a).Some?
  {
    InvAfter(c, run);
    var s := After(c, run).value;
    var w :| 0 <= w < |s.workers| && !s.workers[w].Exited?;
    if s.workers[w].Failing? && s.once.Busy? {
      assert InOnce(s.workers[s.once.owner]);
      CanMove(c, s, s.once.owner);
    } else {
      CanMove(c, s, w);
    }
  }

  // ----- what every run keeps -----

  /** No two workers ever run the same control, and no more than `min(jobs, n)` workers exist. */
  lemma {:induction false} ControlsAreExclusive(c: Config, run: seq<Action>, v: nat, w: nat)
    requires After(c, run).Some?
    requires v < |After(c, run).value.workers| && w < |After(c, run).value.workers|
    requires After(c, run).value.workers[v].Running? && After(c, run).value.workers[v] == After(c, run).value.workers[w]
    ensures v == w && |After(c, run).value.workers| == Min(c.jobs, c.controls)
  {
    InvAfter(c, run);
  }

  // ----- cancellation -----

  /** The workers that have looked at the context and are about to draw an index. */
  function Claimers(ws: seq<Worker>): nat {
    if ws == [] then 0 else Claimers(ws[..|ws| - 1]) + if ws[|ws| - 1].Claiming? then 1 else 0
  }

  lemma {:induction false} ClaimersUpdate(ws: seq<Worker>, w: nat, p: Worker)
    requires w < |ws|
    ensures Claimers(ws[w := p])
         == Claimers(ws) - (if ws[w].Claiming? then 1 else 0) + if p.Claiming? then 1 else 0
  {
    var m := |ws| - 1;
    if w == m {
      assert ws[w := p][..m] == ws[..m];
    } else {
      assert ws[w := p][..m] == ws[..m][w := p];
      ClaimersUpdate(ws[..m], w, p);
    }
  }

  lemma {:induction false} ClaimersFew(ws: seq<Worker>)
    ensures Claimers(ws) <= |ws|
  {
    if ws != [] { ClaimersFew(ws[..|ws| - 1]); }
  }

  /** Under a context that is done an index is drawn only by a worker that had already looked. */
  lemma {:induction false} DoneStep(c: Config, s: State, a: Action)
    requires ContextDone(s) && Step(c, s, a).Some?
    ensures var t := Step(c, s, a).value;
      ContextDone(t) && t.next + Claimers(t.workers) <= s.next + Claimers(s.workers)
  {
    if !a.ParentDone? {
      var t := Step(c, s, a).value;
      assert t.workers == s.workers[a.w := t.workers[a.w]];
      ClaimersUpdate(s.workers, a.w, t.workers[a.w]);
    }
  }

  lemma {:induction false} DoneRun(c: Config, run: seq<Action>, more: seq<Action>)
    requires After(c, run).Some? && ContextDone(After(c, run).value) && After(c, run + more).Some?
    ensures var s, t := After(c, run).value, After(c, run + more).value;
      ContextDone(t) && t.next + Claimers(t.workers) <= s.next + Claimers(s.workers)
    decreases |more|
  {
    if more == [] {
      assert run + more == run;
    } else {
      var m := |more| - 1;
      AfterNext(c, run, more);
      DoneRun(c, run, more[..m]);
      DoneStep(c, After(c, run + more[..m]).value, more[m]);
    }
  }

  /** Once a failure or the caller has cancelled the campaign, each worker draws at most one more index. */
  lemma {:induction false} CancellationStopsClaims(c: Config, run: seq<Action>, more: seq<Action>)
    requires After(c, run).Some? && After(c, run + more).Some?
    requires After(c, run).value.cancelled || After(c, run).value.parentDone
    ensures After(c, run + more).value.next <= After(c, run).value.next + Claimers(After(c, run).value.workers)
    ensures Claimers(After(c, run).value.workers) <= Min(c.jobs, c.controls)
  {
    DoneRun(c, run, more);
    InvAfter(c, run);
    ClaimersFew(After(c, run).value.workers);
  }

  /** An outcome is written once, by the worker that drew its index, and then stays. */
  lemma {:induction false} OutcomesAreFinal(c: Config, run: seq<Action>, more: seq<Action>, i: nat)
    requires After(c, run + more).Some?
    ensures After(c, run).Some?
    ensures Keeps(After(c, run).value, After(c, run + more).value, i)
  {
    if more == [] {
      assert run + more == run;
      InvAfter(c, run);
    } else {
      var m := |more| - 1;
      AfterNext(c, run, more);
      OutcomesAreFinal(c, run, more[..m], i);
      InvAfter(c, run + more[..m]);
      var s, t := After(c, run).value, After(c, run + more[..m]).value;
      OutcomeStays(c, t, more[m], i);
      KeepsOn(s, t, After(c, run + more).value, i);
    }
  }

  lemma {:induction false} AfterNext(c: Config, run: seq<Action>, more: seq<Action>)
    requires more != [] && After(c, run + more).Some?
    ensures var m := |more| - 1;
      After(c, run + more[..m]).Some? && After(c, run + more) == Step(c, After(c, run + more[..m]).value, more[m])
  {
    var m := |more| - 1;
    var all := run + more;
    assert all[..|all| - 1] == run + more[..m] && all[|all| - 1] == more[m];
  }

  lemma {:induction false} KeepsOn(s: State, t: State, u: State, i: nat)
    requires Keeps(s, t, i) && |u.outcomes| == |t.outcomes|
    requires i < |t.outcomes| && t.outcomes[i].Written? ==> u.outcomes[i] == t.outcomes[i]
    ensures Keeps(s, u, i)
  {
  }

  /** What `s` has recorded for control `i`, with the worker that drew it, is still there in `t`. */
  ghost predicate Keeps(s: State, t: State, i: nat) {
    i < |s.outcomes| && s.outcomes[i].Written? ==>
      && i < |t.outcomes| && t.outcomes[i] == s.outcomes[i]
      && i < |s.claims| && s.outcomes[i].writer == s.claims[i]
  }

  lemma {:induction false} OutcomeStays(c: Config, s: State, a: Action, i: nat)
    requires Inv(c, s) && Step(c, s, a).Some?
    ensures var t := Step(c, s, a).value;
            && |t.outcomes| == |s.outcomes|
            && (i < |s.outcomes| && s.outcomes[i].Written? ==> t.outcomes[i] == s.outcomes[i])
  {
  }

  lemma {:induction false} BusyMeansActive(s: State)
    requires Gate(s)
    ensures s.once.Busy? ==> !AllExited(s)
  {
    if s.once.Busy? { assert InOnce(s.workers[s.once.owner]); }
  }

  /** When all workers have left, the failure flag tells exactly whether some control failed. */
  lemma {:induction false} FailedFlagIsExact(c: Config, run: seq<Action>)
    requires After(c, run).Some? && AllExited(After(c, run).value)
    ensures var s := After(c, run).value;
            && (s.failed <==> exists i :: 0 <= i < |s.outcomes| && Failed(s.outcomes[i]))
            && (s.failed ==> s.firstIndex < |s.outcomes| && Failed(s.outcomes[s.firstIndex]))
  {
    InvAfter(c, run);
    var s := After(c, run).value;
    BusyMeansActive(s);
  }

  /** The control in a slot ran cleanly, and the executions its output reports reach the minimum. */
  ghost predicate RanToMinimum(c: Config, slot: Slot) {
    && slot.Written? && slot.outcome.err.None?
    && slot.run.err.None? && slot.run.started && slot.run.exitCode == 0 && slot.run.completed
    && c.count(slot.run.stdout) == Some(slot.outcome.executions) && slot.outcome.executions >= c.minimum
  }

  /** Without a failure and without a cancellation every control has run to its minimum. */
  lemma {:induction false} SuccessIsComplete(c: Config, run: seq<Action>)
    requires After(c, run).Some? && AllExited(After(c, run).value)
    requires c.jobs > 0 && !After(c, run).value.failed
    requires !After(c, run).value.cancelled && !After(c, run).value.parentDone
    ensures var s := After(c, run).value;
            |s.outcomes| == c.controls && forall i | 0 <= i < c.controls :: RanToMinimum(c, s.outcomes[i])
  {
    FailedFlagIsExact(c, run);
    InvAfter(c, run);
    var s := After(c, run).value;
    if c.controls > 0 { assert s.workers[0].Exited?; }
  }

  /** While the caller's context is alive, a failed campaign has a genuine failure to report: the one
      that won the once-only record. */
  lemma {:induction false} WinnerIsGenuine(c: Config, run: seq<Action>)
    requires c.honest && After(c, run).Some? && AllExited(After(c, run).value)
    requires After(c, run).value.failed && !After(c, run).value.parentDone
    ensures var s := After(c, run).value;
            && s.firstIndex < |s.outcomes| && Failed(s.outcomes[s.firstIndex])
            && Genuine(s.outcomes[s.firstIndex].outcome)
            && (Survives(s.outcomes[s.firstIndex].run) || !Echoes(s.outcomes[s.firstIndex].run))
  {
    FailedFlagIsExact(c, run);
    InvAfter(c, run);
    var s := After(c, run).value;
    BusyMeansActive(s);
    ClassesOfRun(c.count, s.outcomes[s.firstIndex].run, c.minimum);
  }
}

/** The aggregate deadline of a campaign as a list-scheduling bound on the same system.

Time is idealised: a control runs for at most `limit`, everything else takes no time, and the clock
only advances while every worker is either running a control or has left. */
module CampaignTiming {
  import opened Options
  import opened ExactWrite
  import opened Campaign

  const MAX_TIMEOUT := 1_800_000_000_000 // 30 minutes in nanoseconds

  // ----- the deadline -----

  function CampaignDeadline(timeout: int, goTimeout: int, jobs: int, targets: nat): int {
    if timeout != 0 then timeout
    else
      var lanes := if jobs < 1 then 1 else jobs;
      var batches := (targets + lanes - 1) / lanes;
      if batches <= 0 || goTimeout > MAX_TIMEOUT / batches then MAX_TIMEOUT
      else goTimeout * batches
  }

  /** How many rounds of `lanes` controls cover them all. */
  function Batches(targets: nat, lanes: nat): nat
    requires lanes > 0
  {
    (targets + lanes - 1) / lanes
  }

  /** As many rounds as are needed, and no more. */
  lemma {:induction false} BatchesExact(targets: nat, lanes: nat)
    requires targets > 0 && lanes > 0
    ensures (Batches(targets, lanes) - 1) * lanes < targets <= Batches(targets, lanes) * lanes
  {
    var b: int, n: int := Batches(targets, lanes), lanes;
    assert b * n <= targets + n - 1 < b * n + n;
    assert (b - 1) * n == b * n - n;
  }

  /** The number of jobs that runs: none asked for means one. */
  function Parallel(jobs: nat): (r: nat)
    ensures r > 0
  {
    if jobs == 0 then 1 else jobs
  }

  /** For a campaign without its own timeout the deadline is the smaller of the maximum and one timeout
      for each round, and computing it never exceeds the maximum. */
  lemma {:induction false} DeadlineIsCapped(goTimeout: nat, jobs: nat, targets: nat)
    requires targets > 0
    ensures forall timeout | timeout != 0 :: CampaignDeadline(timeout, goTimeout, jobs, targets) == timeout
    ensures var rounds := goTimeout * Batches(targets, Parallel(jobs));
      CampaignDeadline(0, goTimeout, jobs, targets) == if rounds <= MAX_TIMEOUT then rounds else MAX_TIMEOUT
    ensures CampaignDeadline(0, goTimeout, jobs, targets) <= MAX_TIMEOUT
  {
    var b := Batches(targets, Parallel(jobs));
    DivAtLeastOne(targets + Parallel(jobs) - 1, Parallel(jobs));
    DivBound(goTimeout, MAX_TIMEOUT, b);
  }

  lemma {:induction false} DivAtLeastOne(a: nat, b: nat)
    requires 0 < b <= a
    ensures a / b >= 1
  {
  }

  lemma {:induction false} DivBound(t: nat, m: nat, b: nat)
    requires b > 0
    ensures t <= m / b <==> t * b <= m
  {
    var q := m / b;
    assert q * b <= m < q * b + b;
    if t <= q {
      MulMonotone(b, t, q);
    } else {
      MulMonotone(b, q + 1, t);
    }
  }

  lemma {:induction false} MulMonotone(t: nat, a: nat, b: nat)
    requires a <= b
    ensures t * a <= t * b
  {
  }

  // ----- the timed system -----

  datatype Timed = Timed(core: State, now: nat, started: seq<nat>)

  datatype Event = Act(a: Action) | Tick(d: nat)

  function TimedStart(c: Config): Timed {
    Timed(Start(c), 0, [])
  }

  predicate MayWait(limit: nat, t: Timed, d: nat) {
    forall w | 0 <= w < |t.core.workers| ::
      var p := t.core.workers[w];
      p.Exited? || (p.Running? && p.index < |t.started| && t.now + d <= t.started[p.index] + limit)
  }

  function TimedStep(c: Config, limit: nat, t: Timed, e: Event): Option<Timed> {
    match e
    case Tick(d) => if MayWait(limit, t, d) then Some(t.(now := t.now + d)) else None
    case Act(a) =>
      match Step(c, t.core, a)
      case None => None
      case Some(s) => Some(Timed(s, t.now, if a.Claim? then t.started + [t.now] else t.started))
  }

  function TimedAfter(c: Config, limit: nat, run: seq<Event>): Option<Timed> {
    if run == [] then Some(TimedStart(c))
    else
      match TimedAfter(c, limit, run[..|run| - 1])
      case None => None
      case Some(t) => TimedStep(c, limit, t, run[|run| - 1])
  }

  function Lanes(c: Config): nat {
    Min(c.jobs, c.controls)
  }

  // ----- the scheduling invariant -----

  ghost predicate SomeClaiming(s: State) {
    exists w :: 0 <= w < |s.workers| && s.workers[w].Claiming?
  }

  /** The claim in progress, or any claim still to come, is in time for its round. */
  ghost predicate ClaimsInTime(c: Config, limit: nat, t: Timed)
    requires Lanes(c) > 0
  {
    t.core.next < c.controls && (!ContextDone(t.core) || SomeClaiming(t.core)) ==>
      t.now <= limit * (t.core.next / Lanes(c))
  }

  ghost predicate StartsInTime(c: Config, limit: nat, t: Timed)
    requires Lanes(c) > 0
  {
    && |t.started| == t.core.next
    && (forall i | 0 <= i < |t.started| && i < c.controls :: t.started[i] <= limit * (i / Lanes(c)))
  }

  ghost predicate RunsInTime(c: Config, limit: nat, t: Timed)
    requires Lanes(c) > 0
  {
    && (forall w | 0 <= w < |t.core.workers| && t.core.workers[w].Running? ::
          t.core.workers[w].index < |t.started| && t.now <= t.started[t.core.workers[w].index] + limit)
    && (!AllExited(t.core) ==> t.now <= limit * Batches(c.controls, Lanes(c)))
  }

  ghost predicate TimedInv(c: Config, limit: nat, t: Timed)
    requires Lanes(c) > 0
  {
    Inv(c, t.core) && ClaimsInTime(c, limit, t) && StartsInTime(c, limit, t) && RunsInTime(c, limit, t)
  }

  lemma {:induction false} RoundsGrow(limit: nat, i: nat, j: nat, lanes: nat)
    requires lanes > 0 && i <= j
    ensures limit * (i / lanes) <= limit * (j / lanes)
  {
    DivMonotone(i, j, lanes);
    MulMonotone(limit, i / lanes, j / lanes);
  }

  lemma {:induction false} DivMonotone(i: nat, j: nat, b: nat)
    requires b > 0 && i <= j
    ensures i / b <= j / b
  {
    var p: int, q: int, n: int := i / b, j / b, b;
    assert p * n <= i && j < q * n + n;
    assert (p - q) * n < n;
    MulSign(p - q, n);
  }

  lemma {:induction false} MulSign(d: int, b: int)
    requires b > 0
    ensures d >= 1 ==> d * b >= b
    ensures d <= -1 ==> d * b <= -b
  {
  }

  lemma {:induction false} NextRound(limit: nat, i: nat, lanes: nat)
    requires lanes > 0
    ensures limit * (i / lanes) + limit == limit * ((i + lanes) / lanes)
  {
    var p: int, q: int, n: int := i / lanes, (i + lanes) / lanes, lanes;
    assert p * n <= i < p * n + n;
    assert q * n <= i + n < q * n + n;
    assert -n < (q - p - 1) * n < n;
    MulSign(q - p - 1, n);
    assert limit * p + limit == limit * (p + 1);
  }

  // ----- as many distinct indices as lanes reach down a whole round -----

  function Range(lo: nat, hi: nat): set<nat> {
    if lo < hi then Range(lo, hi - 1) + {hi - 1} else {}
  }

  function Elements(f: seq<nat>): set<nat> {
    set x | x in f
  }

  lemma {:induction false} RangeSize(lo: nat, hi: nat)
    requires lo <= hi
    ensures |Range(lo, hi)| == hi - lo && forall x: nat :: x in Range(lo, hi) <==> lo <= x < hi
    decreases hi
  {
    if lo < hi { RangeSize(lo, hi - 1); }
  }

  lemma {:induction false} SubsetSize(a: set<nat>, b: set<nat>)
    requires a <= b
    ensures |a| <= |b|
  {
    if a != {} {
      var x :| x in a;
      SubsetSize(a - {x}, b - {x});
    }
  }

  lemma {:induction false} DistinctSize(f: seq<nat>)
    requires forall i, j | 0 <= i < j < |f| :: f[i] != f[j]
    ensures |Elements(f)| == |f|
  {
    if f != [] {
      var m := |f| - 1;
      DistinctSize(f[..m]);
      assert Elements(f) == Elements(f[..m]) + {f[m]};
    }
  }

  lemma {:induction false} SomeIndexIsLow(f: seq<nat>, m: nat) returns (i: nat)
    requires |f| > 0 && (forall i | 0 <= i < |f| :: f[i] < m) && (forall i, j | 0 <= i < j < |f| :: f[i] != f[j])
    ensures i < |f| <= m && f[i] <= m - |f|
  {
    DistinctSize(f);
    RangeSize(0, m);
    SubsetSize(Elements(f), Range(0, m));
    if forall i | 0 <= i < |f| :: f[i] > m - |f| {
      RangeSize(m - |f| + 1, m);
      SubsetSize(Elements(f), Range(m - |f| + 1, m));
    }
    i :| 0 <= i < |f| && f[i] <= m - |f|;
  }

  // ----- every event keeps the invariant -----

  lemma {:induction false} TickKeeps(c: Config, limit: nat, t: Timed, d: nat)
    requires Lanes(c) > 0 && TimedInv(c, limit, t) && MayWait(limit, t, d)
    ensures TimedInv(c, limit, t.(now := t.now + d))
  {
    var s := t.core;
    if s.next < c.controls && !ContextDone(s) {
      // No worker has left, so all of them are running, and one runs a control of an earlier round.
      assert forall w | 0 <= w < |s.workers| :: s.workers[w].Running?;
      var f := seq(|s.workers|, w requires 0 <= w < |s.workers| => s.workers[w].index);
      forall v, w | 0 <= v < w < |f| ensures f[v] != f[w] {
        assert s.claims[s.workers[v].index] == v && s.claims[s.workers[w].index] == w;
      }
      var w := SomeIndexIsLow(f, s.next);
      NextRound(limit, f[w], Lanes(c));
      RoundsGrow(limit, f[w] + Lanes(c), s.next, Lanes(c));
      assert s.workers[w].Running?;
    }
    if !AllExited(s) {
      var w :| 0 <= w < |s.workers| && !s.workers[w].Exited?;
      var i := s.workers[w].index;
      NextRound(limit, i, Lanes(c));
      RoundsGrow(limit, i + Lanes(c), c.controls + Lanes(c) - 1, Lanes(c));
    }
  }

  /** Nobody starts a claim under a context that is done. */
  lemma {:induction false} ClaimingAlready(c: Config, s: State, a: Action, w: nat)
    requires Step(c, s, a).Some? && ContextDone(Step(c, s, a).value)
    requires w < |Step(c, s, a).value.workers| && Step(c, s, a).value.workers[w].Claiming?
    ensures w < |s.workers| && s.workers[w].Claiming? && SomeClaiming(s)
  {
  }

  lemma {:induction false} ActKeepsClaims(c: Config, limit: nat, t: Timed, a: Action)
    requires Lanes(c) > 0 && TimedInv(c, limit, t) && Step(c, t.core, a).Some?
    ensures ClaimsInTime(c, limit, TimedStep(c, limit, t, Act(a)).value)
  {
    var s, s' := t.core, Step(c, t.core, a).value;
    if a.Claim? && s'.next < c.controls {
      assert s.workers[a.w].Claiming?;
      RoundsGrow(limit, s.next, s.next + 1, Lanes(c));
    } else if s'.next < c.controls && SomeClaiming(s') && ContextDone(s') {
      var w :| 0 <= w < |s'.workers| && s'.workers[w].Claiming?;
      ClaimingAlready(c, s, a, w);
    }
  }

  lemma {:induction false} ActKeepsStarts(c: Config, limit: nat, t: Timed, a: Action)
    requires Lanes(c) > 0 && TimedInv(c, limit, t) && Step(c, t.core, a).Some?
    ensures StartsInTime(c, limit, TimedStep(c, limit, t, Act(a)).value)
  {
    if a.Claim? { assert t.core.workers[a.w].Claiming?; }
  }

  lemma {:induction false} ActKeepsRuns(c: Config, limit: nat, t: Timed, a: Action)
    requires Lanes(c) > 0 && TimedInv(c, limit, t) && Step(c, t.core, a).Some?
    ensures RunsInTime(c, limit, TimedStep(c, limit, t, Act(a)).value)
  {
  }

  lemma {:induction false} TimedInvStart(c: Config, limit: nat)
    requires Lanes(c) > 0
    ensures TimedInv(c, limit, TimedStart(c))
  {
    assert After(c, []) == Some(Start(c));
    InvAfter(c, []);
  }

  lemma {:induction false} EventKeeps(c: Config, limit: nat, t: Timed, e: Event)
    requires Lanes(c) > 0 && TimedInv(c, limit, t) && TimedStep(c, limit, t, e).Some?
    ensures TimedInv(c, limit, TimedStep(c, limit, t, e).value)
  {
    match e
    case Tick(d) => TickKeeps(c, limit, t, d);
    case Act(a) =>
      InvStep(c, t.core, a);
      ActKeepsClaims(c, limit, t, a);
      ActKeepsStarts(c, limit, t, a);
      ActKeepsRuns(c, limit, t, a);
  }

  /** The scheduling invariant holds in every state of every timed run. */
  lemma {:induction false} TimedInvAfter(c: Config, limit: nat, run: seq<Event>)
    requires Lanes(c) > 0 && TimedAfter(c, limit, run).Some?
    ensures TimedInv(c, limit, TimedAfter(c, limit, run).value)
  {
    if run == [] {
      TimedInvStart(c, limit);
    } else {
      TimedInvAfter(c, limit, run[..|run| - 1]);
      EventKeeps(c, limit, TimedAfter(c, limit, run[..|run| - 1]).value, run[|run| - 1]);
    }
  }

  /** The `k`-th control to be claimed starts within `k / lanes` rounds, in every timed run. */
  lemma {:induction false} ControlsStartInTime(c: Config, limit: nat, run: seq<Event>, k: nat)
    requires Lanes(c) > 0 && TimedAfter(c, limit, run).Some?
    requires k < c.controls && k < TimedAfter(c, limit, run).value.core.next
    ensures k < |TimedAfter(c, limit, run).value.started|
    ensures TimedAfter(c, limit, run).value.started[k] <= limit * (k / Lanes(c))
  {
    TimedInvAfter(c, limit, run);
  }

  lemma {:induction false} SameBatches(targets: nat, jobs: nat)
    requires targets > 0 && jobs > 0
    ensures Batches(targets, Min(jobs, targets)) == Batches(targets, jobs)
  {
    if jobs > targets {
      assert targets + targets - 1 < 2 * targets;
      assert targets + jobs - 1 < 2 * jobs;
      OneRound(targets + targets - 1, targets);
      OneRound(targets + jobs - 1, jobs);
    }
  }

  lemma {:induction false} OneRound(a: nat, b: nat)
    requires b <= a < 2 * b
    ensures a / b == 1
  {
  }

  /** Whenever the deadline is not capped, every worker has left by the time it expires: the clock is
      past it only after all of them have. */
  lemma {:induction false} CampaignMeetsDeadline(c: Config, goTimeout: nat, jobs: nat, run: seq<Event>)
    requires c.jobs == Parallel(jobs) && c.controls > 0 && TimedAfter(c, goTimeout, run).Some?
    requires goTimeout * Batches(c.controls, c.jobs) <= MAX_TIMEOUT
    requires TimedAfter(c, goTimeout, run).value.now > CampaignDeadline(0, goTimeout, jobs, c.controls)
    ensures AllExited(TimedAfter(c, goTimeout, run).value.core)
  {
    TimedInvAfter(c, goTimeout, run);
    SameBatches(c.controls, c.jobs);
    DeadlineIsCapped(goTimeout, jobs, c.controls);
  }

  // ----- a capped deadline is overrun: every control succeeds and takes all the time it has -----

  /** What worker `w` does once it has drawn its index of the round that begins at `base`. */
  function Drawn(c: Config, base: nat, w: nat): Worker {
    if base + w < c.controls then Running(base + w) else Exited
  }

  /** What it does until then: it has just used up its time in the round before. */
  function Waiting(r: nat, before: int, w: nat): Worker
    requires r > 0 ==> before >= 0
  {
    if r == 0 then Checking else Running(before + w)
  }

  /** At the very start of round `r`, the first `j` workers have drawn their index of it, and the next one is at `p`. */
  ghost predicate Turn(c: Config, limit: nat, t: Timed, r: nat, base: nat, before: int, j: nat, p: Worker) {
    && |t.core.workers| == Lanes(c) && |t.core.outcomes| == c.controls && !ContextDone(t.core)
    && t.now == limit * r && t.core.next == |t.started| == base + j && before + Lanes(c) == base < c.controls
    && (r == 0 ==> base == 0) && (r > 0 ==> before >= 0)
    && (forall w | 0 <= w < j && w < Lanes(c) :: t.core.workers[w] == Drawn(c, base, w))
    && (j < Lanes(c) ==> t.core.workers[j] == p)
    && (forall w | j < w < Lanes(c) :: t.core.workers[w] == Waiting(r, before, w))
    && (forall i | base <= i < base + j :: t.started[i] == t.now)
  }

  ghost predicate Lap(c: Config, limit: nat, t: Timed, r: nat, base: nat, before: int, j: nat) {
    (r > 0 ==> before >= 0) && Turn(c, limit, t, r, base, before, j, Waiting(r, before, j))
  }

  function Success(output: bytes): Run {
    Run(None, true, 0, true, false, output)
  }

  lemma {:induction false} AfterEvent(c: Config, limit: nat, run: seq<Event>, e: Event)
    requires TimedAfter(c, limit, run).Some?
    ensures TimedAfter(c, limit, run + [e]) == TimedStep(c, limit, TimedAfter(c, limit, run).value, e)
  {
    assert (run + [e])[..|run|] == run;
  }

  lemma {:induction false} FinishTurn(c: Config, limit: nat, t: Timed, r: nat, base: nat, before: int, j: nat,
                                      output: bytes)
    returns (next: Timed)
    requires Suffices(c, output) && j < Lanes(c) && r > 0 && before >= 0
    requires Turn(c, limit, t, r, base, before, j, Running(before + j))
    ensures TimedStep(c, limit, t, Act(Finish(j, Success(output)))) == Some(next)
    ensures Turn(c, limit, next, r, base, before, j, Checking)
  {
    next := TimedStep(c, limit, t, Act(Finish(j, Success(output)))).value;
  }

  lemma {:induction false} CheckTurn(c: Config, limit: nat, t: Timed, r: nat, base: nat, before: int, j: nat)
    returns (next: Timed)
    requires j < Lanes(c) && Turn(c, limit, t, r, base, before, j, Checking)
    ensures TimedStep(c, limit, t, Act(Check(j))) == Some(next) && Turn(c, limit, next, r, base, before, j, Claiming)
  {
    next := TimedStep(c, limit, t, Act(Check(j))).value;
  }

  lemma {:induction false} ClaimTurn(c: Config, limit: nat, t: Timed, r: nat, base: nat, before: int, j: nat)
    returns (next: Timed)
    requires j < Lanes(c) && Turn(c, limit, t, r, base, before, j, Claiming)
    ensures TimedStep(c, limit, t, Act(Claim(j))) == Some(next) && Lap(c, limit, next, r, base, before, j + 1)
  {
    next := TimedStep(c, limit, t, Act(Claim(j))).value;
  }

  /** Worker `j` ends its control, if it has one, and draws its next index. */
  lemma {:induction false} NextLane(c: Config, limit: nat, run: seq<Event>, r: nat, base: nat, before: int, j: nat,
                                    output: bytes)
    returns (more: seq<Event>)
    requires Suffices(c, output) && TimedAfter(c, limit, run).Some? && j < Lanes(c)
    requires Lap(c, limit, TimedAfter(c, limit, run).value, r, base, before, j)
    ensures TimedAfter(c, limit, more).Some? && Lap(c, limit, TimedAfter(c, limit, more).value, r, base, before, j + 1)
  {
    more := run;
    var t := TimedAfter(c, limit, run).value;
    if r > 0 {
      AfterEvent(c, limit, more, Act(Finish(j, Success(output))));
      more := more + [Act(Finish(j, Success(output)))];
      t := FinishTurn(c, limit, t, r, base, before, j, output);
    }
    AfterEvent(c, limit, more, Act(Check(j)));
    more := more + [Act(Check(j))];
    t := CheckTurn(c, limit, t, r, base, before, j);
    AfterEvent(c, limit, more, Act(Claim(j)));
    more := more + [Act(Claim(j))];
    t := ClaimTurn(c, limit, t, r, base, before, j);
  }

  lemma {:induction false} Lanesful(c: Config, limit: nat, run: seq<Event>, r: nat, base: nat, before: int, j: nat,
                                    output: bytes)
    returns (more: seq<Event>)
    requires Suffices(c, output) && TimedAfter(c, limit, run).Some? && j <= Lanes(c)
    requires Lap(c, limit, TimedAfter(c, limit, run).value, r, base, before, 0)
    ensures TimedAfter(c, limit, more).Some? && Lap(c, limit, TimedAfter(c, limit, more).value, r, base, before, j)
  {
    more := run;
    if j > 0 {
      more := Lanesful(c, limit, run, r, base, before, j - 1, output);
      more := NextLane(c, limit, more, r, base, before, j - 1, output);
    }
  }

  /** A whole round passes. */
  lemma {:induction false} RoundPasses(c: Config, limit: nat, t: Timed, r: nat, base: nat, before: int)
    requires Lap(c, limit, t, r, base, before, Lanes(c))
    ensures TimedStep(c, limit, t, Tick(limit)) == Some(t.(now := limit * (r + 1)))
  {
    assert limit * (r + 1) == limit * r + limit;
    forall w | 0 <= w < |t.core.workers|
      ensures t.core.workers[w].Exited?
              || (t.core.workers[w].Running? && t.core.workers[w].index < |t.started|
                  && t.now + limit <= t.started[t.core.workers[w].index] + limit)
    {
      assert t.core.workers[w] == Drawn(c, base, w);
    }
  }

  /** The run up to the end of round `r`. */
  lemma {:induction false} Rounds(c: Config, limit: nat, r: nat, output: bytes) returns (run: seq<Event>)
    requires Suffices(c, output) && Lanes(c) > 0 && r * Lanes(c) < c.controls
    ensures TimedAfter(c, limit, run).Some?
    ensures Lap(c, limit, TimedAfter(c, limit, run).value, r, r * Lanes(c), r * Lanes(c) - Lanes(c), Lanes(c))
    decreases r
  {
    var base := r * Lanes(c);
    if r == 0 {
      run := [];
    } else {
      assert (r - 1) * Lanes(c) == base - Lanes(c);
      run := Rounds(c, limit, r - 1, output);
      RoundPasses(c, limit, TimedAfter(c, limit, run).value, r - 1, base - Lanes(c), base - Lanes(c) - Lanes(c));
      AfterEvent(c, limit, run, Tick(limit));
      run := run + [Tick(limit)];
    }
    run := Lanesful(c, limit, run, r, base, base - Lanes(c), Lanes(c), output);
  }

  /** At the end of a round of which there is a control, that control is still running. */
  lemma {:induction false} RoundRuns(c: Config, limit: nat, r: nat, output: bytes) returns (run: seq<Event>)
    requires Suffices(c, output) && Lanes(c) > 0 && r * Lanes(c) < c.controls
    ensures TimedAfter(c, limit, run).Some? && TimedAfter(c, limit, run).value.now == limit * (r + 1)
    ensures !AllExited(TimedAfter(c, limit, run).value.core)
  {
    var base := r * Lanes(c);
    run := Rounds(c, limit, r, output);
    var t := TimedAfter(c, limit, run).value;
    RoundPasses(c, limit, t, r, base, base - Lanes(c));
    assert t.core.workers[0] == Drawn(c, base, 0);
    AfterEvent(c, limit, run, Tick(limit));
    run := run + [Tick(limit)];
  }

  lemma {:induction false} LastRound(controls: nat, lanes: nat)
    requires controls > 0 && lanes > 0
    ensures Batches(controls, lanes) > 0 && (Batches(controls, lanes) - 1) * lanes < controls
  {
    var b: int, n: int := Batches(controls, lanes), lanes;
    DivAtLeastOne(controls + lanes - 1, lanes);
    assert b * n <= controls + lanes - 1;
    assert (b - 1) * n == b * n - n;
  }

  /** The clock can pass a deadline that is capped while a control is still running. */
  lemma {:induction false} CappedIsOverrun(c: Config, goTimeout: nat, jobs: nat, output: bytes)
    returns (run: seq<Event>)
    requires c.jobs == Parallel(jobs) && c.controls > 0 && Suffices(c, output)
    requires goTimeout * Batches(c.controls, c.jobs) > MAX_TIMEOUT
    ensures TimedAfter(c, goTimeout, run).Some?
    ensures TimedAfter(c, goTimeout, run).value.now > CampaignDeadline(0, goTimeout, jobs, c.controls)
    ensures !AllExited(TimedAfter(c, goTimeout, run).value.core)
  {
    SameBatches(c.controls, c.jobs);
    DeadlineIsCapped(goTimeout, jobs, c.controls);
    LastRound(c.controls, Lanes(c));
    run := RoundRuns(c, goTimeout, Batches(c.controls, Lanes(c)) - 1, output);
  }

  /** Whenever the clock is past the deadline, all workers have left. */
  ghost predicate MeetsDeadline(c: Config, goTimeout: nat, jobs: nat) {
    forall run :: TimedAfter(c, goTimeout, run).Some?
                  && TimedAfter(c, goTimeout, run).value.now > CampaignDeadline(0, goTimeout, jobs, c.controls)
                  ==> AllExited(TimedAfter(c, goTimeout, run).value.core)
  }

  /** The deadline is long enough for every campaign exactly when it is not capped. */
  lemma {:induction false} DeadlineIsExact(c: Config, goTimeout: nat, jobs: nat, output: bytes)
    requires c.jobs == Parallel(jobs) && c.controls > 0 && Suffices(c, output)
    ensures MeetsDeadline(c, goTimeout, jobs) <==> goTimeout * Batches(c.controls, Parallel(jobs)) <= MAX_TIMEOUT
  {
    if goTimeout * Batches(c.controls, c.jobs) <= MAX_TIMEOUT {
      forall run | TimedAfter(c, goTimeout, run).Some?
                   && TimedAfter(c, goTimeout, run).value.now > CampaignDeadline(0, goTimeout, jobs, c.controls)
        ensures AllExited(TimedAfter(c, goTimeout, run).value.core)
      {
        CampaignMeetsDeadline(c, goTimeout, jobs, run);
      }
    } else {
      var run := CappedIsOverrun(c, goTimeout, jobs, output);
    }
  }
}

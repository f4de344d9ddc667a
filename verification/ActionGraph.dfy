/** The graph of repository-local actions and what it demands of the resolver's budgets. */
module ActionGraph {
  import opened Options
  import opened WorkflowExtraction

  const MAX_LOCAL_ACTIONS := 254
  const MAX_LOCAL_ACTION_BYTES := 16777216

  /** The metadata of one action directory: absent, ambiguous or unreadable; or read, and then either
      malformed or carrying references. */
  datatype Metadata = Unreadable | Read(size: nat, references: Option<seq<Reference>>)

  datatype Target = Reusable(path: string) | Local(directory: string) | External

  /** What the resolver is given: the admitted workflow paths, what a reference names, and the repository's
      action metadata. */
  datatype World = World(workflows: seq<string>, target: string -> Target, action: string -> Metadata)

  const REUSABLE_PREFIX := "./.github/workflows/"

  /** How the program tells what a reference names; `directory` is its lexical rule for local actions. */
  function TargetRule(directory: string -> Option<string>, value: string): Target {
    if |value| >= |REUSABLE_PREFIX| && value[..|REUSABLE_PREFIX|] == REUSABLE_PREFIX then
      Reusable(".github/workflows/" + value[|REUSABLE_PREFIX|..])
    else
      match directory(value)
      case Some(d) => Local(d)
      case None => External
  }

  function Repository(workflows: seq<string>, directory: string -> Option<string>, action: string -> Metadata): World {
    World(workflows, value => TargetRule(directory, value), action)
  }

  function TargetOf(w: World, r: Reference): Target {
    w.target(r.value)
  }

  predicate Readable(w: World, d: string) {
    w.action(d).Read? && w.action(d).references.Some?
  }

  /** The references an action directory makes itself. */
  function Own(w: World, d: string): seq<Reference> {
    if Readable(w, d) then w.action(d).references.value else []
  }

  predicate Mentions(w: World, rs: seq<Reference>, d: string) {
    exists r <- rs :: TargetOf(w, r) == Local(d)
  }

  predicate KnownWorkflow(w: World, r: Reference) {
    TargetOf(w, r).Reusable? ==> TargetOf(w, r).path in w.workflows
  }

  /** What the references of a repository name. A value `./` and a path under `.github/workflows/` names the workflow at
      that path: it is known exactly when it is one of the checked files, and it is neither followed nor emitted. */
  lemma {:induction false} WorkflowsAreNamed(workflows: seq<string>, directory: string -> Option<string>,
                                             action: string -> Metadata, r: Reference, path: string)
    requires r.value == "./" + path && ".github/workflows/" <= path
    ensures var w := Repository(workflows, directory, action);
      && (KnownWorkflow(w, r) <==> path in workflows)
      && Externals(w, [r]) == [] && forall d :: !Mentions(w, [r], d)
  {
    var w := Repository(workflows, directory, action);
    assert r.value == REUSABLE_PREFIX + path[18..];
    assert path == ".github/workflows/" + path[18..];
    assert TargetOf(w, r) == Reusable(path);
  }

  /** Any other value names no workflow. It is followed to the directory that it names, or emitted if it names none. */
  lemma {:induction false} OthersAreNamed(workflows: seq<string>, directory: string -> Option<string>,
                                          action: string -> Metadata, r: Reference)
    requires !("./.github/workflows/" <= r.value)
    ensures var w := Repository(workflows, directory, action);
      && KnownWorkflow(w, r)
      && Externals(w, [r]) == (if directory(r.value).None? then [r] else [])
      && forall d :: Mentions(w, [r], d) <==> directory(r.value) == Some(d)
  {
    var w := Repository(workflows, directory, action);
    assert [r][..0] == [];
    assert r in [r];
  }

  // ----- walks -----

  /** A walk starts at a directory that a root reference names and follows local references. */
  ghost predicate Walk(w: World, roots: seq<Reference>, p: seq<string>) {
    && p != [] && Mentions(w, roots, p[0])
    && forall i | 0 <= i < |p| - 1 :: Link(w, p, i)
  }

  ghost predicate Link(w: World, p: seq<string>, i: nat)
    requires i < |p| - 1
  {
    Mentions(w, Own(w, p[i]), p[i + 1])
  }

  ghost predicate Reaches(w: World, roots: seq<Reference>, d: string) {
    exists p :: Walk(w, roots, p) && p[|p| - 1] == d
  }

  ghost predicate Cyclic(w: World, roots: seq<Reference>) {
    exists p, i, j :: Walk(w, roots, p) && 0 <= i < j < |p| && p[i] == p[j]
  }

  /** Some reference of the workflows, or of a reachable action, names a workflow that is not there. */
  ghost predicate NamesUnknown(w: World, roots: seq<Reference>) {
    || (exists r <- roots :: !KnownWorkflow(w, r))
    || (exists d, r :: Reaches(w, roots, d) && r in Own(w, d) && !KnownWorkflow(w, r))
  }

  // ----- demand -----

  datatype Measure = References | Bytes

  function Weight(w: World, m: Measure, d: string): nat {
    match m
    case References => |Own(w, d)|
    case Bytes => if w.action(d).Read? then w.action(d).size else 0
  }

  function Sum(w: World, m: Measure, ds: seq<string>): nat {
    if ds == [] then 0 else Sum(w, m, ds[..|ds| - 1]) + Weight(w, m, ds[|ds| - 1])
  }

  lemma {:induction false} SumConcat(w: World, m: Measure, a: seq<string>, b: seq<string>)
    ensures Sum(w, m, a + b) == Sum(w, m, a) + Sum(w, m, b)
  {
    if b == [] {
      assert a + b == a;
    } else {
      var k := |b| - 1;
      SumConcat(w, m, a, b[..k]);
      assert (a + b)[..|a| + k] == a + b[..k];
    }
  }

  ghost predicate Distinct(ds: seq<string>) {
    forall i, j | 0 <= i < j < |ds| :: ds[i] != ds[j]
  }

  /** Distinct directories taken from a list without repetition weigh no more than the list. */
  lemma {:induction false} SumPart(w: World, m: Measure, part: seq<string>, all: seq<string>)
    requires Distinct(part) && forall d <- part :: d in all
    ensures Sum(w, m, part) <= Sum(w, m, all) && |part| <= |all|
    decreases |part|
  {
    if part != [] {
      var k := |part| - 1;
      assert part[k] in part;
      var i :| 0 <= i < |all| && all[i] == part[k];
      forall d | d in part[..k] ensures d in all[..i] + all[i + 1..] {
        assert d in part;
        var j :| 0 <= j < |all| && all[j] == d;
        assert d == if j < i then (all[..i] + all[i + 1..])[j] else (all[..i] + all[i + 1..])[j - 1];
      }
      SumPart(w, m, part[..k], all[..i] + all[i + 1..]);
      SumRemove(w, m, all, i);
    }
  }

  lemma {:induction false} SumRemove(w: World, m: Measure, all: seq<string>, i: nat)
    requires i < |all|
    ensures Sum(w, m, all) == Sum(w, m, all[..i] + all[i + 1..]) + Weight(w, m, all[i])
  {
    SumConcat(w, m, all[..i], all[i + 1..]);
    SumConcat(w, m, all[..i], [all[i]] + all[i + 1..]);
    SumConcat(w, m, [all[i]], all[i + 1..]);
    assert all == all[..i] + ([all[i]] + all[i + 1..]);
    assert [all[i]][..0] == [];
  }

  /** Distinct reachable directories ask for more than there is. */
  ghost predicate Overdrawn(w: World, roots: seq<Reference>, m: Measure, base: nat, limit: nat) {
    exists ds :: Distinct(ds) && (forall d <- ds :: Reaches(w, roots, d)) && base + Sum(w, m, ds) > limit
  }

  ghost predicate Crowded(w: World, roots: seq<Reference>) {
    exists ds :: Distinct(ds) && (forall d <- ds :: Reaches(w, roots, d)) && |ds| > MAX_LOCAL_ACTIONS
  }

  /** The references can be resolved: everything reachable is readable and known, nothing is cyclic, and
      every budget holds for all that is reachable. */
  ghost predicate Resolvable(w: World, roots: seq<Reference>) {
    && !Cyclic(w, roots)
    && (forall d | Reaches(w, roots, d) :: Readable(w, d))
    && !NamesUnknown(w, roots)
    && !Overdrawn(w, roots, References, |roots|, MAX_WORKFLOW_REFERENCES)
    && !Overdrawn(w, roots, Bytes, 0, MAX_LOCAL_ACTION_BYTES)
    && !Crowded(w, roots)
  }

  // ----- what is emitted -----

  /** The references of a list that neither name a workflow nor a local action. */
  function Externals(w: World, rs: seq<Reference>): seq<Reference> {
    if rs == [] then []
    else
      Externals(w, rs[..|rs| - 1]) + if TargetOf(w, rs[|rs| - 1]).External? then [rs[|rs| - 1]] else []
  }

  /** What all of these give together. */
  function Total<T>(give: string -> multiset<T>, ds: seq<string>): multiset<T> {
    if ds == [] then multiset{} else Total(give, ds[..|ds| - 1]) + give(ds[|ds| - 1])
  }

  lemma {:induction false} TotalMore<T>(give: string -> multiset<T>, ds: seq<string>, d: string)
    ensures Total(give, ds + [d]) == Total(give, ds) + give(d)
  {
    assert (ds + [d])[..|ds|] == ds;
  }

  lemma {:induction false} TotalConcat<T>(give: string -> multiset<T>, a: seq<string>, b: seq<string>)
    ensures Total(give, a + b) == Total(give, a) + Total(give, b)
    decreases |b|
  {
    if b == [] {
      assert a + b == a;
    } else {
      var k := |b| - 1;
      TotalConcat(give, a, b[..k]);
      TotalMore(give, a + b[..k], b[k]);
      assert a + b == a + b[..k] + [b[k]];
    }
  }

  function Giving(w: World): string -> multiset<Reference> {
    d => multiset(Externals(w, Own(w, d)))
  }

  /** Every listed directory's own external references. */
  function Contributions(w: World, ds: seq<string>): multiset<Reference> {
    Total(Giving(w), ds)
  }

  lemma {:induction false} ContributionsConcat(w: World, a: seq<string>, b: seq<string>)
    ensures Contributions(w, a + b) == Contributions(w, a) + Contributions(w, b)
  {
    TotalConcat(Giving(w), a, b);
  }

  lemma {:induction false} ExternalsConcat(w: World, a: seq<Reference>, b: seq<Reference>)
    ensures Externals(w, a + b) == Externals(w, a) + Externals(w, b)
  {
    if b == [] {
      assert a + b == a;
    } else {
      var k := |b| - 1;
      ExternalsConcat(w, a, b[..k]);
      assert (a + b)[..|a| + k] == a + b[..k];
    }
  }

  // ----- finishing orders -----

  /** Every local reference leads into `done`, and every workflow it names is there. */
  ghost predicate Settles(w: World, rs: seq<Reference>, done: seq<string>) {
    forall r <- rs :: KnownWorkflow(w, r) && (TargetOf(w, r).Local? ==> TargetOf(w, r).directory in done)
  }

  /** A finishing order: each directory is readable and leads only to earlier ones. */
  ghost predicate Finished(w: World, order: seq<string>) {
    && Distinct(order)
    && forall i | 0 <= i < |order| :: Ready(w, order, i)
  }

  ghost predicate Ready(w: World, order: seq<string>, i: nat)
    requires i < |order|
  {
    Readable(w, order[i]) && Settles(w, Own(w, order[i]), order[..i])
  }

  /** In a finishing order that covers the roots, every walk runs strictly downwards. */
  lemma {:induction false} WalkDescends(w: World, roots: seq<Reference>, order: seq<string>, p: seq<string>, n: nat)
    returns (at: seq<nat>)
    requires Finished(w, order) && Settles(w, roots, order) && Walk(w, roots, p) && 0 < n <= |p|
    ensures |at| == n
    ensures forall i | 0 <= i < n :: at[i] < |order| && order[at[i]] == p[i]
    ensures forall i, j | 0 <= i < j < n :: at[j] < at[i]
  {
    if n == 1 {
      assert p[0] in order;
      var k: nat :| k < |order| && order[k] == p[0];
      at := [k];
    } else {
      at := WalkDescends(w, roots, order, p, n - 1);
      var last := at[n - 2];
      assert Link(w, p, n - 2) && Ready(w, order, last);
      assert p[n - 1] in order[..last];
      var k: nat :| k < last && order[k] == p[n - 1];
      at := at + [k];
    }
  }

  lemma {:induction false} FinishedIsAcyclic(w: World, roots: seq<Reference>, order: seq<string>)
    requires Finished(w, order) && Settles(w, roots, order)
    ensures !Cyclic(w, roots)
    ensures forall d | Reaches(w, roots, d) :: d in order
  {
    forall p, i: int, j: int | Walk(w, roots, p) && 0 <= i < j < |p|
      ensures p[i] != p[j]
    {
      var at := WalkDescends(w, roots, order, p, |p|);
      assert order[at[i]] == p[i] && order[at[j]] == p[j] && at[j] < at[i];
    }
    forall d | Reaches(w, roots, d) ensures d in order {
      var p :| Walk(w, roots, p) && p[|p| - 1] == d;
      var at := WalkDescends(w, roots, order, p, |p|);
      assert order[at[|p| - 1]] == d;
    }
  }

  lemma {:induction false} FinishedKnows(w: World, roots: seq<Reference>, order: seq<string>)
    requires Finished(w, order) && Settles(w, roots, order)
    ensures !NamesUnknown(w, roots) && forall d | Reaches(w, roots, d) :: Readable(w, d)
  {
    FinishedIsAcyclic(w, roots, order);
    forall d | Reaches(w, roots, d) ensures Readable(w, d) && forall r <- Own(w, d) :: KnownWorkflow(w, r) {
      var i :| 0 <= i < |order| && order[i] == d;
      assert Ready(w, order, i);
    }
  }

  lemma {:induction false} FinishedFits(w: World, roots: seq<Reference>, order: seq<string>, m: Measure, base: nat,
                                        limit: nat)
    requires Finished(w, order) && Settles(w, roots, order) && base + Sum(w, m, order) <= limit
    ensures !Overdrawn(w, roots, m, base, limit)
  {
    FinishedIsAcyclic(w, roots, order);
    forall ds | Distinct(ds) && forall d <- ds :: Reaches(w, roots, d)
      ensures Sum(w, m, ds) <= Sum(w, m, order)
    {
      SumPart(w, m, ds, order);
    }
  }

  /** A finishing order of the reachable directories, within the budgets, shows that all is resolvable. */
  lemma {:induction false} FinishedIsResolvable(w: World, roots: seq<Reference>, order: seq<string>)
    requires Finished(w, order) && Settles(w, roots, order)
    requires |roots| + Sum(w, References, order) <= MAX_WORKFLOW_REFERENCES
    requires Sum(w, Bytes, order) <= MAX_LOCAL_ACTION_BYTES && |order| <= MAX_LOCAL_ACTIONS
    ensures Resolvable(w, roots)
  {
    FinishedIsAcyclic(w, roots, order);
    FinishedKnows(w, roots, order);
    FinishedFits(w, roots, order, References, |roots|, MAX_WORKFLOW_REFERENCES);
    FinishedFits(w, roots, order, Bytes, 0, MAX_LOCAL_ACTION_BYTES);
    forall ds | Distinct(ds) && forall d <- ds :: Reaches(w, roots, d)
      ensures |ds| <= |order|
    {
      SumPart(w, Bytes, ds, order);
    }
  }
}

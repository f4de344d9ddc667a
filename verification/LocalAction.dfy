/** The resolver of repository-local actions: a depth-first walk with a visited set, an active path and
global budgets, shared by all workflow files of one verification. */
module LocalAction {
  import opened WorkflowExtraction
  import opened ActionGraph

  datatype Failure =
    | Cancelled
    | TooManyReferences
    | UnknownWorkflow
    | ActionCycle
    | TooManyActions
    | BadMetadata
    | TooManyBytes

  /** The reason a failure gives is true of the graph, whatever the walk has or has not seen yet. */
  ghost predicate Genuine(w: World, roots: seq<Reference>, seen: nat, e: Failure, done: bool) {
    match e
    case Cancelled => done
    case TooManyReferences => Overdrawn(w, roots, Measure.References, seen, MAX_WORKFLOW_REFERENCES)
    case UnknownWorkflow => NamesUnknown(w, roots)
    case ActionCycle => Cyclic(w, roots)
    case TooManyActions => Crowded(w, roots)
    case BadMetadata => exists d :: Reaches(w, roots, d) && !Readable(w, d)
    case TooManyBytes => Overdrawn(w, roots, Bytes, 0, MAX_LOCAL_ACTION_BYTES)
  }

  lemma {:induction false} GenuineMeansUnresolvable(w: World, roots: seq<Reference>, seen: nat, e: Failure, done: bool)
    requires Genuine(w, roots, seen, e, done) && !e.Cancelled? && seen <= |roots|
    ensures !Resolvable(w, roots)
  {
    if e.TooManyReferences? {
      var ds :| Distinct(ds) && (forall d <- ds :: Reaches(w, roots, d))
                && seen + Sum(w, Measure.References, ds) > MAX_WORKFLOW_REFERENCES;
      assert |roots| + Sum(w, Measure.References, ds) > MAX_WORKFLOW_REFERENCES;
      assert Overdrawn(w, roots, Measure.References, |roots|, MAX_WORKFLOW_REFERENCES);
    }
  }

  // ----- the walk as values -----

  /** The directories finished so far, in order, and the directories on the path being walked. */
  ghost predicate Consistent(w: World, roots: seq<Reference>, order: seq<string>, path: seq<string>) {
    && Finished(w, order) && Distinct(path) && (forall d <- path :: d !in order)
    && (forall d {:trigger Reaches(w, roots, d)} :: d in order ==> Reaches(w, roots, d))
    && (path != [] ==> Walk(w, roots, path))
    && (forall d <- path :: Readable(w, d))
  }

  /** `rs` are the references that the end of the path, or the workflow itself, makes. */
  ghost predicate Made(w: World, roots: seq<Reference>, path: seq<string>, r: Reference) {
    if path == [] then r in roots else r in Own(w, path[|path| - 1])
  }

  lemma {:induction false} PathReaches(w: World, roots: seq<Reference>, path: seq<string>, d: string)
    requires path != [] && Walk(w, roots, path) && d in path
    ensures Reaches(w, roots, d)
  {
    var i :| 0 <= i < |path| && path[i] == d;
    var q := path[..i + 1];
    forall j | 0 <= j < |q| - 1 ensures Link(w, q, j) { assert Link(w, path, j); }
    assert Walk(w, roots, q) && q[|q| - 1] == d;
  }

  /** A local reference made at the end of the path extends the walk. */
  lemma {:induction false} WalkOn(w: World, roots: seq<Reference>, path: seq<string>, r: Reference)
    requires (path != [] ==> Walk(w, roots, path)) && Made(w, roots, path, r) && TargetOf(w, r).Local?
    ensures Walk(w, roots, path + [TargetOf(w, r).directory])
    ensures Reaches(w, roots, TargetOf(w, r).directory)
  {
    var q := path + [TargetOf(w, r).directory];
    forall i | 0 <= i < |q| - 1 ensures Link(w, q, i) {
      if i < |path| - 1 { assert Link(w, path, i); }
    }
    assert q[|q| - 1] == TargetOf(w, r).directory;
  }

  lemma {:induction false} DistinctConcat(a: seq<string>, b: seq<string>)
    requires Distinct(a) && Distinct(b) && forall d <- b :: d !in a
    ensures Distinct(a + b)
  {
    assert forall j | 0 <= j < |b| :: b[j] in b;
  }

  /** Everything finished or on the path, and one more directory, is distinct and reachable. */
  lemma {:induction false} AllReachable(w: World, roots: seq<Reference>, order: seq<string>, path: seq<string>)
    requires Consistent(w, roots, order, path)
    ensures Distinct(order + path) && forall d <- order + path :: Reaches(w, roots, d)
  {
    DistinctConcat(order, path);
    forall d | d in order + path ensures Reaches(w, roots, d) {
      if d in path { PathReaches(w, roots, path, d); }
    }
  }

  lemma {:induction false} CycleFound(w: World, roots: seq<Reference>, order: seq<string>, path: seq<string>,
                                      r: Reference)
    requires Consistent(w, roots, order, path) && Made(w, roots, path, r) && TargetOf(w, r).Local?
    requires TargetOf(w, r).directory in path
    ensures Cyclic(w, roots)
  {
    var d := TargetOf(w, r).directory;
    WalkOn(w, roots, path, r);
    var q := path + [d];
    var i :| 0 <= i < |path| && path[i] == d;
    assert Walk(w, roots, q) && 0 <= i < |path| < |q| && q[i] == q[|path|];
  }

  lemma {:induction false} DistinctExtend(ds: seq<string>, d: string)
    requires Distinct(ds) && d !in ds
    ensures Distinct(ds + [d])
  {
  }

  lemma {:induction false} CrowdFound(w: World, roots: seq<Reference>, order: seq<string>, path: seq<string>,
                                      r: Reference)
    requires Consistent(w, roots, order, path) && Made(w, roots, path, r) && TargetOf(w, r).Local?
    requires TargetOf(w, r).directory !in order && TargetOf(w, r).directory !in path
    requires |order| + |path| == MAX_LOCAL_ACTIONS
    ensures Crowded(w, roots)
  {
    AllReachable(w, roots, order, path);
    WalkOn(w, roots, path, r);
    DistinctExtend(order + path, TargetOf(w, r).directory);
    var ds := order + path + [TargetOf(w, r).directory];
    assert Distinct(ds) && (forall d <- ds :: Reaches(w, roots, d)) && |ds| > MAX_LOCAL_ACTIONS;
  }

  lemma {:induction false} BytesFound(w: World, roots: seq<Reference>, order: seq<string>, path: seq<string>,
                                      r: Reference)
    requires Consistent(w, roots, order, path) && Made(w, roots, path, r) && TargetOf(w, r).Local?
    requires TargetOf(w, r).directory !in order && TargetOf(w, r).directory !in path
    requires Sum(w, Bytes, order) + Sum(w, Bytes, path) + Weight(w, Bytes, TargetOf(w, r).directory)
           > MAX_LOCAL_ACTION_BYTES
    ensures Overdrawn(w, roots, Bytes, 0, MAX_LOCAL_ACTION_BYTES)
  {
    AllReachable(w, roots, order, path);
    WalkOn(w, roots, path, r);
    DistinctExtend(order + path, TargetOf(w, r).directory);
    var ds := order + path + [TargetOf(w, r).directory];
    SumConcat(w, Bytes, order, path);
    assert ds[..|ds| - 1] == order + path;
    BytesOverdrawn(w, roots, ds);
  }

  lemma {:induction false} BytesOverdrawn(w: World, roots: seq<Reference>, ds: seq<string>)
    requires Distinct(ds) && (forall d <- ds :: Reaches(w, roots, d)) && Sum(w, Bytes, ds) > MAX_LOCAL_ACTION_BYTES
    ensures Overdrawn(w, roots, Bytes, 0, MAX_LOCAL_ACTION_BYTES)
  {
    assert 0 + Sum(w, Bytes, ds) > MAX_LOCAL_ACTION_BYTES;
  }

  lemma {:induction false} ReferencesFound(w: World, roots: seq<Reference>, order: seq<string>, path: seq<string>,
                                           seen: nat)
    requires Consistent(w, roots, order, path)
    requires seen + Sum(w, Measure.References, order) + Sum(w, Measure.References, path) > MAX_WORKFLOW_REFERENCES
    ensures Overdrawn(w, roots, Measure.References, seen, MAX_WORKFLOW_REFERENCES)
  {
    AllReachable(w, roots, order, path);
    SumConcat(w, Measure.References, order, path);
    var ds := order + path;
    assert Distinct(ds) && (forall d <- ds :: Reaches(w, roots, d))
           && seen + Sum(w, Measure.References, ds) > MAX_WORKFLOW_REFERENCES;
  }

  lemma {:induction false} UnknownFound(w: World, roots: seq<Reference>, path: seq<string>, r: Reference)
    requires (path != [] ==> Walk(w, roots, path)) && Made(w, roots, path, r) && !KnownWorkflow(w, r)
    ensures NamesUnknown(w, roots)
  {
    if path != [] { PathReaches(w, roots, path, path[|path| - 1]); }
  }

  /** Entering a readable directory that is neither finished nor on the path. */
  lemma {:induction false} EnterWalk(w: World, roots: seq<Reference>, order: seq<string>, path: seq<string>,
                                     r: Reference)
    requires Consistent(w, roots, order, path) && Made(w, roots, path, r) && TargetOf(w, r).Local?
    requires TargetOf(w, r).directory !in order && TargetOf(w, r).directory !in path
    requires Readable(w, TargetOf(w, r).directory)
    ensures Consistent(w, roots, order, path + [TargetOf(w, r).directory])
  {
    WalkOn(w, roots, path, r);
    DistinctExtend(path, TargetOf(w, r).directory);
  }

  /** Leaving the end of the path once everything it leads to is finished. */
  lemma {:induction false} LeaveWalk(w: World, roots: seq<Reference>, order: seq<string>, path: seq<string>, d: string)
    requires Consistent(w, roots, order, path + [d]) && Settles(w, Own(w, d), order)
    ensures Consistent(w, roots, order + [d], path)
    ensures d !in path
  {
    assert d in path + [d] && forall e <- path :: e in path + [d];
    PathReaches(w, roots, path + [d], d);
    Shorter(path, d);
    DistinctExtend(order, d);
    FinishMore(w, order, d);
    if path != [] {
      forall i | 0 <= i < |path| - 1 ensures Link(w, path, i) { assert Link(w, path + [d], i); }
    }
  }

  lemma {:induction false} Shorter(path: seq<string>, d: string)
    requires Distinct(path + [d])
    ensures Distinct(path) && d !in path
  {
    assert forall i | 0 <= i < |path| :: (path + [d])[i] == path[i];
    assert (path + [d])[|path|] == d;
  }

  lemma {:induction false} FinishMore(w: World, order: seq<string>, d: string)
    requires Finished(w, order) && Readable(w, d) && Settles(w, Own(w, d), order) && d !in order
    ensures Finished(w, order + [d])
  {
    DistinctExtend(order, d);
    forall i | 0 <= i < |order + [d]|
      ensures Ready(w, order + [d], i)
    {
      assert (order + [d])[..i] == order[..i];
      if i < |order| { assert Ready(w, order, i); }
    }
  }

  // ----- the resolver's fields against the walk -----

  /** The history of a resolver: every reference handed in, the order in which directories were finished, the
      path being walked, and the totals these add up to. `spent` counts the references
      of finished directories, `onPath` those of the directories on the path, and `given` collects what the
      finished ones emitted. */
  datatype Tour = Tour(roots: seq<Reference>, order: seq<string>, path: seq<string>,
                       weight: nat, spent: nat, onPath: nat, given: multiset<Reference>)

  ghost predicate Totalled(w: World, t: Tour) {
    && t.weight == Sum(w, Bytes, t.order) + Sum(w, Bytes, t.path) <= MAX_LOCAL_ACTION_BYTES
    && t.spent == Sum(w, Measure.References, t.order) && t.onPath == Sum(w, Measure.References, t.path)
    && t.given == Contributions(w, t.order)
  }

  ghost predicate Sound(w: World, t: Tour) {
    Consistent(w, t.roots, t.order, t.path) && Totalled(w, t) && |t.order| + |t.path| <= MAX_LOCAL_ACTIONS
  }

  ghost function Entered(w: World, t: Tour, d: string): Tour {
    t.(path := t.path + [d], weight := t.weight + Weight(w, Bytes, d),
       onPath := t.onPath + |Own(w, d)|)
  }

  ghost function Left(w: World, t: Tour, d: string): Tour
    requires t.path != [] && t.onPath >= |Own(w, d)|
  {
    t.(order := t.order + [d], path := t.path[..|t.path| - 1], spent := t.spent + |Own(w, d)|,
       onPath := t.onPath - |Own(w, d)|, given := t.given + multiset(Externals(w, Own(w, d))))
  }

  lemma {:induction false} OneMore(w: World, ds: seq<string>, d: string)
    ensures Sum(w, Bytes, ds + [d]) == Sum(w, Bytes, ds) + Weight(w, Bytes, d)
    ensures Sum(w, Measure.References, ds + [d]) == Sum(w, Measure.References, ds) + |Own(w, d)|
    ensures Contributions(w, ds + [d]) == Contributions(w, ds) + multiset(Externals(w, Own(w, d)))
  {
    assert (ds + [d])[..|ds|] == ds;
  }

  lemma {:induction false} TotalledEnter(w: World, t: Tour, d: string)
    requires Totalled(w, t) && t.weight + Weight(w, Bytes, d) <= MAX_LOCAL_ACTION_BYTES
    ensures Totalled(w, Entered(w, t, d))
  {
    OneMore(w, t.path, d);
  }

  lemma {:induction false} TotalledLeave(w: World, t: Tour, d: string)
    requires Totalled(w, t) && t.path != [] && t.path[|t.path| - 1] == d
    ensures t.onPath >= |Own(w, d)| && Totalled(w, Left(w, t, d))
  {
    var rest := t.path[..|t.path| - 1];
    assert t.path == rest + [d];
    OneMore(w, t.order, d);
    OneMore(w, rest, d);
  }

  lemma {:induction false} SoundEnter(w: World, t: Tour, r: Reference, d: string)
    requires Sound(w, t) && Made(w, t.roots, t.path, r) && TargetOf(w, r) == Local(d)
    requires d !in t.order && d !in t.path && Readable(w, d) && |t.order| + |t.path| < MAX_LOCAL_ACTIONS
    requires t.weight + Weight(w, Bytes, d) <= MAX_LOCAL_ACTION_BYTES
    ensures Sound(w, Entered(w, t, d))
  {
    EnterWalk(w, t.roots, t.order, t.path, r);
    TotalledEnter(w, t, d);
  }

  lemma {:induction false} SoundLeave(w: World, t: Tour, d: string)
    requires Sound(w, t) && t.path != [] && t.path[|t.path| - 1] == d && Settles(w, Own(w, d), t.order)
    ensures t.onPath >= |Own(w, d)| && Sound(w, Left(w, t, d)) && d !in Left(w, t, d).path
  {
    assert t.path == t.path[..|t.path| - 1] + [d];
    LeaveWalk(w, t.roots, t.order, t.path[..|t.path| - 1], d);
    TotalledLeave(w, t, d);
  }
}

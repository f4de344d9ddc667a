/** The stateful resolver itself (goverify/local_action.go). */
module LocalActionOwner {
  import opened Options
  import opened ExactWrite
  import opened WorkflowExtraction
  import opened ActionGraph
  import opened LocalAction

  class Owner {
    const w: World
    const ctx: Context
    var visited: set<string>
    var active: set<string>
    var actions: nat
    var bytesRead: nat
    var references: nat
    ghost var tour: Tour
    /** The directories whose metadata has been read. */
    ghost var seenMetadata: set<string>
    ghost var emitted: multiset<Reference>

    constructor (w: World, ctx: Context)
      ensures this.w == w && this.ctx == ctx && Valid() && tour.roots == [] && emitted == multiset{}
    {
      this.w, this.ctx := w, ctx;
      visited, active, actions, bytesRead, references := {}, {}, 0, 0, 0;
      tour := Tour([], [], [], 0, 0, 0, multiset{});
      seenMetadata, emitted := {}, multiset{};
    }

    /** The fields say exactly what the walk has done. */
    ghost predicate Walking()
      reads this
    {
      && Sound(w, tour) && Matches(tour, visited, active, seenMetadata) && references <= MAX_WORKFLOW_REFERENCES
      && actions == |tour.order| + |tour.path| && bytesRead == tour.weight
    }

    /** The state between workflow files: nothing is active, everything the files reach is finished, every
        counter is exact, and everything emitted is accounted for. */
    ghost predicate Valid()
      reads this
    {
      && Walking() && tour.path == [] && Settles(w, tour.roots, tour.order)
      && references == |tour.roots| + tour.spent
      && emitted == multiset(Externals(w, tour.roots)) + tour.given
    }

    /** No counter is beyond its budget. */
    ghost predicate Budgeted()
      reads this
    {
      references <= MAX_WORKFLOW_REFERENCES && actions <= MAX_LOCAL_ACTIONS && bytesRead <= MAX_LOCAL_ACTION_BYTES
    }

    ghost function Now(result: References): Account
      reads this, result
    {
      Account(tour, references, multiset(result.items))
    }

    method Add(result: References, reference: Reference, ghost seen: nat) returns (err: Option<Failure>)
      requires Walking() && Made(w, tour.roots, tour.path, reference) && references < seen + tour.spent + tour.onPath
      modifies this`visited, this`active, this`actions, this`bytesRead, this`references, this`tour, this`seenMetadata,
        ctx, result
      ensures old(ctx.Alive()) ==> ctx.Alive()
      ensures active == old(active) && references >= old(references)
      ensures err.Some? ==> Genuine(w, old(tour.roots), seen, err.value, ctx.done)
      ensures err.Some? ==> Budgeted()
      ensures err.None? ==> Walking() && Advanced(w, old(Now(result)), Now(result), [reference])
      decreases MAX_WORKFLOW_REFERENCES - references, 0
    {
      var cancelled := ctx.Err();
      if cancelled {
        return Some(Cancelled);
      }
      if references == MAX_WORKFLOW_REFERENCES {
        ReferencesFound(w, tour.roots, tour.order, tour.path, seen);
        return Some(TooManyReferences);
      }
      references := references + 1;
      match TargetOf(w, reference)
      case Reusable(p) =>
        if p !in w.workflows {
          UnknownFound(w, tour.roots, tour.path, reference);
          return Some(UnknownWorkflow);
        }
        AdvancedOne(w, old(Now(result)), Now(result), reference);
        return None;
      case External =>
        result.items := result.items + [reference];
        AdvancedOne(w, old(Now(result)), Now(result), reference);
        return None;
      case Local(directory) =>
        err := AddLocalAction(result, directory, seen, reference);
        if err.None? {
          AdvancedOne(w, old(Now(result)), Now(result), reference);
        }
    }

    method AddLocalAction(result: References, directory: string, ghost seen: nat, ghost reference: Reference)
      returns (err: Option<Failure>)
      requires Walking() && Made(w, tour.roots, tour.path, reference) && TargetOf(w, reference) == Local(directory)
      requires references <= seen + tour.spent + tour.onPath
      modifies this`visited, this`active, this`actions, this`bytesRead, this`references, this`tour, this`seenMetadata,
        ctx, result
      ensures old(ctx.Alive()) ==> ctx.Alive()
      ensures active == old(active) && references >= old(references)
      ensures err.Some? ==> Genuine(w, old(tour.roots), seen, err.value, ctx.done)
      ensures err.Some? ==> Budgeted()
      ensures err.None? ==> Walking() && Advanced(w, old(Now(result)), Now(result), []) && directory in tour.order
      decreases MAX_WORKFLOW_REFERENCES - references, 5
    {
      if directory in active {
        CycleFound(w, tour.roots, tour.order, tour.path, reference);
        return Some(ActionCycle);
      }
      if directory in visited {
        return None;
      }
      if actions == MAX_LOCAL_ACTIONS {
        CrowdFound(w, tour.roots, tour.order, tour.path, reference);
        return Some(TooManyActions);
      }
      err := Enter(result, directory, seen, reference);
    }

    /** The rest of the step, for a directory met for the first time. */
    method Enter(result: References, directory: string, ghost seen: nat, ghost reference: Reference)
      returns (err: Option<Failure>)
      requires Walking() && Made(w, tour.roots, tour.path, reference) && TargetOf(w, reference) == Local(directory)
      requires directory !in visited && directory !in active && actions < MAX_LOCAL_ACTIONS
      requires references <= seen + tour.spent + tour.onPath
      modifies this`visited, this`active, this`actions, this`bytesRead, this`references, this`tour, this`seenMetadata,
        ctx, result
      ensures old(ctx.Alive()) ==> ctx.Alive()
      ensures active == old(active) && references >= old(references)
      ensures err.Some? ==> Genuine(w, old(tour.roots), seen, err.value, ctx.done)
      ensures err.Some? ==> Budgeted()
      ensures err.None? ==> Walking() && Advanced(w, old(Now(result)), Now(result), []) && directory in tour.order
      decreases MAX_WORKFLOW_REFERENCES - references, 4
    {
      ghost var above, read := active, seenMetadata;
      var made: seq<Reference>;
      err, made := Open(directory, seen, reference);
      if err.None? {
        err := Follow(result, directory, made, seen, reference, above, read);
      } else {
        active := active - {directory};
      }
    }

    /** Puts the directory on the path and reads its metadata. */
    method Open(directory: string, ghost seen: nat, ghost reference: Reference)
      returns (err: Option<Failure>, made: seq<Reference>)
      requires Walking() && Made(w, tour.roots, tour.path, reference) && TargetOf(w, reference) == Local(directory)
      requires directory !in visited && directory !in active && actions < MAX_LOCAL_ACTIONS
      modifies this`active, this`actions, this`bytesRead, this`seenMetadata, ctx
      ensures old(ctx.Alive()) ==> ctx.Alive()
      ensures active == old(active) + {directory} && active - {directory} == old(active) && actions == old(actions) + 1
      ensures directory !in tour.order && directory !in tour.path
      ensures err.Some? ==> Genuine(w, tour.roots, seen, err.value, ctx.done)
      ensures err.Some? ==> Budgeted()
      ensures err.None? ==> seenMetadata == old(seenMetadata) + {directory}
      ensures err.None? ==> Readable(w, directory) && made == Own(w, directory)
      ensures err.None? ==> bytesRead == old(bytesRead) + Weight(w, Bytes, directory) <= MAX_LOCAL_ACTION_BYTES
    {
      NotListed(tour, visited, active, seenMetadata, directory);
      actions := actions + 1;
      active := active + {directory};
      err, made := ReadMetadata(directory, seen, reference);
    }

    /** The fields already say that the directory is on the path below those `above`; the walk follows. */
    method Follow(result: References, directory: string, made: seq<Reference>, ghost seen: nat,
                  ghost reference: Reference, ghost above: set<string>, ghost read: set<string>)
      returns (err: Option<Failure>)
      requires Sound(w, tour) && Matches(tour, visited, above, read)
      requires active == above + {directory} && above == above + {directory} - {directory}
      requires seenMetadata == read + {directory}
      requires directory !in tour.order && directory !in tour.path
      requires references <= MAX_WORKFLOW_REFERENCES && references <= seen + tour.spent + tour.onPath
      requires actions == |tour.order| + |tour.path| + 1 <= MAX_LOCAL_ACTIONS
      requires bytesRead == tour.weight + Weight(w, Bytes, directory) <= MAX_LOCAL_ACTION_BYTES
      requires Made(w, tour.roots, tour.path, reference) && TargetOf(w, reference) == Local(directory)
      requires Readable(w, directory) && made == Own(w, directory)
      modifies this`visited, this`active, this`actions, this`bytesRead, this`references, this`tour, this`seenMetadata,
        ctx, result
      ensures old(ctx.Alive()) ==> ctx.Alive()
      ensures active == above && references >= old(references)
      ensures err.Some? ==> Genuine(w, old(tour.roots), seen, err.value, ctx.done)
      ensures err.Some? ==> Budgeted()
      ensures err.None? ==> Walking() && Advanced(w, old(Now(result)), Now(result), []) && directory in tour.order
      decreases MAX_WORKFLOW_REFERENCES - references, 3
    {
      ghost var start := Now(result);
      ghost var next := WalkEnter(w, tour, visited, above, read, reference, directory);
      tour := next;
      ghost var inside := Now(result);
      ghost var after;
      err, after := Visit(result, directory, made, seen);
      if err.Some? {
        active := active - {directory};
        return;
      }
      AdvancedEnter(w, start, inside, after, directory);
    }

    /** The references of the directory that was just put on the path, and then leaving it. */
    method Visit(result: References, directory: string, made: seq<Reference>, ghost seen: nat)
      returns (err: Option<Failure>, ghost after: Account)
      requires Walking() && tour.path != [] && tour.path[|tour.path| - 1] == directory && made == Own(w, directory)
      requires references + |made| <= seen + tour.spent + tour.onPath
      modifies this`visited, this`active, this`actions, this`bytesRead, this`references, this`tour, this`seenMetadata,
        ctx, result
      ensures old(ctx.Alive()) ==> ctx.Alive()
      ensures active == (if err.Some? then old(active) else old(active) - {directory}) && references >= old(references)
      ensures err.Some? ==> Genuine(w, old(tour.roots), seen, err.value, ctx.done)
      ensures err.Some? ==> Budgeted()
      ensures err.None? ==> Walking() && Advanced(w, old(Now(result)), after, made)
      ensures err.None? ==> after.tour.path != [] && after.tour.onPath >= |made|
      ensures err.None? ==> Now(result) == after.(tour := Left(w, after.tour, directory))
      decreases MAX_WORKFLOW_REFERENCES - references, 2
    {
      err := AddAll(result, directory, made, seen);
      after := Now(result);
      if err.None? {
        Leave(directory);
      }
    }

    /** A directory is finished: it moves from the active path to the visited set. */
    method Leave(directory: string)
      requires Walking() && tour.path != [] && tour.path[|tour.path| - 1] == directory
      requires Settles(w, Own(w, directory), tour.order)
      modifies this`visited, this`active, this`tour
      ensures old(tour.onPath) >= |Own(w, directory)| && tour == Left(w, old(tour), directory)
      ensures Walking() && active == old(active) - {directory}
    {
      ghost var next := WalkLeave(w, tour, visited, active, seenMetadata, directory);
      visited := visited + {directory};
      active := active - {directory};
      tour := next;
    }

    /** Reads one action's metadata, charging its bytes. No directory is ever read twice. */
    method ReadMetadata(directory: string, ghost seen: nat, ghost reference: Reference)
      returns (err: Option<Failure>, made: seq<Reference>)
      requires Sound(w, tour) && Made(w, tour.roots, tour.path, reference) && TargetOf(w, reference) == Local(directory)
      requires directory !in tour.order && directory !in tour.path && bytesRead == tour.weight
      requires directory !in seenMetadata && Budgeted()
      modifies this`bytesRead, this`seenMetadata, ctx
      ensures old(ctx.Alive()) ==> ctx.Alive()
      ensures err.Some? ==> Genuine(w, tour.roots, seen, err.value, ctx.done)
      ensures err.Some? ==> Budgeted()
      ensures err.None? ==> seenMetadata == old(seenMetadata) + {directory}
      ensures err.None? ==> Readable(w, directory) && made == Own(w, directory)
      ensures err.None? ==> bytesRead == old(bytesRead) + Weight(w, Bytes, directory) <= MAX_LOCAL_ACTION_BYTES
    {
      WalkOn(w, tour.roots, tour.path, reference);
      var cancelled := ctx.Err();
      if cancelled {
        return Some(Cancelled), [];
      }
      var metadata := w.action(directory);
      if metadata.Unreadable? {
        return Some(BadMetadata), [];
      }
      if metadata.size > MAX_LOCAL_ACTION_BYTES - bytesRead {
        BytesFound(w, tour.roots, tour.order, tour.path, reference);
        return Some(TooManyBytes), [];
      }
      bytesRead := bytesRead + metadata.size;
      seenMetadata := seenMetadata + {directory};
      if metadata.references.None? {
        return Some(BadMetadata), [];
      }
      return None, metadata.references.value;
    }

    /** The loop over the references of the directory at the end of the path. */
    method AddAll(result: References, ghost directory: string, made: seq<Reference>, ghost seen: nat)
      returns (err: Option<Failure>)
      requires Walking() && tour.path != [] && tour.path[|tour.path| - 1] == directory && made == Own(w, directory)
      requires references + |made| <= seen + tour.spent + tour.onPath
      modifies this`visited, this`active, this`actions, this`bytesRead, this`references, this`tour, this`seenMetadata,
        ctx, result
      ensures old(ctx.Alive()) ==> ctx.Alive()
      ensures active == old(active) && references >= old(references)
      ensures err.Some? ==> Genuine(w, old(tour.roots), seen, err.value, ctx.done)
      ensures err.Some? ==> Budgeted()
      ensures err.None? ==> Walking() && Advanced(w, old(Now(result)), Now(result), made)
      decreases MAX_WORKFLOW_REFERENCES - references, 1
    {
      ghost var start := Now(result);
      for i := 0 to |made|
        invariant active == old(active) && references >= old(references) && Walking()
        invariant old(ctx.Alive()) ==> ctx.Alive()
        invariant Advanced(w, start, Now(result), made[..i])
      {
        ghost var before := Now(result);
        err := Add(result, made[i], seen);
        if err.Some? {
          return;
        }
        AdvancedNext(w, start, before, Now(result), made, i);
      }
      assert made[..|made|] == made;
      err := None;
    }

    /** The loop over the references of one workflow file. */
    method AddRoots(list: References, references: seq<Reference>, ghost past: seq<Reference>)
      returns (err: Option<Failure>)
      requires Walking() && tour.path == [] && tour.roots == past + references && tour.onPath == 0
      requires this.references == |past| + tour.spent
      modifies this`visited, this`active, this`actions, this`bytesRead, this`references, this`tour, this`seenMetadata,
        ctx, list
      ensures old(ctx.Alive()) ==> ctx.Alive()
      ensures active == old(active)
      ensures err.Some? ==> (err.value.Cancelled? && ctx.done) || !Resolvable(w, past + references)
      ensures err.Some? ==> Budgeted()
      ensures err.None? ==> Walking() && Advanced(w, old(Now(list)), Now(list), references)
    {
      ghost var start := Now(list);
      for i := 0 to |references|
        invariant active == old(active) && Walking()
        invariant old(ctx.Alive()) ==> ctx.Alive()
        invariant Advanced(w, start, Now(list), references[..i])
      {
        ghost var before := Now(list);
        err := Add(list, references[i], |past| + i + 1);
        if err.Some? {
          if !err.value.Cancelled? {
            GenuineMeansUnresolvable(w, past + references, |past| + i + 1, err.value, ctx.done);
          }
          return;
        }
        AdvancedNext(w, start, before, Now(list), references, i);
      }
      assert references[..|references|] == references;
      err := None;
    }

    /** Resolves the references of one workflow file. Unless the context ends, it succeeds exactly when all
        that the files reach so far can be resolved. Every reachable directory is then visited and has been
        read, and the file's own external references, with those of the directories it reached first, are
        emitted once. */
    method Expand(references: seq<Reference>) returns (err: Option<Failure>, result: seq<Reference>)
      requires Valid()
      modifies this, ctx
      ensures old(ctx.Alive()) ==> ctx.Alive()
      ensures err.None? ==> Valid() && tour.roots == old(tour.roots) + references
      ensures err.None? ==> Resolvable(w, old(tour.roots) + references)
      ensures err.None? ==> forall d :: d in visited <==> Reaches(w, tour.roots, d)
      ensures err.None? ==> actions == |visited| && seenMetadata == visited && active == {}
      ensures err.None? ==> emitted == old(emitted) + multiset(result)
      ensures err.None? ==> old(tour.order) <= tour.order && multiset(result) ==
                            multiset(Externals(w, references)) + Contributions(w, tour.order[|old(tour.order)|..])
      ensures old(ctx.Alive()) ==> (err.None? <==> Resolvable(w, old(tour.roots) + references))
      ensures err.Some? ==> (err.value.Cancelled? && ctx.done) || !Resolvable(w, old(tour.roots) + references)
      ensures Budgeted()
    {
      err, result := ExpandFile(references);
      if err.None? {
        ValidFacts(w, tour, this.references);
        SizeOfVisited(tour.order, visited);
      }
    }

    method ExpandFile(references: seq<Reference>) returns (err: Option<Failure>, result: seq<Reference>)
      requires Valid()
      modifies this, ctx
      ensures old(ctx.Alive()) ==> ctx.Alive()
      ensures err.None? ==> Valid() && emitted == old(emitted) + multiset(result)
      ensures err.None? ==> Emits(w, old(tour), tour, references, multiset(result))
      ensures err.Some? ==> (err.value.Cancelled? && ctx.done) || !Resolvable(w, old(tour.roots) + references)
      ensures err.Some? ==> Budgeted()
    {
      var list := new References();
      ghost var past := tour.roots;
      ghost var next := tour.(roots := past + references);
      RootsMore(w, tour, references);
      tour := next;
      err := Resolve(list, references, past);
      result := if err.None? then list.items else [];
    }

    /** The file's references have joined the roots. */
    method Resolve(list: References, references: seq<Reference>, ghost past: seq<Reference>)
      returns (err: Option<Failure>)
      requires Walking() && tour.path == [] && tour.roots == past + references && Settles(w, past, tour.order)
      requires this.references == |past| + tour.spent && list.items == []
      requires emitted == multiset(Externals(w, past)) + tour.given
      modifies this, ctx, list
      ensures old(ctx.Alive()) ==> ctx.Alive()
      ensures err.None? ==> Valid() && emitted == old(emitted) + multiset(list.items)
      ensures err.None? ==> Emits(w, old(tour).(roots := past), tour, references, multiset(list.items))
      ensures err.Some? ==> (err.value.Cancelled? && ctx.done) || !Resolvable(w, past + references)
      ensures err.Some? ==> Budgeted()
    {
      ghost var start := Now(list);
      NothingOnPath(w, tour);
      err := AddRoots(list, references, past);
      if err.None? {
        Record(list, references, past, start);
      }
    }

    /** Accounts for what one file emitted. */
    ghost method Record(list: References, references: seq<Reference>, past: seq<Reference>, start: Account)
      requires Walking() && tour.path == [] && tour.roots == past + references
      requires Sound(w, start.tour) && Settles(w, past, start.tour.order)
      requires start.references == |past| + start.tour.spent
      requires start.items == multiset{} && Advanced(w, start, Now(list), references)
      requires emitted == multiset(Externals(w, past)) + start.tour.given
      modifies this`emitted
      ensures Valid() && emitted == old(emitted) + multiset(list.items)
      ensures Emits(w, start.tour.(roots := past), tour, references, multiset(list.items))
    {
      FileDone(w, start, Now(list), past, references);
      emitted := emitted + multiset(list.items);
    }
  }

  /** From `a` to `b` the references of one more file have been resolved, and `items` are its external ones with
      those of the directories finished on the way. */
  ghost predicate Emits(w: World, a: Tour, b: Tour, references: seq<Reference>, items: multiset<Reference>) {
    && b.roots == a.roots + references && a.order <= b.order
    && items == multiset(Externals(w, references)) + Contributions(w, b.order[|a.order|..])
  }

  ghost predicate Matches(t: Tour, visited: set<string>, active: set<string>, metadata: set<string>) {
    && (forall d :: d in visited <==> d in t.order) && (forall d :: d in active <==> d in t.path)
    && metadata == visited + active
  }

  lemma {:induction false} NotListed(t: Tour, visited: set<string>, active: set<string>, metadata: set<string>,
                                     d: string)
    requires Matches(t, visited, active, metadata) && d !in visited && d !in active
    ensures d !in t.order && d !in t.path && d !in metadata
    ensures active + {d} - {d} == active && metadata + {d} - {d} == metadata
  {
  }

  lemma {:induction false} WalkEnter(w: World, t: Tour, visited: set<string>, active: set<string>,
                                     metadata: set<string>, r: Reference, d: string)
    returns (next: Tour)
    requires Sound(w, t) && Matches(t, visited, active, metadata)
    requires Made(w, t.roots, t.path, r) && TargetOf(w, r) == Local(d) && d !in t.order && d !in t.path
    requires Readable(w, d) && |t.order| + |t.path| < MAX_LOCAL_ACTIONS
    requires t.weight + Weight(w, Bytes, d) <= MAX_LOCAL_ACTION_BYTES
    ensures next == Entered(w, t, d) && Sound(w, next) && Matches(next, visited, active + {d}, metadata + {d})
    ensures next.path != [] && next.path[|next.path| - 1] == d
    ensures |next.order| + |next.path| == |t.order| + |t.path| + 1
  {
    SoundEnter(w, t, r, d);
    MatchesEnter(w, t, visited, active, metadata, d);
    next := Entered(w, t, d);
  }

  lemma {:induction false} MatchesEnter(w: World, t: Tour, visited: set<string>, active: set<string>,
                                        metadata: set<string>, d: string)
    requires Matches(t, visited, active, metadata)
    ensures Matches(Entered(w, t, d), visited, active + {d}, metadata + {d})
  {
  }

  lemma {:induction false} WalkLeave(w: World, t: Tour, visited: set<string>, active: set<string>,
                                     metadata: set<string>, d: string)
    returns (next: Tour)
    requires Sound(w, t) && t.path != [] && t.path[|t.path| - 1] == d && Settles(w, Own(w, d), t.order)
    requires Matches(t, visited, active, metadata)
    ensures t.onPath >= |Own(w, d)| && next == Left(w, t, d)
    ensures Sound(w, next) && Matches(next, visited + {d}, active - {d}, metadata)
    ensures next.weight == t.weight && |next.order| + |next.path| == |t.order| + |t.path|
  {
    SoundLeave(w, t, d);
    MatchesLeave(w, t, visited, active, metadata, d);
    next := Left(w, t, d);
  }

  lemma {:induction false} MatchesLeave(w: World, t: Tour, visited: set<string>, active: set<string>,
                                        metadata: set<string>, d: string)
    requires Matches(t, visited, active, metadata) && t.path != [] && t.path[|t.path| - 1] == d
    requires t.onPath >= |Own(w, d)|
    requires d !in Left(w, t, d).path
    ensures Matches(Left(w, t, d), visited + {d}, active - {d}, metadata)
  {
    assert t.path == t.path[..|t.path| - 1] + [d];
  }

  /** What a step of the walk changes, apart from the fields it puts back. */
  datatype Account = Account(tour: Tour, references: nat, items: multiset<Reference>)

  // ----- one workflow file -----

  lemma {:induction false} NothingOnPath(w: World, t: Tour)
    requires Sound(w, t) && t.path == []
    ensures t.onPath == 0
  {
  }

  lemma {:induction false} RootsMore(w: World, t: Tour, more: seq<Reference>)
    requires Sound(w, t) && t.path == []
    ensures Sound(w, t.(roots := t.roots + more))
  {
    forall d | d in t.order ensures Reaches(w, t.roots + more, d) {
      assert Reaches(w, t.roots, d);
      var p :| Walk(w, t.roots, p) && p[|p| - 1] == d;
      assert Walk(w, t.roots + more, p);
    }
  }

  lemma {:induction false} FileDone(w: World, a: Account, b: Account, past: seq<Reference>, more: seq<Reference>)
    requires Sound(w, a.tour) && Sound(w, b.tour) && b.tour.path == [] && b.tour.roots == past + more
    requires Settles(w, past, a.tour.order) && a.references == |past| + a.tour.spent
    requires Advanced(w, a, b, more) && b.references <= MAX_WORKFLOW_REFERENCES
    ensures Settles(w, past + more, b.tour.order)
    ensures b.references == |past + more| + b.tour.spent
    ensures b.tour.given - a.tour.given == Contributions(w, b.tour.order[|a.tour.order|..])
    ensures multiset(Externals(w, past + more)) == multiset(Externals(w, past)) + multiset(Externals(w, more))
  {
    SettlesBoth(w, past, more, a.tour.order, b.tour.order);
    assert b.tour.order == a.tour.order + b.tour.order[|a.tour.order|..];
    ContributionsConcat(w, a.tour.order, b.tour.order[|a.tour.order|..]);
    ExternalsConcat(w, past, more);
  }

  /** When nothing is left to do, everything reachable is finished, and all of it is resolvable. */
  lemma {:induction false} ValidFacts(w: World, t: Tour, references: nat)
    requires Sound(w, t) && t.path == [] && Settles(w, t.roots, t.order)
    requires references == |t.roots| + t.spent <= MAX_WORKFLOW_REFERENCES
    ensures Resolvable(w, t.roots) && forall d :: d in t.order <==> Reaches(w, t.roots, d)
  {
    FinishedIsAcyclic(w, t.roots, t.order);
    FinishedIsResolvable(w, t.roots, t.order);
  }

  lemma {:induction false} SettlesBoth(w: World, past: seq<Reference>, more: seq<Reference>, before: seq<string>,
                                       after: seq<string>)
    requires Settles(w, past, before) && Settles(w, more, after) && before <= after
    ensures Settles(w, past + more, after)
  {
    forall r | r in past + more ensures Settles(w, [r], after) {
      if r in past { assert TargetOf(w, r).Local? ==> TargetOf(w, r).directory in before; }
    }
  }

  lemma {:induction false} SizeOfVisited(ds: seq<string>, visited: set<string>)
    requires Distinct(ds) && forall d :: d in visited <==> d in ds
    ensures |visited| == |ds|
    decreases |ds|
  {
    if ds != [] {
      var m := |ds| - 1;
      assert ds == ds[..m] + [ds[m]];
      SizeOfVisited(ds[..m], visited - {ds[m]});
    } else {
      assert visited == {};
    }
  }

  /** The walk came back to where it was, with more finished. */
  ghost predicate Grows(a: Tour, b: Tour) {
    && b.roots == a.roots && b.path == a.path && b.onPath == a.onPath
    && a.order <= b.order && a.spent <= b.spent && a.given <= b.given
  }

  /** From `a` to `b`, exactly the references `rs` have been handled: each is counted once, with the references
      of every directory that was finished on the way; all they lead to is finished; and the list has gained
      their external ones, with what the newly finished directories contribute. */
  ghost predicate Advanced(w: World, a: Account, b: Account, rs: seq<Reference>) {
    && Grows(a.tour, b.tour)
    && b.references == a.references + |rs| + (b.tour.spent - a.tour.spent)
    && Settles(w, rs, b.tour.order)
    && b.items == a.items + multiset(Externals(w, rs)) + (b.tour.given - a.tour.given)
  }

  lemma {:induction false} AdvancedNext(w: World, a: Account, b: Account, c: Account, rs: seq<Reference>, i: nat)
    requires i < |rs| && Advanced(w, a, b, rs[..i]) && Advanced(w, b, c, [rs[i]])
    ensures Advanced(w, a, c, rs[..i + 1])
  {
    assert rs[..i + 1] == rs[..i] + [rs[i]];
    ExternalsConcat(w, rs[..i], [rs[i]]);
    SettlesNext(w, rs, i, b.tour.order, c.tour.order);
  }

  lemma {:induction false} SettlesNext(w: World, rs: seq<Reference>, i: nat, before: seq<string>, after: seq<string>)
    requires i < |rs| && Settles(w, rs[..i], before) && before <= after && Settles(w, [rs[i]], after)
    ensures Settles(w, rs[..i + 1], after)
  {
    forall r | r in rs[..i + 1] ensures Settles(w, [r], after) {
      if r in rs[..i] {
        assert TargetOf(w, r).Local? ==> TargetOf(w, r).directory in before;
      } else {
        assert r == rs[i];
      }
    }
  }

  /** Handling one reference, by what it names. */
  lemma {:induction false} AdvancedOne(w: World, a: Account, b: Account, r: Reference)
    requires Grows(a.tour, b.tour) && b.references == a.references + 1 + (b.tour.spent - a.tour.spent)
    requires KnownWorkflow(w, r) && (TargetOf(w, r).Local? ==> TargetOf(w, r).directory in b.tour.order)
    requires b.items == a.items + (if TargetOf(w, r).External? then multiset{r} else multiset{})
                        + (b.tour.given - a.tour.given)
    ensures Advanced(w, a, b, [r])
  {
    assert [r][..0] == [];
  }

  /** A directory met for the first time: its own references, and then itself. */
  lemma {:induction false} AdvancedEnter(w: World, a: Account, b: Account, c: Account, d: string)
    requires b == a.(tour := Entered(w, a.tour, d))
    requires Advanced(w, b, c, Own(w, d))
    requires c.tour.path != [] && c.tour.onPath >= |Own(w, d)|
    ensures Advanced(w, a, c.(tour := Left(w, c.tour, d)), []) && d in Left(w, c.tour, d).order
  {
  }
}

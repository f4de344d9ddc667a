/** The execution sites of a workflow, said by where they are in the document instead of by search.

A place is a path of child indices from the root, so the two copies of an aliased job are two places although they hold
the same tree. */
module ExecutionSites {
  import opened Options
  import opened YamlGraph
  import opened WorkflowExtraction

  datatype Place = Place(kind: ReferenceKind, path: seq<nat>)

  ghost function Rest(p: Place): Place
    requires p.path != []
  {
    Place(p.kind, p.path[1..])
  }

  // ----- which places are sites -----

  /** Child `v` of the mapping `t` is the value of one of its keys. */
  ghost predicate Entry(t: Tree, v: nat) {
    t.kind.Mapping? && v % 2 == 1 && v < |t.children|
  }

  ghost predicate Key(t: Tree, v: nat, name: string) {
    Entry(t, v) && t.children[v - 1].value == name
  }

  ghost predicate Element(t: Tree, v: nat) {
    t.kind.Sequence? && v < |t.children|
  }

  /** `p` is the value of the key `name`. */
  ghost predicate IsField(t: Tree, name: string, kind: ReferenceKind, p: Place) {
    p.kind == kind && |p.path| == 1 && Key(t, p.path[0], name)
  }

  ghost predicate IsImage(t: Tree, p: Place) {
    IsField(t, "image", Image, p)
  }

  ghost predicate IsUse(t: Tree, p: Place) {
    IsField(t, "uses", Action, p)
  }

  /** The container itself, unless it is a mapping; then the image in it. */
  ghost predicate IsContainer(c: Tree, p: Place) {
    if c.kind.Mapping? then IsImage(c, p) else p == Place(Image, [])
  }

  ghost predicate IsService(services: Tree, p: Place) {
    p.path != [] && Entry(services, p.path[0]) && IsImage(services.children[p.path[0]], Rest(p))
  }

  ghost predicate IsStep(steps: Tree, p: Place) {
    p.path != [] && Element(steps, p.path[0]) && IsUse(steps.children[p.path[0]], Rest(p))
  }

  /** `p` leads through the value of the key `name`. */
  ghost predicate Through(t: Tree, name: string, inner: (Tree, Place) -> bool, p: Place) {
    p.path != [] && Key(t, p.path[0], name) && inner(t.children[p.path[0]], Rest(p))
  }

  ghost predicate IsJob(job: Tree, p: Place) {
    || IsUse(job, p)
    || Through(job, "container", IsContainer, p)
    || Through(job, "services", IsService, p)
    || Through(job, "steps", IsStep, p)
  }

  ghost predicate IsJobs(jobs: Tree, p: Place) {
    p.path != [] && Entry(jobs, p.path[0]) && IsJob(jobs.children[p.path[0]], Rest(p))
  }

  /** `p` is the place of an execution site: the `uses` of a job or step, or the image of a container or service of
      some job. */
  ghost predicate IsSite(root: Tree, p: Place) {
    Through(root, "jobs", IsJobs, p)
  }

  // ----- lists of places -----

  /** `ps` are, without repetition, the places that `family` says, and `sites` is what is found there, in the same
      order. */
  ghost predicate Locates(t: Tree, ps: seq<Place>, sites: seq<Execution>, family: (Tree, Place) -> bool) {
    && |ps| == |sites|
    && (forall i | 0 <= i < |ps| :: ps[i].kind == sites[i].kind && At(t, ps[i].path) == Some(sites[i].node))
    && (forall i, j | 0 <= i < j < |ps| :: ps[i] != ps[j])
    && (forall p :: p in ps <==> family(t, p))
  }

  ghost function Prefixed(i: nat, ps: seq<Place>): seq<Place> {
    seq(|ps|, n requires 0 <= n < |ps| => Place(ps[n].kind, [i] + ps[n].path))
  }

  /** `p` leads through one of the children at `positions`. */
  ghost predicate Below(t: Tree, positions: seq<nat>, inner: (Tree, Place) -> bool, p: Place) {
    p.path != [] && p.path[0] in positions && p.path[0] < |t.children| && inner(t.children[p.path[0]], Rest(p))
  }

  lemma {:induction false} InPrefixed(i: nat, ps: seq<Place>, p: Place)
    ensures p in Prefixed(i, ps) <==> p.path != [] && p.path[0] == i && Rest(p) in ps
  {
    if p in Prefixed(i, ps) {
      var n :| 0 <= n < |ps| && Prefixed(i, ps)[n] == p;
      assert Rest(p) == ps[n];
    }
    if p.path != [] && p.path[0] == i && Rest(p) in ps {
      var n :| 0 <= n < |ps| && ps[n] == Rest(p);
      assert Prefixed(i, ps)[n] == p;
    }
  }

  lemma {:induction false} LocatesUnder(t: Tree, i: nat, ps: seq<Place>, sites: seq<Execution>,
                                        inner: (Tree, Place) -> bool)
    requires i < |t.children| && Locates(t.children[i], ps, sites, inner)
    ensures Locates(t, Prefixed(i, ps), sites, (u, p) => Below(u, [i], inner, p))
  {
    var qs := Prefixed(i, ps);
    forall n | 0 <= n < |qs| ensures At(t, qs[n].path) == Some(sites[n].node) {
      assert qs[n].path[1..] == ps[n].path;
    }
    forall m, n | 0 <= m < n < |qs| ensures qs[m] != qs[n] {
      assert qs[m].path[1..] == ps[m].path && qs[n].path[1..] == ps[n].path;
    }
    forall p ensures p in qs <==> Below(t, [i], inner, p) {
      InPrefixed(i, ps, p);
    }
  }

  lemma {:induction false} LocatesJoin(t: Tree, ps: seq<Place>, a: seq<Execution>, f: (Tree, Place) -> bool,
                                       qs: seq<Place>, b: seq<Execution>, g: (Tree, Place) -> bool,
                                       h: (Tree, Place) -> bool)
    requires Locates(t, ps, a, f) && Locates(t, qs, b, g)
    requires forall p :: !(f(t, p) && g(t, p))
    requires forall p :: h(t, p) <==> f(t, p) || g(t, p)
    ensures Locates(t, ps + qs, a + b, h)
  {
    var r := ps + qs;
    forall i, j | 0 <= i < j < |r| ensures r[i] != r[j] {
      if i < |ps| <= j {
        assert r[i] in ps && r[j] in qs;
        assert f(t, r[i]) && g(t, r[j]);
      }
    }
  }

  ghost predicate Locatable(t: Tree, sites: seq<Execution>, family: (Tree, Place) -> bool) {
    exists ps :: Locates(t, ps, sites, family)
  }

  lemma {:induction false} LocatableSame(t: Tree, sites: seq<Execution>, f: (Tree, Place) -> bool,
                                         g: (Tree, Place) -> bool)
    requires Locatable(t, sites, f) && forall p :: f(t, p) <==> g(t, p)
    ensures Locatable(t, sites, g)
  {
    var ps :| Locates(t, ps, sites, f);
    assert Locates(t, ps, sites, g);
  }

  lemma {:induction false} LocatableJoin(t: Tree, a: seq<Execution>, f: (Tree, Place) -> bool, b: seq<Execution>,
                                         g: (Tree, Place) -> bool, h: (Tree, Place) -> bool)
    requires Locatable(t, a, f) && Locatable(t, b, g)
    requires forall p :: !(f(t, p) && g(t, p))
    requires forall p :: h(t, p) <==> f(t, p) || g(t, p)
    ensures Locatable(t, a + b, h)
  {
    var ps :| Locates(t, ps, a, f);
    var qs :| Locates(t, qs, b, g);
    LocatesJoin(t, ps, a, f, qs, b, g, h);
  }

  /** The children at `positions`, all different, yield `parts`. */
  ghost predicate Listed(t: Tree, positions: seq<nat>, parts: seq<Sites>, inner: (Tree, Place) -> bool) {
    && |positions| == |parts|
    && (forall i, j | 0 <= i < j < |positions| :: positions[i] != positions[j])
    && forall i | 0 <= i < |positions| :: PartLocated(t, positions[i], parts[i], inner)
  }

  ghost predicate PartLocated(t: Tree, i: nat, part: Sites, inner: (Tree, Place) -> bool) {
    i < |t.children| && part.Some? && Locatable(t.children[i], part.value, inner)
  }

  lemma {:induction false} LocatesAll(t: Tree, positions: seq<nat>, parts: seq<Sites>, inner: (Tree, Place) -> bool)
    requires Listed(t, positions, parts, inner)
    ensures JoinAll(parts).Some? && Locatable(t, JoinAll(parts).value, (u, p) => Below(u, positions, inner, p))
    decreases |parts|
  {
    if parts == [] {
      assert Locates(t, [], [], (u, p) => Below(u, positions, inner, p));
    } else {
      var m := |parts| - 1;
      var init, k := positions[..m], positions[m];
      assert PartLocated(t, k, parts[m], inner);
      LocatesAll(t, init, parts[..m], inner);
      var ps :| Locates(t.children[k], ps, parts[m].value, inner);
      LocatesUnder(t, k, ps, parts[m].value, inner);
      assert positions == init + [k];
      LocatableJoin(t, JoinAll(parts[..m]).value, (u, p) => Below(u, init, inner, p),
                    parts[m].value, (u, p) => Below(u, [k], inner, p), (u, p) => Below(u, positions, inner, p));
    }
  }

  // ----- the places of a workflow's sites -----

  /** With distinct keys a name has one place. */
  lemma {:induction false} FieldAt(t: Tree, name: string) returns (i: nat)
    requires WellKeyed(t)
    ensures Field(t, name).Some? ==> Key(t, i, name) && t.children[i] == Field(t, name).value
    ensures forall j :: Key(t, j, name) <==> Field(t, name).Some? && j == i
  {
    i := 0;
    if t.kind.Mapping? {
      SearchFinds(t.children, name, 0);
      if Field(t, name).Some? {
        var j :| 0 <= j < |t.children| && j % 2 == 0 && t.children[j].value == name
                 && t.children[j + 1] == Field(t, name).value;
        i := j + 1;
        forall v | Key(t, v, name) ensures v == i { OnePlace(t, v, i, name); }
      } else {
        forall v ensures !Key(t, v, name) { }
      }
    }
  }

  lemma {:induction false} OnePlace(t: Tree, u: nat, v: nat, name: string)
    requires WellKeyed(t) && Key(t, u, name) && Key(t, v, name)
    ensures u == v
  {
    assert (u - 1) % 2 == 0 && (v - 1) % 2 == 0;
    assert t.children[u - 1].value == t.children[v - 1].value;
  }

  lemma {:induction false} FieldPlaces(t: Tree, name: string, kind: ReferenceKind)
    requires WellKeyed(t)
    ensures Locatable(t, FieldSite(t, name, kind).value, (u, p) => IsField(u, name, kind, p))
  {
    var i := FieldAt(t, name);
    var ps := if Field(t, name).Some? then [Place(kind, [i])] else [];
    assert [i][1..] == [];
    forall p ensures p in ps <==> IsField(t, name, kind, p) {
      if |p.path| == 1 { assert p.path == [p.path[0]]; }
    }
    assert Field(t, name).Some? ==> At(t, [i]) == At(t.children[i], []);
    assert Locates(t, ps, FieldSite(t, name, kind).value, (u, p) => IsField(u, name, kind, p));
  }

  /** What lies behind a field: nothing when there is none. */
  lemma {:induction false} ThroughField(t: Tree, name: string, sites: seq<Execution>, inner: (Tree, Place) -> bool)
    requires WellKeyed(t)
    requires Field(t, name).None? ==> sites == []
    requires Field(t, name).Some? ==> Locatable(Field(t, name).value, sites, inner)
    ensures Locatable(t, sites, (u, p) => Through(u, name, inner, p))
  {
    var i := FieldAt(t, name);
    if Field(t, name).None? {
      assert Locates(t, [], sites, (u, p) => Through(u, name, inner, p));
    } else {
      var ps :| Locates(t.children[i], ps, sites, inner);
      LocatesUnder(t, i, ps, sites, inner);
      LocatableSame(t, sites, (u, p) => Below(u, [i], inner, p), (u, p) => Through(u, name, inner, p));
    }
  }

  lemma {:induction false} ContainerPlaces(job: Tree)
    requires WellKeyed(job) && ContainerSite(job).Some?
    ensures Locatable(job, ContainerSite(job).value, (u, p) => Through(u, "container", IsContainer, p))
  {
    FieldWellKeyed(job, "container");
    if Field(job, "container").Some? {
      var c := Field(job, "container").value;
      if c.kind.Mapping? {
        FieldPlaces(c, "image", Image);
        LocatableSame(c, ContainerSite(job).value, (u, p) => IsField(u, "image", Image, p), IsContainer);
      } else {
        assert Locates(c, [Place(Image, [])], ContainerSite(job).value, IsContainer);
      }
    }
    ThroughField(job, "container", ContainerSite(job).value, IsContainer);
  }

  ghost function Odd(n: nat): seq<nat> {
    seq(n, i requires 0 <= i < n => 2 * i + 1)
  }

  lemma {:induction false} InOdd(n: nat, v: nat)
    ensures v in Odd(n) <==> v % 2 == 1 && v < 2 * n
  {
    if v % 2 == 1 && v < 2 * n { assert Odd(n)[v / 2] == v; }
  }

  lemma {:induction false} ValuesAt(ts: seq<Tree>)
    requires |ts| % 2 == 0
    ensures |Values(ts)| == |ts| / 2 && forall i | 0 <= i < |ts| / 2 :: Values(ts)[i] == ts[2 * i + 1]
    decreases |ts|
  {
    if |ts| >= 2 { ValuesAt(ts[..|ts| - 2]); }
  }

  /** The values of a mapping, each with its own sites. */
  lemma {:induction false} EntryPlaces(t: Tree, parts: seq<Sites>, inner: (Tree, Place) -> bool,
                                       family: (Tree, Place) -> bool)
    requires WellKeyed(t) && t.kind.Mapping? && JoinAll(parts).Some? && |parts| == |Values(t.children)|
    requires forall i | 0 <= i < |parts| :: parts[i].Some? ==> Locatable(Values(t.children)[i], parts[i].value, inner)
    requires forall p :: family(t, p) <==> p.path != [] && Entry(t, p.path[0]) && inner(t.children[p.path[0]], Rest(p))
    ensures Locatable(t, JoinAll(parts).value, family)
  {
    var positions := Odd(|parts|);
    ValuesAt(t.children);
    PartsAreSome(parts);
    forall i | 0 <= i < |parts| ensures PartLocated(t, positions[i], parts[i], inner) {
      assert Values(t.children)[i] == t.children[2 * i + 1];
    }
    LocatesAll(t, positions, parts, inner);
    forall p ensures Below(t, positions, inner, p) <==> family(t, p) {
      if p.path != [] { InOdd(|parts|, p.path[0]); }
    }
    LocatableSame(t, JoinAll(parts).value, (u, p) => Below(u, positions, inner, p), family);
  }

  lemma {:induction false} PartsAreSome(parts: seq<Sites>)
    requires JoinAll(parts).Some?
    ensures forall i | 0 <= i < |parts| :: parts[i].Some?
    decreases |parts|
  {
    if parts != [] {
      var m := |parts| - 1;
      PartsAreSome(parts[..m]);
      assert forall i | 0 <= i < m :: parts[..m][i] == parts[i];
    }
  }

  lemma {:induction false} ServicePlaces(job: Tree)
    requires WellKeyed(job) && ServiceSites(job).Some?
    ensures Locatable(job, ServiceSites(job).value, (u, p) => Through(u, "services", IsService, p))
  {
    FieldWellKeyed(job, "services");
    if Field(job, "services").Some? {
      var s := Field(job, "services").value;
      ValuesWellKeyed(s.children);
      var parts := FieldOfAll(Values(s.children), "image", Image);
      forall i | 0 <= i < |parts| ensures parts[i].Some? ==> Locatable(Values(s.children)[i], parts[i].value, IsImage) {
        FieldPlaces(Values(s.children)[i], "image", Image);
        if parts[i].Some? {
          LocatableSame(Values(s.children)[i], parts[i].value, (u, p) => IsField(u, "image", Image, p), IsImage);
        }
      }
      EntryPlaces(s, parts, IsImage, IsService);
    }
    ThroughField(job, "services", ServiceSites(job).value, IsService);
  }

  lemma {:induction false} StepPlaces(job: Tree)
    requires WellKeyed(job) && StepSites(job).Some?
    ensures Locatable(job, StepSites(job).value, (u, p) => Through(u, "steps", IsStep, p))
  {
    FieldWellKeyed(job, "steps");
    if Field(job, "steps").Some? {
      StepListPlaces(Field(job, "steps").value);
    }
    ThroughField(job, "steps", StepSites(job).value, IsStep);
  }

  lemma {:induction false} StepListPlaces(s: Tree)
    requires WellKeyed(s) && s.kind.Sequence? && JoinAll(FieldOfAll(s.children, "uses", Action)).Some?
    ensures Locatable(s, JoinAll(FieldOfAll(s.children, "uses", Action)).value, IsStep)
  {
    var parts := FieldOfAll(s.children, "uses", Action);
    var positions: seq<nat> := seq(|parts|, i => i);
    PartsAreSome(parts);
    forall i | 0 <= i < |parts| ensures PartLocated(s, positions[i], parts[i], IsUse) {
      FieldPlaces(s.children[i], "uses", Action);
      LocatableSame(s.children[i], parts[i].value, (u, p) => IsField(u, "uses", Action, p), IsUse);
    }
    LocatesAll(s, positions, parts, IsUse);
    forall p ensures Below(s, positions, IsUse, p) <==> IsStep(s, p) {
      if p.path != [] && Element(s, p.path[0]) { assert positions[p.path[0]] == p.path[0]; }
    }
    LocatableSame(s, JoinAll(parts).value, (u, p) => Below(u, positions, IsUse, p), IsStep);
  }

  lemma {:induction false} JobPlaces(job: Tree)
    requires WellKeyed(job) && JobSites(job).Some?
    ensures Locatable(job, JobSites(job).value, IsJob)
  {
    var a, b, c, d := FieldSite(job, "uses", Action), ContainerSite(job), ServiceSites(job), StepSites(job);
    FieldPlaces(job, "uses", Action);
    ContainerPlaces(job);
    ServicePlaces(job);
    StepPlaces(job);
    Four(job, a.value, (u, p) => IsField(u, "uses", Action, p),
         b.value, (u, p) => Through(u, "container", IsContainer, p),
         c.value, (u, p) => Through(u, "services", IsService, p),
         d.value, (u, p) => Through(u, "steps", IsStep, p), IsJob);
  }

  /** The name of the key that a place goes through. */
  ghost function KeyOf(t: Tree, p: Place): string {
    if p.path != [] && Entry(t, p.path[0]) then t.children[p.path[0] - 1].value else ""
  }

  /** Places behind different keys are different. */
  lemma {:induction false} Four(t: Tree, a: seq<Execution>, f: (Tree, Place) -> bool, b: seq<Execution>,
                                g: (Tree, Place) -> bool,
                                c: seq<Execution>, h: (Tree, Place) -> bool, d: seq<Execution>,
                                k: (Tree, Place) -> bool, family: (Tree, Place) -> bool)
    requires Locatable(t, a, f) && Locatable(t, b, g) && Locatable(t, c, h) && Locatable(t, d, k)
    requires forall p :: (f(t, p) ==> |KeyOf(t, p)| == 4) && (g(t, p) ==> |KeyOf(t, p)| == 9)
    requires forall p :: (h(t, p) ==> |KeyOf(t, p)| == 8) && (k(t, p) ==> |KeyOf(t, p)| == 5)
    requires forall p :: family(t, p) <==> f(t, p) || g(t, p) || h(t, p) || k(t, p)
    ensures Locatable(t, a + b + c + d, family)
  {
    var ab := (u, p) => f(u, p) || g(u, p);
    var abc := (u, p) => f(u, p) || g(u, p) || h(u, p);
    LocatableJoin(t, a, f, b, g, ab);
    LocatableJoin(t, a + b, ab, c, h, abc);
    LocatableJoin(t, a + b + c, abc, d, k, family);
  }

  lemma {:induction false} JobsPlaces(jobs: Tree)
    requires WellKeyed(jobs) && jobs.kind.Mapping?
    requires forall i | 0 <= i < |Values(jobs.children)| :: WellKeyed(Values(jobs.children)[i])
    requires JoinAll(JobsSites(Values(jobs.children))).Some?
    ensures Locatable(jobs, JoinAll(JobsSites(Values(jobs.children))).value, IsJobs)
  {
    var values := Values(jobs.children);
    var parts := JobsSites(values);
    forall i | 0 <= i < |parts| ensures parts[i].Some? ==> Locatable(values[i], parts[i].value, IsJob) {
      if parts[i].Some? { JobPlaces(values[i]); }
    }
    EntryPlaces(jobs, parts, IsJob, IsJobs);
  }

  /** The sites are exactly the `uses` of jobs and steps, and the images of containers and services, of every job: the
      list of sites is what is found at a list of their places that names each of them once. */
  lemma {:induction false} SitesExact(root: Tree) returns (ps: seq<Place>)
    requires WellKeyed(root) && WorkflowSites(root).Some?
    ensures Locates(root, ps, WorkflowSites(root).value, IsSite)
  {
    FieldWellKeyed(root, "jobs");
    if Field(root, "jobs").Some? {
      var jobs := Field(root, "jobs").value;
      ValuesWellKeyed(jobs.children);
      JobsPlaces(jobs);
    }
    ThroughField(root, "jobs", WorkflowSites(root).value, IsJobs);
    LocatableSame(root, WorkflowSites(root).value, (u, p) => Through(u, "jobs", IsJobs, p), IsSite);
    ps :| Locates(root, ps, WorkflowSites(root).value, IsSite);
  }

  // ----- one reference for each site that is not null -----

  /** Something other than null is written at the place. */
  ghost predicate Filled(t: Tree, p: Place) {
    At(t, p.path).Some? && !(At(t, p.path).value.kind.Scalar? && At(t, p.path).value.tag == "!!null")
  }

  /** Only an action that is remote can carry a version, in the comment on its line. */
  predicate Versioned(rules: Rules, kind: ReferenceKind, n: Tree) {
    kind.Action? && rules.remote(n.value) && n.site.lineComment != ""
  }

  /** The reference says what stands at the place: its value, its line, and the version in the comment beside a remote
      action. */
  ghost predicate RefersAt(rules: Rules, t: Tree, p: Place, r: Reference) {
    Filled(t, p) &&
    var n := At(t, p.path).value;
    && r.kind == p.kind && r.value == n.value && r.line == n.site.line
    && if Versioned(rules, p.kind, n) then rules.annotation(n.site.lineComment) == Some(r.annotation)
       else r.annotation == Annotation("", "", "")
  }

  /** A site is acceptable when it is null, or an immutable string that is not empty, with a readable comment where the
      comment counts. A comment beside anything but a remote action never matters. */
  lemma {:induction false} SiteExact(rules: Rules, e: Execution)
    ensures SiteOk(rules, e) <==>
      || (e.node.kind.Scalar? && e.node.tag == "!!null")
      || (&& e.node.kind.Scalar? && e.node.tag == "!!str" && e.node.value != "" && rules.immutable(e.kind, e.node.value)
          && (Versioned(rules, e.kind, e.node) ==> rules.annotation(e.node.site.lineComment).Some?))
  {
  }

  /** `references` are those of the places `ps`, in the same order. */
  ghost predicate Refer(rules: Rules, t: Tree, ps: seq<Place>, references: seq<Reference>) {
    |ps| == |references| && forall i | 0 <= i < |ps| :: RefersAt(rules, t, ps[i], references[i])
  }

  lemma {:induction false} CollectedAt(rules: Rules, t: Tree, ps: seq<Place>, sites: seq<Execution>)
    returns (filled: seq<Place>)
    requires |ps| == |sites| && (forall i, j | 0 <= i < j < |ps| :: ps[i] != ps[j])
    requires forall i | 0 <= i < |ps| :: ps[i].kind == sites[i].kind && At(t, ps[i].path) == Some(sites[i].node)
    requires forall i | 0 <= i < |sites| :: SiteOk(rules, sites[i])
    ensures (forall i, j | 0 <= i < j < |filled| :: filled[i] != filled[j])
    ensures forall p :: p in filled <==> p in ps && Filled(t, p)
    ensures Refer(rules, t, filled, Collect(rules, sites))
    decreases |ps|
  {
    filled := [];
    if ps != [] {
      var m := |ps| - 1;
      filled := CollectedAt(rules, t, ps[..m], sites[..m]);
      assert forall p :: p in ps <==> p in ps[..m] || p == ps[m];
      if Filled(t, ps[m]) {
        assert ps[m] !in ps[..m];
        RefersHere(rules, t, ps[m], sites[m]);
        filled := filled + [ps[m]];
      }
    }
  }

  lemma {:induction false} RefersHere(rules: Rules, t: Tree, p: Place, e: Execution)
    requires p.kind == e.kind && At(t, p.path) == Some(e.node) && Filled(t, p) && SiteOk(rules, e)
    ensures RefersAt(rules, t, p, ReferenceOf(rules, e))
  {
    SiteExact(rules, e);
  }

  /** There are as many references as there are sites that are not null, one for each. */
  lemma {:induction false} OneReferencePerSite(rules: Rules, root: Tree) returns (ps: seq<Place>)
    requires WellKeyed(root) && Good(rules, WorkflowSites(root), 0)
    ensures forall i, j | 0 <= i < j < |ps| :: ps[i] != ps[j]
    ensures forall p :: p in ps <==> IsSite(root, p) && Filled(root, p)
    ensures Refer(rules, root, ps, Collect(rules, WorkflowSites(root).value))
  {
    var all := SitesExact(root);
    var sites := WorkflowSites(root).value;
    AcceptsExactly(rules, sites);
    forall i | 0 <= i < |sites| ensures SiteOk(rules, sites[i]) {
      assert sites[i] in sites;
    }
    ps := CollectedAt(rules, root, all, sites);
  }

  // ----- which documents have the shape of a workflow -----

  /** The sequence of steps of a job: mappings. */
  ghost predicate StepsShaped(s: Tree) {
    s.kind.Sequence? && forall v: nat | v < |s.children| :: s.children[v].kind.Mapping?
  }

  ghost predicate ServicesShaped(s: Tree) {
    s.kind.Mapping? && forall v: nat | Entry(s, v) :: s.children[v].kind.Mapping?
  }

  /** A container that is a mapping names its image. */
  ghost predicate ContainerShaped(c: Tree) {
    c.kind.Mapping? ==> exists v: nat :: Key(c, v, "image")
  }

  ghost predicate JobShaped(job: Tree) {
    && job.kind.Mapping?
    && (forall v: nat | Key(job, v, "container") :: ContainerShaped(job.children[v]))
    && (forall v: nat | Key(job, v, "services") :: ServicesShaped(job.children[v]))
    && (forall v: nat | Key(job, v, "steps") :: StepsShaped(job.children[v]))
  }

  ghost predicate JobsShaped(jobs: Tree) {
    jobs.kind.Mapping? && forall v: nat | Entry(jobs, v) :: JobShaped(jobs.children[v])
  }

  ghost predicate Shaped(root: Tree) {
    root.kind.Mapping? && forall v: nat | Key(root, v, "jobs") :: JobsShaped(root.children[v])
  }

  lemma {:induction false} JoinAllSome(parts: seq<Sites>)
    ensures JoinAll(parts).Some? <==> forall i | 0 <= i < |parts| :: parts[i].Some?
    decreases |parts|
  {
    if parts != [] {
      var m := |parts| - 1;
      JoinAllSome(parts[..m]);
      assert forall i | 0 <= i < m :: parts[..m][i] == parts[i];
    }
  }

  /** What holds at every place of a name holds of the field. */
  lemma {:induction false} AtField(t: Tree, name: string, holds: Tree -> bool)
    requires WellKeyed(t)
    ensures (Field(t, name).Some? ==> holds(Field(t, name).value)) <==>
      forall v: nat | Key(t, v, name) :: holds(t.children[v])
  {
    var i := FieldAt(t, name);
  }

  lemma {:induction false} ContainerShape(job: Tree)
    requires WellKeyed(job)
    ensures ContainerSite(job).Some? <==> forall v: nat | Key(job, v, "container") :: ContainerShaped(job.children[v])
  {
    AtField(job, "container", ContainerShaped);
    FieldWellKeyed(job, "container");
    if Field(job, "container").Some? && Field(job, "container").value.kind.Mapping? {
      var j := FieldAt(Field(job, "container").value, "image");
    }
  }

  lemma {:induction false} ServicesShape(job: Tree)
    requires WellKeyed(job)
    ensures ServiceSites(job).Some? <==> forall v: nat | Key(job, v, "services") :: ServicesShaped(job.children[v])
  {
    AtField(job, "services", ServicesShaped);
    FieldWellKeyed(job, "services");
    if Field(job, "services").Some? && Field(job, "services").value.kind.Mapping? {
      ValuesWellKeyed(Field(job, "services").value.children);
      ServiceListShape(Field(job, "services").value);
    }
  }

  lemma {:induction false} ServiceListShape(s: Tree)
    requires WellKeyed(s) && s.kind.Mapping?
    requires forall i | 0 <= i < |Values(s.children)| :: WellKeyed(Values(s.children)[i])
    ensures JoinAll(FieldOfAll(Values(s.children), "image", Image)).Some? <==> ServicesShaped(s)
  {
    var values, holds := Values(s.children), (t: Tree) => t.kind.Mapping?;
    var parts := FieldOfAll(values, "image", Image);
    JoinAllSome(parts);
    EntriesAreValues(s, holds);
    forall i: nat | i < |parts| ensures parts[i].Some? <==> holds(values[i]) { }
  }

  /** What holds of all values holds of all entries. */
  lemma {:induction false} EntriesAreValues(t: Tree, holds: Tree -> bool)
    requires WellKeyed(t) && t.kind.Mapping?
    ensures (forall i | 0 <= i < |Values(t.children)| :: holds(Values(t.children)[i])) <==>
      forall v: nat | Entry(t, v) :: holds(t.children[v])
  {
    ValuesAt(t.children);
    forall v: nat | Entry(t, v) ensures Values(t.children)[v / 2] == t.children[v] { }
    forall i: nat | i < |Values(t.children)| ensures Entry(t, 2 * i + 1) { }
  }

  lemma {:induction false} StepsShape(job: Tree)
    requires WellKeyed(job)
    ensures StepSites(job).Some? <==> forall v: nat | Key(job, v, "steps") :: StepsShaped(job.children[v])
  {
    AtField(job, "steps", StepsShaped);
    FieldWellKeyed(job, "steps");
    if Field(job, "steps").Some? && Field(job, "steps").value.kind.Sequence? {
      StepListShape(Field(job, "steps").value);
    }
  }

  lemma {:induction false} StepListShape(s: Tree)
    requires WellKeyed(s) && s.kind.Sequence?
    ensures JoinAll(FieldOfAll(s.children, "uses", Action)).Some? <==> StepsShaped(s)
  {
    var parts := FieldOfAll(s.children, "uses", Action);
    JoinAllSome(parts);
    forall i: nat | i < |parts| ensures parts[i].Some? <==> s.children[i].kind.Mapping? { }
  }

  lemma {:induction false} JobShape(job: Tree)
    requires WellKeyed(job)
    ensures JobSites(job).Some? <==> JobShaped(job)
  {
    ContainerShape(job);
    ServicesShape(job);
    StepsShape(job);
  }

  lemma {:induction false} JobsShape(jobs: Tree)
    requires WellKeyed(jobs) && jobs.kind.Mapping?
    requires forall i | 0 <= i < |Values(jobs.children)| :: WellKeyed(Values(jobs.children)[i])
    ensures JoinAll(JobsSites(Values(jobs.children))).Some? <==> JobsShaped(jobs)
  {
    var values := Values(jobs.children);
    JoinAllSome(JobsSites(values));
    forall i | 0 <= i < |values| ensures JobsSites(values)[i].Some? <==> JobShaped(values[i]) {
      JobShape(values[i]);
    }
    EntriesAreValues(jobs, JobShaped);
  }

  /** A document has sites, if only none, exactly when it has the shape of a workflow. */
  lemma {:induction false} ShapeExact(root: Tree)
    requires WellKeyed(root)
    ensures WorkflowSites(root).Some? <==> Shaped(root)
  {
    var i := FieldAt(root, "jobs");
    FieldWellKeyed(root, "jobs");
    if Field(root, "jobs").Some? && Field(root, "jobs").value.kind.Mapping? {
      var jobs := Field(root, "jobs").value;
      ValuesWellKeyed(jobs.children);
      JobsShape(jobs);
    }
  }

  // ----- which documents are accepted -----

  /** Nothing is written at the place, or an immutable string whose comment is readable where it counts. */
  ghost predicate AcceptableAt(rules: Rules, t: Tree, p: Place) {
    At(t, p.path).Some? && Filled(t, p) ==>
      var n := At(t, p.path).value;
      && n.kind.Scalar? && n.tag == "!!str" && n.value != "" && rules.immutable(p.kind, n.value)
      && (Versioned(rules, p.kind, n) ==> rules.annotation(n.site.lineComment).Some?)
  }

  /** A document is accepted exactly when it has the shape of a workflow, everything at its sites is acceptable, and
      there is room for its references. */
  lemma {:induction false} AcceptedExact(rules: Rules, root: Tree)
    requires WellKeyed(root)
    ensures Good(rules, WorkflowSites(root), 0) <==>
      Shaped(root) && (forall p | IsSite(root, p) :: AcceptableAt(rules, root, p)) && Fits(rules, WorkflowSites(root))
  {
    ShapeExact(root);
    if WorkflowSites(root).Some? {
      var sites := WorkflowSites(root).value;
      var ps := SitesExact(root);
      AcceptsExactly(rules, sites);
      forall i | 0 <= i < |ps| ensures SiteOk(rules, sites[i]) <==> AcceptableAt(rules, root, ps[i]) {
        SiteExact(rules, sites[i]);
      }
      SitesOk(rules, root, ps, sites);
    }
  }

  /** There are at most 4,096 references, and with exactly as many no null site comes last. */
  ghost predicate Fits(rules: Rules, sites: Sites) {
    sites.Some? ==>
      && |Collect(rules, sites.value)| <= 4096
      && (|Collect(rules, sites.value)| == 4096 ==> !IsNull(sites.value[|sites.value| - 1].node))
  }

  lemma {:induction false} SitesOk(rules: Rules, root: Tree, ps: seq<Place>, sites: seq<Execution>)
    requires Locates(root, ps, sites, IsSite)
    requires forall i | 0 <= i < |ps| :: SiteOk(rules, sites[i]) <==> AcceptableAt(rules, root, ps[i])
    ensures (forall s <- sites :: SiteOk(rules, s)) <==> forall p | IsSite(root, p) :: AcceptableAt(rules, root, p)
  {
    if forall s <- sites :: SiteOk(rules, s) {
      forall p | IsSite(root, p) ensures AcceptableAt(rules, root, p) {
        assert p in ps;
        var i :| 0 <= i < |ps| && ps[i] == p;
        assert sites[i] in sites;
      }
    }
    if forall p | IsSite(root, p) :: AcceptableAt(rules, root, p) {
      forall s | s in sites ensures SiteOk(rules, s) {
        var i :| 0 <= i < |sites| && sites[i] == s;
        assert ps[i] in ps && IsSite(root, ps[i]);
      }
    }
  }
}

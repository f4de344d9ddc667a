/** Extraction of the governed execution references from a decoded workflow.

The extraction reads heap nodes and grows one shared list. Its contract is stated on the tree the nodes
hold: which execution sites the document has, which of them are acceptable, and the exact list of
references that results. */
module WorkflowExtraction {
  import opened Options
  import opened YamlGraph
  import opened WorkflowExpansion
  import opened WorkflowTree

  const MAX_WORKFLOW_REFERENCES := 4096

  datatype ReferenceKind = Action | Image

  datatype Annotation = Annotation(version: string, excluded: string, reason: string)

  datatype Reference = Reference(kind: ReferenceKind, value: string, annotation: Annotation, line: int)

  /** The lexical predicates of the program: pinned references, remote actions, version comments. */
  datatype Rules = Rules(immutable: (ReferenceKind, string) -> bool,
                         remote: string -> bool,
                         annotation: string -> Option<Annotation>)

  const NO_ANNOTATION := Annotation("", "", "")

  function VersionOf(rules: Rules, kind: ReferenceKind, value: string, comment: string): Option<Annotation> {
    if !kind.Action? || !rules.remote(value) || comment == "" then Some(NO_ANNOTATION)
    else rules.annotation(comment)
  }

  // ----- documents whose mappings can be searched -----

  /** Every mapping pairs keys with values, and its keys are distinct plain scalars. */
  ghost predicate WellKeyed(t: Tree) {
    && (t.kind.Mapping? ==> |t.children| % 2 == 0 && DistinctTreeKeys(t.children))
    && forall i | 0 <= i < |t.children| :: WellKeyed(t.children[i])
  }

  ghost predicate DistinctTreeKeys(ts: seq<Tree>) {
    && (forall i | 0 <= i < |ts| && i % 2 == 0 :: ts[i].kind.Scalar? && ts[i].tag == "!!str" && ts[i].value != "<<")
    && (forall i, j | 0 <= i < j < |ts| && i % 2 == 0 && j % 2 == 0 :: ts[i].value != ts[j].value)
  }

  /** `n` is `k` content steps below `top`. */
  ghost predicate Below(g: Graph, top: Node, n: Node, k: nat)
    requires Closed(g) && top in g
  {
    if k == 0 then top == n
    else exists i | 0 <= i < |g[top].content| :: Below(g, g[top].content[i], n, k - 1)
  }

  /** The decoder's guarantee: every node, and so every alias target, is part of the document. */
  ghost predicate Rooted(g: Graph, document: Node)
    requires Closed(g) && document in g
  {
    forall n <- g :: exists k: nat :: Below(g, document, n, k)
  }

  ghost predicate NodeSound(g: Graph, n: Node)
    requires Closed(g) && n in g
  {
    LocallyValid(g[n]) && (g[n].kind.Mapping? ==> DistinctKeys(g, g[n].content))
  }

  lemma {:induction false} BelowSound(g: Graph, top: Node, d: int, n: Node, k: nat)
    requires Closed(g) && top in g && n in g && Sound(g, top, d) && Below(g, top, n, k)
    ensures NodeSound(g, n)
    decreases k
  {
    if k > 0 {
      var i :| 0 <= i < |g[top].content| && Below(g, g[top].content[i], n, k - 1);
      BelowSound(g, g[top].content[i], d - 1, n, k - 1);
    }
  }

  lemma {:induction false} UnfoldWellKeyed(g: Graph, n: Node, k: nat)
    requires Closed(g) && n in g && (forall m <- g :: NodeSound(g, m)) && Unfold(g, n, k, true).Some?
    ensures WellKeyed(Unfold(g, n, k, true).value) && !Unfold(g, n, k, true).value.kind.Alias?
    decreases k
  {
    var t := Unfold(g, n, k, true).value;
    if g[n].kind.Alias? {
      UnfoldWellKeyed(g, g[n].alias, k - 1);
      var u := Unfold(g, g[n].alias, k - 1, true).value;
      assert t.children == u.children;
    } else {
      forall i | 0 <= i < |g[n].content| ensures WellKeyed(t.children[i]) {
        UnfoldWellKeyed(g, g[n].content[i], k - 1);
      }
      if g[n].kind.Mapping? { UnfoldKeys(g, n, k); }
    }
  }

  /** The keys of a mapping are never aliases, so unfolding leaves them as they are. */
  lemma {:induction false} UnfoldKeys(g: Graph, n: Node, k: nat)
    requires Closed(g) && n in g && g[n].kind.Mapping? && Unfold(g, n, k, true).Some?
    requires DistinctKeys(g, g[n].content)
    ensures DistinctTreeKeys(Unfold(g, n, k, true).value.children)
  {
    var ts := Unfold(g, n, k, true).value.children;
    forall i | 0 <= i < |ts| && i % 2 == 0
      ensures ts[i].kind == g[g[n].content[i]].kind && ts[i].tag == g[g[n].content[i]].tag
              && ts[i].value == g[g[n].content[i]].value
    {
      assert Unfold(g, g[n].content[i], k - 1, true).Some?;
    }
  }

  /** Expansion keeps what admission established: the expanded document is well keyed as well. */
  lemma {:induction false} ExpandedWellKeyed(g: Graph, document: Node)
    requires Closed(g) && document in g && Rooted(g, document) && Decodable(g, document)
    ensures WellKeyed(TreeOf(g, document, true))
  {
    forall n | n in g ensures NodeSound(g, n) {
      var k: nat :| Below(g, document, n, k);
      BelowSound(g, document, MAX_WORKFLOW_DEPTH, n, k);
    }
    var k: nat :| Unfold(g, document, k, true).Some?;
    TreeOfUnfold(g, document, k, true);
    UnfoldWellKeyed(g, document, k);
  }

  /** What admission says of every node of the document. */
  lemma {:induction false} AdmittedNodes(g: Graph, document: Node, n: Node, k: nat)
    requires Closed(g) && document in g && n in g && ValidTree(g, document) && Below(g, document, n, k)
    ensures g[n].alias != null <==> g[n].kind.Alias?
    ensures match g[n].kind
            case Document => g[n].tag == "" && |g[n].content| == 1
            case Mapping => g[n].tag == "!!map" && |g[n].content| % 2 == 0
            case Sequence => g[n].tag == "!!seq"
            case Scalar => "!!" <= g[n].tag
            case Alias => g[n].content == []
            case Undefined => false
    ensures g[n].kind.Mapping? ==>
      && (forall i | 0 <= i < |g[n].content| && i % 2 == 0 ::
            g[g[n].content[i]].kind.Scalar? && g[g[n].content[i]].tag == "!!str" && g[g[n].content[i]].value != "<<")
      && (forall i, j | 0 <= i < j < |g[n].content| && i % 2 == 0 && j % 2 == 0 ::
            g[g[n].content[i]].value != g[g[n].content[j]].value)
  {
    BelowSound(g, document, MAX_WORKFLOW_DEPTH, n, k);
  }

  // ----- ordinary documents -----

  /** Mappings, sequences and scalars under their own tags, and aliases. */
  ghost predicate Tagged(t: Tree) {
    && (match t.kind
        case Mapping => t.tag == "!!map"
        case Sequence => t.tag == "!!seq"
        case Scalar => "!!" <= t.tag
        case Alias => t.children == []
        case _ => false)
    && forall i | 0 <= i < |t.children| :: Tagged(t.children[i])
  }

  /** Exactly the aliases point to another node. */
  ghost predicate OnlyAliasesPoint(g: Graph) {
    forall n <- g :: g[n].alias != null <==> g[n].kind.Alias?
  }

  /** A tree of mappings, sequences, scalars and aliases, whose keys are plain and distinct, passes the check of every
      node. */
  lemma {:induction false} OrdinaryIsSound(g: Graph, n: Node, d: int)
    requires Closed(g) && n in g && OnlyAliasesPoint(g) && Finite(g, n, false)
    requires var t := TreeOf(g, n, false); Tagged(t) && WellKeyed(t) && WithinDepth(t, d)
    ensures Sound(g, n, d)
    decreases d
  {
    FiniteContent(g, n, false);
    var t := TreeOf(g, n, false);
    forall i | 0 <= i < |g[n].content| ensures Sound(g, g[n].content[i], d - 1) {
      OrdinaryIsSound(g, g[n].content[i], d - 1);
    }
    if g[n].kind.Mapping? {
      KeysAreDistinct(g, n, t);
    }
  }

  lemma {:induction false} KeysAreDistinct(g: Graph, n: Node, t: Tree)
    requires Closed(g) && n in g && |t.children| == |g[n].content| && DistinctTreeKeys(t.children)
    requires forall i | 0 <= i < |g[n].content| ::
      Finite(g, g[n].content[i], false) && t.children[i] == TreeOf(g, g[n].content[i], false)
    ensures DistinctKeys(g, g[n].content)
  {
    forall i | 0 <= i < |g[n].content|
      ensures t.children[i].kind == g[g[n].content[i]].kind && t.children[i].tag == g[g[n].content[i]].tag
              && t.children[i].value == g[g[n].content[i]].value
    {
      LabelOfTree(g, g[n].content[i]);
    }
  }

  lemma {:induction false} LabelOfTree(g: Graph, n: Node)
    requires Closed(g) && n in g && Finite(g, n, false)
    ensures var t := TreeOf(g, n, false); t.kind == g[n].kind && t.tag == g[n].tag && t.value == g[n].value
  {
    FiniteContent(g, n, false);
  }

  /** Such a document is admitted when it is at most 100 deep and has at most 65,536 nodes. */
  lemma {:induction false} OrdinaryIsAdmitted(g: Graph, document: Node)
    requires Closed(g) && document in g && OnlyAliasesPoint(g) && Finite(g, document, false)
    requires g[document].kind.Document? && g[document].tag == "" && |g[document].content| == 1
    requires var t := TreeOf(g, document, false);
      WithinDepth(t, 100) && Size(t) <= 65536 && forall i | 0 <= i < |t.children| ::
        Tagged(t.children[i]) && WellKeyed(t.children[i])
    ensures ValidTree(g, document)
  {
    FiniteContent(g, document, false);
    var c := g[document].content[0];
    assert TreeOf(g, document, false).children == [TreeOf(g, c, false)];
    OrdinaryIsSound(g, c, 99);
    RootIsSound(g, document, c);
  }

  lemma {:induction false} RootIsSound(g: Graph, document: Node, c: Node)
    requires Closed(g) && document in g && OnlyAliasesPoint(g) && g[document].kind.Document? && g[document].tag == ""
    requires g[document].content == [c] && Sound(g, c, 99)
    ensures Sound(g, document, 100)
  {
  }

  // ----- execution sites -----

  datatype Execution = Execution(kind: ReferenceKind, node: Tree)

  /** A list of sites, or nothing when the document does not have the shape of a workflow. */
  type Sites = Option<seq<Execution>>

  /** The value of a mapping's key, as the first match in the source's search. */
  ghost function Field(t: Tree, name: string): Option<Tree>
    requires WellKeyed(t)
  {
    if t.kind.Mapping? then Search(t.children, name, 0) else None
  }

  ghost function Search(ts: seq<Tree>, name: string, i: nat): Option<Tree>
    requires |ts| % 2 == 0 && i % 2 == 0
    decreases |ts| - i
  {
    if i >= |ts| then None
    else if ts[i].value == name then Some(ts[i + 1])
    else Search(ts, name, i + 2)
  }

  ghost function Join(a: Sites, b: Sites): Sites {
    if a.Some? && b.Some? then Some(a.value + b.value) else None
  }

  ghost function JoinAll(parts: seq<Sites>): Sites {
    if parts == [] then Some([]) else Join(JoinAll(parts[..|parts| - 1]), parts[|parts| - 1])
  }

  ghost function FieldSite(t: Tree, name: string, kind: ReferenceKind): Sites
    requires WellKeyed(t)
  {
    match Field(t, name)
    case None => Some([])
    case Some(v) => Some([Execution(kind, v)])
  }

  ghost function ContainerSite(job: Tree): Sites
    requires WellKeyed(job)
  {
    match Field(job, "container")
    case None => Some([])
    case Some(c) =>
      if !c.kind.Mapping? then Some([Execution(Image, c)])
      else
        FieldWellKeyed(job, "container");
        if Field(c, "image").None? then None else FieldSite(c, "image", Image)
  }

  /** The elements of a mapping or a list, all of which must be mappings, with one field of each. */
  ghost function FieldOfAll(ts: seq<Tree>, name: string, kind: ReferenceKind): seq<Sites>
    requires forall i | 0 <= i < |ts| :: WellKeyed(ts[i])
  {
    seq(|ts|, i requires 0 <= i < |ts| => if ts[i].kind.Mapping? then FieldSite(ts[i], name, kind) else None)
  }

  ghost function Values(ts: seq<Tree>): seq<Tree> {
    if |ts| < 2 then [] else Values(ts[..|ts| - 2]) + [ts[|ts| - 1]]
  }

  ghost function ServiceSites(job: Tree): Sites
    requires WellKeyed(job)
  {
    match Field(job, "services")
    case None => Some([])
    case Some(s) =>
      FieldWellKeyed(job, "services");
      ValuesWellKeyed(s.children);
      if s.kind.Mapping? then JoinAll(FieldOfAll(Values(s.children), "image", Image)) else None
  }

  ghost function StepSites(job: Tree): Sites
    requires WellKeyed(job)
  {
    match Field(job, "steps")
    case None => Some([])
    case Some(s) =>
      FieldWellKeyed(job, "steps");
      if s.kind.Sequence? then JoinAll(FieldOfAll(s.children, "uses", Action)) else None
  }

  ghost function JobSites(job: Tree): Sites
    requires WellKeyed(job)
  {
    if !job.kind.Mapping? then None
    else Join(Join(Join(FieldSite(job, "uses", Action), ContainerSite(job)), ServiceSites(job)), StepSites(job))
  }

  ghost function JobsSites(ts: seq<Tree>): seq<Sites>
    requires forall i | 0 <= i < |ts| :: WellKeyed(ts[i])
  {
    seq(|ts|, i requires 0 <= i < |ts| => JobSites(ts[i]))
  }

  /** Every execution site of a workflow, in document order. */
  ghost function WorkflowSites(root: Tree): Sites
    requires WellKeyed(root)
  {
    if !root.kind.Mapping? then None
    else
      match Field(root, "jobs")
      case None => Some([])
      case Some(jobs) =>
        FieldWellKeyed(root, "jobs");
        ValuesWellKeyed(jobs.children);
        if jobs.kind.Mapping? then JoinAll(JobsSites(Values(jobs.children))) else None
  }

  lemma {:induction false} SearchFinds(ts: seq<Tree>, name: string, i: nat)
    requires |ts| % 2 == 0 && i % 2 == 0
    ensures match Search(ts, name, i)
            case None => forall j | i <= j < |ts| && j % 2 == 0 :: ts[j].value != name
            case Some(v) => exists j :: i <= j < |ts| && j % 2 == 0 && ts[j].value == name && v == ts[j + 1]
    decreases |ts| - i
  {
    if i < |ts| && ts[i].value != name {
      SearchFinds(ts, name, i + 2);
    }
  }

  /** With distinct keys the search result is the one value stored under the name. */
  lemma {:induction false} FieldIsUnique(t: Tree, name: string, i: nat)
    requires WellKeyed(t) && t.kind.Mapping? && i < |t.children| && i % 2 == 0 && t.children[i].value == name
    ensures Field(t, name) == Some(t.children[i + 1])
  {
    SearchFinds(t.children, name, 0);
  }

  lemma {:induction false} FieldWellKeyed(t: Tree, name: string)
    requires WellKeyed(t)
    ensures Field(t, name).Some? ==> WellKeyed(Field(t, name).value)
  {
    if t.kind.Mapping? { SearchFinds(t.children, name, 0); }
  }

  lemma {:induction false} ValuesWellKeyed(ts: seq<Tree>)
    requires forall i | 0 <= i < |ts| :: WellKeyed(ts[i])
    ensures forall i | 0 <= i < |Values(ts)| :: WellKeyed(Values(ts)[i])
  {
    if |ts| >= 2 { ValuesWellKeyed(ts[..|ts| - 2]); }
  }

  // ----- what a list of sites yields -----

  predicate IsNull(t: Tree) {
    t.kind.Scalar? && t.tag == "!!null"
  }

  /** A site is acceptable when it is null or an immutable string with a readable annotation. */
  ghost predicate SiteOk(rules: Rules, s: Execution) {
    IsNull(s.node) ||
    (&& s.node.kind.Scalar? && s.node.tag == "!!str" && s.node.value != ""
     && rules.immutable(s.kind, s.node.value)
     && VersionOf(rules, s.kind, s.node.value, s.node.site.lineComment).Some?)
  }

  ghost function ReferenceOf(rules: Rules, s: Execution): Reference {
    var annotation := VersionOf(rules, s.kind, s.node.value, s.node.site.lineComment);
    Reference(s.kind, s.node.value, if annotation.Some? then annotation.value else NO_ANNOTATION, s.node.site.line)
  }

  /** One reference for every site that is not null, in order. */
  ghost function Collect(rules: Rules, sites: seq<Execution>): seq<Reference> {
    if sites == [] then []
    else
      var last := sites[|sites| - 1];
      Collect(rules, sites[..|sites| - 1]) + if IsNull(last.node) then [] else [ReferenceOf(rules, last)]
  }

  /** Each site is acceptable and is reached while there is room for one more reference. */
  ghost predicate Accepts(rules: Rules, sites: seq<Execution>, used: nat) {
    sites != [] ==>
      var init, last := sites[..|sites| - 1], sites[|sites| - 1];
      Accepts(rules, init, used) && SiteOk(rules, last) && used + |Collect(rules, init)| < MAX_WORKFLOW_REFERENCES
  }

  ghost predicate Good(rules: Rules, sites: Sites, used: nat) {
    sites.Some? && Accepts(rules, sites.value, used)
  }

  lemma {:induction false} CollectConcat(rules: Rules, a: seq<Execution>, b: seq<Execution>, used: nat)
    ensures Collect(rules, a + b) == Collect(rules, a) + Collect(rules, b)
    ensures Accepts(rules, a + b, used) <==>
            Accepts(rules, a, used) && Accepts(rules, b, used + |Collect(rules, a)|)
  {
    if b == [] {
      assert a + b == a;
    } else {
      var m := |b| - 1;
      CollectConcat(rules, a, b[..m], used);
      assert (a + b)[..|a| + m] == a + b[..m];
    }
  }

  lemma {:induction false} GoodJoin(rules: Rules, a: Sites, b: Sites, used: nat)
    ensures Good(rules, Join(a, b), used) <==>
            Good(rules, a, used) && Good(rules, b, used + |Collect(rules, a.value)|)
    ensures a.Some? && b.Some? ==>
              Collect(rules, Join(a, b).value) == Collect(rules, a.value) + Collect(rules, b.value)
  {
    if a.Some? && b.Some? { CollectConcat(rules, a.value, b.value, used); }
  }

  lemma {:induction false} GoodPrefix(rules: Rules, parts: seq<Sites>, i: nat, used: nat)
    requires i <= |parts| && Good(rules, JoinAll(parts), used)
    ensures Good(rules, JoinAll(parts[..i]), used)
    decreases |parts|
  {
    if i == |parts| {
      assert parts[..i] == parts;
    } else {
      var m := |parts| - 1;
      GoodJoin(rules, JoinAll(parts[..m]), parts[m], used);
      GoodPrefix(rules, parts[..m], i, used);
      assert parts[..m][..i] == parts[..i];
    }
  }

  /** The exact bound: at most 4,096 references, and none of the sites after the last one is null
      once that number is reached. */
  lemma {:induction false} AcceptsExactly(rules: Rules, sites: seq<Execution>)
    ensures Accepts(rules, sites, 0) <==>
            && (forall s <- sites :: SiteOk(rules, s))
            && |Collect(rules, sites)| <= MAX_WORKFLOW_REFERENCES
            && (|Collect(rules, sites)| == MAX_WORKFLOW_REFERENCES ==> !IsNull(sites[|sites| - 1].node))
  {
    if sites != [] {
      var m := |sites| - 1;
      AcceptsExactly(rules, sites[..m]);
      assert forall s :: s in sites <==> s in sites[..m] || s == sites[m];
    }
  }

  // ----- the extraction -----

  /** The slice that every append shares by pointer. */
  class References {
    var items: seq<Reference>

    constructor ()
      ensures items == []
    {
      items := [];
    }
  }

  /** An append accepts exactly the acceptable sites and then adds exactly their references. */
  ghost predicate Appended(rules: Rules, sites: Sites, before: seq<Reference>, after: seq<Reference>, ok: bool) {
    && (ok <==> Good(rules, sites, |before|))
    && (ok ==> after == before + Collect(rules, sites.value) && |after| <= MAX_WORKFLOW_REFERENCES)
  }

  lemma {:induction false} AppendedJoin(rules: Rules, a: Sites, b: Sites,
                                        before: seq<Reference>, middle: seq<Reference>, after: seq<Reference>, ok: bool)
    requires Appended(rules, a, before, middle, true) && Appended(rules, b, middle, after, ok)
    ensures Appended(rules, Join(a, b), before, after, ok)
  {
    GoodJoin(rules, a, b, |before|);
  }

  lemma {:induction false} AppendedStop(rules: Rules, a: Sites, b: Sites, before: seq<Reference>, after: seq<Reference>)
    requires Appended(rules, a, before, after, false)
    ensures Appended(rules, Join(a, b), before, after, false)
  {
    GoodJoin(rules, a, b, |before|);
  }

  method WorkflowField(mapping: Node, name: string, ghost t: Tree, ghost view: Graph) returns (found: Node?)
    requires Snapshot(view) && Holds(view, mapping, t) && WellKeyed(t)
    ensures found != null <==> Field(t, name).Some?
    ensures found != null ==> Holds(view, found, Field(t, name).value) && WellKeyed(Field(t, name).value)
  {
    assert CellOf(mapping) == view[mapping];
    FieldWellKeyed(t, name);
    if !mapping.kind.Mapping? {
      return null;
    }
    var index := 0;
    while index < |mapping.content|
      invariant 0 <= index <= |t.children| && index % 2 == 0
      invariant Search(t.children, name, 0) == Search(t.children, name, index)
    {
      assert Holds(view, mapping.content[index], t.children[index]);
      assert CellOf(mapping.content[index]) == view[mapping.content[index]];
      if mapping.content[index].value == name {
        assert Holds(view, mapping.content[index + 1], t.children[index + 1]);
        return mapping.content[index + 1];
      }
      index := index + 2;
    }
    return null;
  }

  method AppendWorkflowReference(references: References, kind: ReferenceKind, value: Node, rules: Rules,
                                 ghost t: Tree, ghost view: Graph) returns (ok: bool)
    requires Snapshot(view) && Holds(view, value, t) && |references.items| <= MAX_WORKFLOW_REFERENCES
    modifies references
    ensures Appended(rules, Some([Execution(kind, t)]), old(references.items), references.items, ok)
  {
    assert CellOf(value) == view[value];
    assert [Execution(kind, t)][..0] == [];
    assert Accepts(rules, [Execution(kind, t)], |references.items|) <==>
           SiteOk(rules, Execution(kind, t)) && |references.items| < MAX_WORKFLOW_REFERENCES;
    if |references.items| == MAX_WORKFLOW_REFERENCES {
      return false;
    }
    if value.kind.Scalar? && value.tag == "!!null" {
      assert references.items + Collect(rules, [Execution(kind, t)]) == references.items;
      return true;
    }
    if !value.kind.Scalar? || value.tag != "!!str" || value.value == "" {
      return false;
    }
    if !rules.immutable(kind, value.value) {
      return false;
    }
    var annotation := VersionOf(rules, kind, value.value, value.lineComment);
    if annotation.None? {
      return false;
    }
    references.items := references.items + [Reference(kind, value.value, annotation.value, value.line)];
    return true;
  }

  /** The optional field of one mapping. */
  method AppendField(references: References, mapping: Node, name: string, kind: ReferenceKind, rules: Rules,
                     ghost t: Tree, ghost view: Graph) returns (ok: bool)
    requires Snapshot(view) && Holds(view, mapping, t) && WellKeyed(t)
    requires |references.items| <= MAX_WORKFLOW_REFERENCES
    modifies references
    ensures Appended(rules, FieldSite(t, name, kind), old(references.items), references.items, ok)
  {
    var value := WorkflowField(mapping, name, t, view);
    if value == null {
      return true;
    }
    ok := AppendWorkflowReference(references, kind, value, rules, Field(t, name).value, view);
  }

  method AppendContainerReference(references: References, job: Node, rules: Rules, ghost t: Tree, ghost view: Graph)
    returns (ok: bool)
    requires Snapshot(view) && Holds(view, job, t) && WellKeyed(t)
    requires |references.items| <= MAX_WORKFLOW_REFERENCES
    modifies references
    ensures Appended(rules, ContainerSite(t), old(references.items), references.items, ok)
  {
    var container := WorkflowField(job, "container", t, view);
    if container == null {
      return true;
    }
    ghost var c := Field(t, "container").value;
    assert CellOf(container) == view[container];
    if container.kind.Mapping? {
      var image := WorkflowField(container, "image", c, view);
      if image == null {
        return false;
      }
      ok := AppendWorkflowReference(references, Image, image, rules, Field(c, "image").value, view);
    } else {
      ok := AppendWorkflowReference(references, Image, container, rules, c, view);
    }
  }

  method AppendServiceReferences(references: References, job: Node, rules: Rules, ghost t: Tree, ghost view: Graph)
    returns (ok: bool)
    requires Snapshot(view) && Holds(view, job, t) && WellKeyed(t)
    requires |references.items| <= MAX_WORKFLOW_REFERENCES
    modifies references
    ensures Appended(rules, ServiceSites(t), old(references.items), references.items, ok)
  {
    var services := WorkflowField(job, "services", t, view);
    if services == null {
      return true;
    }
    assert CellOf(services) == view[services];
    if !services.kind.Mapping? {
      return false;
    }
    var values, trees := MappingValues(services, Field(t, "services").value, view);
    ok := AppendFieldOfAll(references, values, "image", Image, rules, trees, view);
  }

  method AppendStepReferences(references: References, job: Node, rules: Rules, ghost t: Tree, ghost view: Graph)
    returns (ok: bool)
    requires Snapshot(view) && Holds(view, job, t) && WellKeyed(t)
    requires |references.items| <= MAX_WORKFLOW_REFERENCES
    modifies references
    ensures Appended(rules, StepSites(t), old(references.items), references.items, ok)
  {
    var steps := WorkflowField(job, "steps", t, view);
    if steps == null {
      return true;
    }
    assert CellOf(steps) == view[steps];
    if !steps.kind.Sequence? {
      return false;
    }
    ok := AppendFieldOfAll(references, steps.content, "uses", Action, rules, Field(t, "steps").value.children, view);
  }

  /** Nodes that hold trees, element by element. */
  ghost predicate HoldsAll(view: Graph, ns: seq<Node>, ts: seq<Tree>) {
    |ns| == |ts| && forall i | 0 <= i < |ts| :: Holds(view, ns[i], ts[i]) && WellKeyed(ts[i])
  }

  /** The nodes at the odd places of a mapping, where the source's loops step by two. */
  method MappingValues(mapping: Node, ghost t: Tree, ghost view: Graph)
    returns (values: seq<Node>, ghost trees: seq<Tree>)
    requires Snapshot(view) && Holds(view, mapping, t) && WellKeyed(t) && t.kind.Mapping?
    ensures trees == Values(t.children) && HoldsAll(view, values, trees)
  {
    assert CellOf(mapping) == view[mapping];
    values, trees := [], [];
    var index := 1;
    while index < |mapping.content|
      invariant index % 2 == 1 && 1 <= index <= |t.children| + 1
      invariant trees == Values(t.children[..index - 1]) && HoldsAll(view, values, trees)
    {
      assert Holds(view, mapping.content[index], t.children[index]);
      values, trees := values + [mapping.content[index]], trees + [t.children[index]];
      assert t.children[..index + 1][..index - 1] == t.children[..index - 1];
      index := index + 2;
    }
    assert t.children[..index - 1] == t.children;
  }

  /** The loop over services or steps: each element must be a mapping and may carry the field. */
  method AppendFieldOfAll(references: References, nodes: seq<Node>, name: string, kind: ReferenceKind, rules: Rules,
                          ghost trees: seq<Tree>, ghost view: Graph) returns (ok: bool)
    requires Snapshot(view) && HoldsAll(view, nodes, trees) && |references.items| <= MAX_WORKFLOW_REFERENCES
    modifies references
    ensures Appended(rules, JoinAll(FieldOfAll(trees, name, kind)), old(references.items), references.items, ok)
  {
    ghost var parts, before := FieldOfAll(trees, name, kind), references.items;
    for i := 0 to |nodes|
      invariant Appended(rules, JoinAll(parts[..i]), before, references.items, true)
    {
      ok := AppendElement(references, nodes[i], name, kind, rules, trees[i], view, parts, i, before);
      if !ok {
        return false;
      }
    }
    assert parts[..|nodes|] == parts;
    ok := true;
  }

  /** One element of that loop. */
  method AppendElement(references: References, node: Node, name: string, kind: ReferenceKind, rules: Rules,
                       ghost t: Tree,
                       ghost view: Graph, ghost parts: seq<Sites>, ghost i: nat, ghost before: seq<Reference>)
    returns (ok: bool)
    requires Snapshot(view) && Holds(view, node, t) && WellKeyed(t)
    requires i < |parts| && parts[i] == if t.kind.Mapping? then FieldSite(t, name, kind) else None
    requires Appended(rules, JoinAll(parts[..i]), before, references.items, true)
    modifies references
    ensures ok ==> Appended(rules, JoinAll(parts[..i + 1]), before, references.items, true)
    ensures !ok ==> Appended(rules, JoinAll(parts), before, references.items, false)
  {
    assert CellOf(node) == view[node];
    assert parts[..i + 1][..i] == parts[..i];
    if !node.kind.Mapping? {
      StopLoop(rules, parts, i, before, references.items);
      return false;
    }
    ghost var middle := references.items;
    ok := AppendField(references, node, name, kind, rules, t, view);
    if !ok {
      AppendedNot(rules, parts, i, before, middle, references.items);
      return;
    }
    AppendedJoin(rules, JoinAll(parts[..i]), parts[i], before, middle, references.items, true);
  }

  lemma {:induction false} StopLoop(rules: Rules, parts: seq<Sites>, i: nat, before: seq<Reference>,
                                    after: seq<Reference>)
    requires i < |parts| && !Good(rules, JoinAll(parts[..i + 1]), |before|)
    ensures Appended(rules, JoinAll(parts), before, after, false)
  {
    if Good(rules, JoinAll(parts), |before|) { GoodPrefix(rules, parts, i + 1, |before|); }
  }

  lemma {:induction false} AppendedNot(rules: Rules, parts: seq<Sites>, i: nat,
                                       before: seq<Reference>, middle: seq<Reference>, after: seq<Reference>)
    requires i < |parts| && Appended(rules, JoinAll(parts[..i]), before, middle, true)
    requires !Good(rules, parts[i], |middle|)
    ensures Appended(rules, JoinAll(parts), before, after, false)
  {
    assert parts[..i + 1][..i] == parts[..i];
    GoodJoin(rules, JoinAll(parts[..i]), parts[i], |before|);
    StopLoop(rules, parts, i, before, after);
  }

  method AppendJobReferences(references: References, job: Node, rules: Rules, ghost t: Tree, ghost view: Graph)
    returns (ok: bool)
    requires Snapshot(view) && Holds(view, job, t) && WellKeyed(t) && |references.items| <= MAX_WORKFLOW_REFERENCES
    modifies references
    ensures Appended(rules, JobSites(t), old(references.items), references.items, ok)
  {
    assert CellOf(job) == view[job];
    if !job.kind.Mapping? {
      return false;
    }
    ghost var a, b, c, d := FieldSite(t, "uses", Action), ContainerSite(t), ServiceSites(t), StepSites(t);
    ghost var s0 := references.items;
    ok := AppendField(references, job, "uses", Action, rules, t, view);
    ghost var s1 := references.items;
    if !ok {
      AppendedStop(rules, a, b, s0, s1);
      AppendedStop(rules, Join(a, b), c, s0, s1);
      AppendedStop(rules, Join(Join(a, b), c), d, s0, s1);
      return;
    }
    ok := AppendContainerReference(references, job, rules, t, view);
    ghost var s2 := references.items;
    AppendedJoin(rules, a, b, s0, s1, s2, ok);
    if !ok {
      AppendedStop(rules, Join(a, b), c, s0, s2);
      AppendedStop(rules, Join(Join(a, b), c), d, s0, s2);
      return;
    }
    ok := AppendServiceReferences(references, job, rules, t, view);
    ghost var s3 := references.items;
    AppendedJoin(rules, Join(a, b), c, s0, s2, s3, ok);
    if !ok {
      AppendedStop(rules, Join(Join(a, b), c), d, s0, s3);
      return;
    }
    ok := AppendStepReferences(references, job, rules, t, view);
    AppendedJoin(rules, Join(Join(a, b), c), d, s0, s3, references.items, ok);
  }

  /** The loop over the jobs. */
  method AppendJobs(references: References, jobs: seq<Node>, rules: Rules, ghost trees: seq<Tree>, ghost view: Graph)
    returns (ok: bool)
    requires Snapshot(view) && HoldsAll(view, jobs, trees) && |references.items| <= MAX_WORKFLOW_REFERENCES
    modifies references
    ensures Appended(rules, JoinAll(JobsSites(trees)), old(references.items), references.items, ok)
  {
    ghost var parts := JobsSites(trees);
    for i := 0 to |jobs|
      invariant Appended(rules, JoinAll(parts[..i]), old(references.items), references.items, true)
    {
      assert parts[..i + 1][..i] == parts[..i];
      ghost var middle := references.items;
      ok := AppendJobReferences(references, jobs[i], rules, trees[i], view);
      if !ok {
        AppendedNot(rules, parts, i, old(references.items), middle, references.items);
        return false;
      }
      AppendedJoin(rules, JoinAll(parts[..i]), parts[i], old(references.items), middle, references.items, true);
    }
    assert parts[..|jobs|] == parts;
    ok := true;
  }

  /** All references of a workflow, in document order, or an error. */
  method WorkflowReferences(root: Node, rules: Rules, ghost t: Tree, ghost view: Graph)
    returns (ok: bool, result: seq<Reference>)
    requires Snapshot(view) && Holds(view, root, t) && WellKeyed(t)
    ensures Appended(rules, WorkflowSites(t), [], result, ok)
  {
    assert CellOf(root) == view[root];
    if !root.kind.Mapping? {
      return false, [];
    }
    var jobs := WorkflowField(root, "jobs", t, view);
    if jobs == null {
      return true, [];
    }
    assert CellOf(jobs) == view[jobs];
    if !jobs.kind.Mapping? {
      return false, [];
    }
    var values, trees := MappingValues(jobs, Field(t, "jobs").value, view);
    var references := new References();
    ok := AppendJobs(references, values, rules, trees, view);
    result := references.items;
  }
}

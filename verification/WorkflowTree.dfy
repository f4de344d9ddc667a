/** Admission of a decoded document: the explicit-stack tree check, the alias test and the choice
between using the document as it stands and expanding it. */
module WorkflowTree {
  import opened YamlGraph
  import opened WorkflowExpansion

  const MAX_WORKFLOW_NODES := 65536

  // ----- local validity -----

  /** What `validWorkflowNode` asks of one node. */
  predicate LocallyValid(c: Cell) {
    && (c.kind.Alias? || c.alias == null)
    && match c.kind
       case Document => c.tag == "" && |c.content| == 1
       case Mapping => c.tag == "!!map" && |c.content| % 2 == 0
       case Sequence => c.tag == "!!seq"
       case Scalar => "!!" <= c.tag
       case Alias => c.alias != null && c.content == []
       case Undefined => false
  }

  predicate PlainKey(c: Cell) {
    c.kind.Scalar? && c.tag == "!!str" && c.value != "<<"
  }

  /** The keys of a mapping, which sit at the even places of its content, are plain and distinct. */
  ghost predicate DistinctKeys(g: Graph, content: seq<Node>)
    requires forall c <- content :: c in g
  {
    && (forall i | 0 <= i < |content| && i % 2 == 0 :: PlainKey(g[content[i]]))
    && (forall i, j | 0 <= i < j < |content| && i % 2 == 0 && j % 2 == 0 ::
          g[content[i]].value != g[content[j]].value)
  }

  /** Every node down to level `d` of the content tree is valid, and there is nothing below. */
  ghost predicate Sound(g: Graph, n: Node, d: int)
    requires Closed(g) && n in g
    decreases d
  {
    && d >= 0 && LocallyValid(g[n])
    && (g[n].kind.Mapping? ==> DistinctKeys(g, g[n].content))
    && forall i | 0 <= i < |g[n].content| :: Sound(g, g[n].content[i], d - 1)
  }

  lemma {:induction false} SoundIsFinite(g: Graph, n: Node, d: int)
    requires Closed(g) && n in g && Sound(g, n, d)
    ensures Finite(g, n, false) && WithinDepth(TreeOf(g, n, false), d)
    decreases d
  {
    forall i | 0 <= i < |g[n].content|
      ensures Finite(g, g[n].content[i], false) && WithinDepth(TreeOf(g, g[n].content[i], false), d - 1)
    {
      SoundIsFinite(g, g[n].content[i], d - 1);
    }
    FiniteContent(g, n, false);
  }

  /** The document is admitted: valid throughout, at most 100 deep, at most 65,536 nodes. */
  ghost predicate ValidTree(g: Graph, root: Node)
    requires Closed(g) && root in g
  {
    Sound(g, root, MAX_WORKFLOW_DEPTH) &&
    (SoundIsFinite(g, root, MAX_WORKFLOW_DEPTH);
     Size(TreeOf(g, root, false)) <= MAX_WORKFLOW_NODES)
  }

  // ----- the key check and its reused scratch map -----

  /** The map that one check passes to every mapping in turn. */
  class KeySet {
    var seen: set<string>

    constructor ()
      ensures seen == {}
    {
      seen := {};
    }
  }

  /** The keys before `index` are plain and distinct, and `seen` holds exactly their values. */
  ghost predicate Scanned(g: Graph, content: seq<Node>, index: nat, seen: set<string>)
    requires forall c <- content :: c in g
  {
    && (forall i | 0 <= i < index && i < |content| && i % 2 == 0 :: PlainKey(g[content[i]]))
    && (forall i, j | 0 <= i < j < index && j < |content| && i % 2 == 0 && j % 2 == 0 ::
          g[content[i]].value != g[content[j]].value)
    && seen == set i | 0 <= i < index && i < |content| && i % 2 == 0 :: g[content[i]].value
  }

  lemma {:induction false} ScanNext(g: Graph, content: seq<Node>, index: nat, seen: set<string>)
    requires forall c <- content :: c in g
    requires Scanned(g, content, index, seen) && index < |content| && index % 2 == 0
    ensures var key := g[content[index]];
            if PlainKey(key) && key.value !in seen then Scanned(g, content, index + 2, seen + {key.value})
            else !DistinctKeys(g, content)
  {
    var key := g[content[index]];
    if key.value in seen {
      var i :| 0 <= i < index && i < |content| && i % 2 == 0 && g[content[i]].value == key.value;
    } else {
      forall i | 0 <= i < index + 2 && i < |content| && i % 2 == 0
        ensures i < index || i == index
      {
      }
      assert (set i | 0 <= i < index + 2 && i < |content| && i % 2 == 0 :: g[content[i]].value) == seen + {key.value};
    }
  }

  /** Whatever earlier mappings left in `keys` has no influence on the answer. */
  method UniqueWorkflowKeys(mapping: Node, keys: KeySet, ghost g: Graph) returns (ok: bool)
    requires Closed(g) && Snapshot(g) && mapping in g
    modifies keys
    ensures ok <==> DistinctKeys(g, g[mapping].content)
  {
    assert CellOf(mapping) == g[mapping];
    keys.seen := {};
    var index := 0;
    while index < |mapping.content|
      invariant index % 2 == 0 && Scanned(g, g[mapping].content, index, keys.seen)
    {
      var key := mapping.content[index];
      assert CellOf(key) == g[key];
      ScanNext(g, g[mapping].content, index, keys.seen);
      if !key.kind.Scalar? || key.tag != "!!str" || key.value == "<<" || key.value in keys.seen {
        return false;
      }
      keys.seen := keys.seen + {key.value};
      index := index + 2;
    }
    return true;
  }

  // ----- the explicit-stack check -----

  datatype Pending = Pending(value: Node, depth: nat)

  /** One node on its own: not too deep, locally valid and, for a mapping, with distinct keys. */
  ghost predicate Admissible(g: Graph, p: Pending)
    requires Closed(g) && p.value in g
  {
    && p.depth <= MAX_WORKFLOW_DEPTH && LocallyValid(g[p.value])
    && (g[p.value].kind.Mapping? ==> DistinctKeys(g, g[p.value].content))
  }

  /** Every pending subtree is sound at its own depth. */
  ghost predicate AllSound(g: Graph, pending: seq<Pending>)
    requires Closed(g)
  {
    forall p <- pending :: p.value in g && Sound(g, p.value, MAX_WORKFLOW_DEPTH - p.depth)
  }

  ghost function PendingSize(g: Graph, pending: seq<Pending>): nat
    requires Closed(g) && AllSound(g, pending)
  {
    if pending == [] then 0
    else
      var last := pending[|pending| - 1];
      SoundIsFinite(g, last.value, MAX_WORKFLOW_DEPTH - last.depth);
      PendingSize(g, pending[..|pending| - 1]) + Size(TreeOf(g, last.value, false))
  }

  ghost function Entries(content: seq<Node>, depth: nat): seq<Pending> {
    if content == [] then []
    else Entries(content[..|content| - 1], depth) + [Pending(content[|content| - 1], depth)]
  }

  lemma {:induction false} ReplaceSound(g: Graph, rest: seq<Pending>, p: Pending)
    requires Closed(g) && p.value in g
    requires p.depth <= MAX_WORKFLOW_DEPTH && LocallyValid(g[p.value])
    requires g[p.value].kind.Mapping? ==> DistinctKeys(g, g[p.value].content)
    ensures AllSound(g, rest + [p]) <==> AllSound(g, rest + Entries(g[p.value].content, p.depth + 1))
  {
    var es := Entries(g[p.value].content, p.depth + 1);
    assert AllSound(g, rest + [p]) <==> AllSound(g, rest) && AllSound(g, [p]) by { SoundConcat(g, rest, [p]); }
    SoundConcat(g, rest, es);
    EntriesSound(g, g[p.value].content, p.depth + 1);
    if AllSound(g, [p]) {
      assert p in [p];
    }
  }

  lemma {:induction false} EntriesSound(g: Graph, content: seq<Node>, depth: nat)
    requires Closed(g) && forall c <- content :: c in g
    ensures AllSound(g, Entries(content, depth)) <==>
            forall i | 0 <= i < |content| :: Sound(g, content[i], MAX_WORKFLOW_DEPTH - depth)
    ensures forall q <- Entries(content, depth) :: q.value in g
  {
    if content != [] {
      var m := |content| - 1;
      EntriesSound(g, content[..m], depth);
      SoundConcat(g, Entries(content[..m], depth), [Pending(content[m], depth)]);
      assert forall i | 0 <= i < m :: content[..m][i] == content[i];
      assert Pending(content[m], depth) in [Pending(content[m], depth)];
    }
  }

  lemma {:induction false} SoundConcat(g: Graph, a: seq<Pending>, b: seq<Pending>)
    requires Closed(g)
    ensures AllSound(g, a + b) <==> AllSound(g, a) && AllSound(g, b)
  {
    assert forall p :: p in a + b <==> p in a || p in b;
  }

  /** Replacing a node by its content costs exactly the node itself. */
  lemma {:induction false} ReplaceSize(g: Graph, rest: seq<Pending>, p: Pending)
    requires Closed(g) && p.value in g
    requires AllSound(g, rest + [p]) && AllSound(g, rest + Entries(g[p.value].content, p.depth + 1))
    ensures PendingSize(g, rest + [p]) == PendingSize(g, rest + Entries(g[p.value].content, p.depth + 1)) + 1
  {
    assert p in rest + [p];
    SoundConcat(g, rest, [p]);
    SoundIsFinite(g, p.value, MAX_WORKFLOW_DEPTH - p.depth);
    FiniteContent(g, p.value, false);
    assert (rest + [p])[..|rest|] == rest;
    EntriesSize(g, rest, g[p.value].content, p.depth + 1, TreeOf(g, p.value, false).children);
  }

  lemma {:induction false} EntriesSize(g: Graph, rest: seq<Pending>, content: seq<Node>, depth: nat, trees: seq<Tree>)
    requires Closed(g) && |trees| == |content| && AllSound(g, rest) && AllSound(g, rest + Entries(content, depth))
    requires forall i | 0 <= i < |content| ::
               content[i] in g && Finite(g, content[i], false) && trees[i] == TreeOf(g, content[i], false)
    ensures PendingSize(g, rest + Entries(content, depth)) == PendingSize(g, rest) + SizeAll(trees)
  {
    if content == [] {
      assert rest + Entries(content, depth) == rest;
    } else {
      var m := |content| - 1;
      var init, last := rest + Entries(content[..m], depth), Pending(content[m], depth);
      assert rest + Entries(content, depth) == init + [last];
      SoundConcat(g, init, [last]);
      PendingLast(g, init, last);
      EntriesSize(g, rest, content[..m], depth, trees[..m]);
    }
  }

  lemma {:induction false} PendingLast(g: Graph, ps: seq<Pending>, p: Pending)
    requires Closed(g) && AllSound(g, ps) && AllSound(g, ps + [p])
    ensures p.value in g && Finite(g, p.value, false)
    ensures PendingSize(g, ps + [p]) == PendingSize(g, ps) + Size(TreeOf(g, p.value, false))
  {
    assert p in ps + [p];
    SoundIsFinite(g, p.value, MAX_WORKFLOW_DEPTH - p.depth);
    assert (ps + [p])[..|ps|] == ps;
  }

  /** What the loop knows: `done` nodes are counted and the pending ones decide the rest. */
  ghost predicate Progress(g: Graph, root: Node, pending: seq<Pending>, done: nat)
    requires Closed(g) && root in g
  {
    && (forall p <- pending :: p.value in g)
    && (Sound(g, root, MAX_WORKFLOW_DEPTH) <==> AllSound(g, pending))
    && (AllSound(g, pending) ==>
          Finite(g, root, false) && done + PendingSize(g, pending) == Size(TreeOf(g, root, false)))
  }

  lemma {:induction false} ProgressStart(g: Graph, root: Node)
    requires Closed(g) && root in g
    ensures Progress(g, root, [Pending(root, 0)], 0)
  {
    var p := Pending(root, 0);
    assert p in [p];
    if Sound(g, root, MAX_WORKFLOW_DEPTH) {
      SoundIsFinite(g, root, MAX_WORKFLOW_DEPTH);
      assert AllSound(g, [p]);
      assert [p][..0] == [];
      assert PendingSize(g, []) == 0;
    }
  }

  lemma {:induction false} ProgressEnd(g: Graph, root: Node, done: nat)
    requires Closed(g) && root in g && Progress(g, root, [], done) && done <= MAX_WORKFLOW_NODES
    ensures ValidTree(g, root)
  {
  }

  /** One node too many, or one inadmissible node, settles the question. */
  lemma {:induction false} ProgressFails(g: Graph, root: Node, pending: seq<Pending>, p: Pending, done: nat)
    requires Closed(g) && root in g && Progress(g, root, pending, done)
    requires pending != [] && p == pending[|pending| - 1]
    requires done == MAX_WORKFLOW_NODES || !Admissible(g, p)
    ensures !ValidTree(g, root)
  {
    if AllSound(g, pending) {
      assert Sound(g, p.value, MAX_WORKFLOW_DEPTH - p.depth);
      assert PendingSize(g, pending) >= 1;
    }
  }

  lemma {:induction false} ProgressNext(g: Graph, root: Node, pending: seq<Pending>, p: Pending, done: nat)
    requires Closed(g) && root in g && Progress(g, root, pending, done)
    requires pending != [] && p == pending[|pending| - 1] && Admissible(g, p)
    ensures Progress(g, root, pending[..|pending| - 1] + Entries(g[p.value].content, p.depth + 1), done + 1)
  {
    var rest := pending[..|pending| - 1];
    assert pending == rest + [p];
    ReplaceSound(g, rest, p);
    EntriesSound(g, g[p.value].content, p.depth + 1);
    if AllSound(g, pending) { ReplaceSize(g, rest, p); }
  }

  /** The inner loop: every child goes on the stack one level down. */
  method PushAll(stack: seq<Pending>, content: seq<Node>, depth: nat) returns (pending: seq<Pending>)
    ensures pending == stack + Entries(content, depth)
  {
    pending := stack;
    for i := 0 to |content|
      invariant pending == stack + Entries(content[..i], depth)
    {
      pending := pending + [Pending(content[i], depth)];
      assert content[..i + 1][..i] == content[..i];
    }
    assert content[..|content|] == content;
  }

  /** The checks one loop iteration makes on the node it has popped. */
  method Admit(current: Pending, keys: KeySet, ghost g: Graph) returns (ok: bool)
    requires Closed(g) && Snapshot(g) && current.value in g
    modifies keys
    ensures Snapshot(g)
    ensures ok <==> Admissible(g, current)
  {
    assert CellOf(current.value) == g[current.value];
    if current.depth > MAX_WORKFLOW_DEPTH || !LocallyValid(CellOf(current.value)) {
      return false;
    }
    if current.value.kind.Mapping? {
      ok := UniqueWorkflowKeys(current.value, keys, g);
    } else {
      ok := true;
    }
  }

  /** The explicit-stack loop computes exactly the recursive condition. */
  method ValidWorkflowTree(root: Node, ghost g: Graph) returns (ok: bool)
    requires Closed(g) && Snapshot(g) && root in g
    ensures ok <==> ValidTree(g, root)
  {
    var pending := [Pending(root, 0)];
    var keys := new KeySet();
    var nodes := 0;
    ProgressStart(g, root);
    while |pending| != 0
      invariant fresh(keys) && Snapshot(g) && nodes <= MAX_WORKFLOW_NODES
      invariant Progress(g, root, pending, nodes)
      decreases MAX_WORKFLOW_NODES - nodes
    {
      var last := |pending| - 1;
      var current := pending[last];
      nodes := nodes + 1;
      if nodes > MAX_WORKFLOW_NODES {
        ProgressFails(g, root, pending, current, nodes - 1);
        return false;
      }
      var admitted := Admit(current, keys, g);
      if !admitted {
        ProgressFails(g, root, pending, current, nodes - 1);
        return false;
      }
      ProgressNext(g, root, pending, current, nodes - 1);
      assert CellOf(current.value) == g[current.value];
      pending := PushAll(pending[..last], current.value.content, current.depth + 1);
    }
    ProgressEnd(g, root, nodes);
    return true;
  }

  // ----- aliases -----

  lemma {:induction false} AliasStep(g: Graph, n: Node, d: int)
    requires Closed(g) && n in g && Sound(g, n, d)
    ensures Finite(g, n, false) && forall i | 0 <= i < |g[n].content| :: Finite(g, g[n].content[i], false)
    ensures ContainsAlias(TreeOf(g, n, false)) <==>
      g[n].kind.Alias? || exists i :: 0 <= i < |g[n].content| && ContainsAlias(TreeOf(g, g[n].content[i], false))
  {
    SoundIsFinite(g, n, d);
    FiniteContent(g, n, false);
    var ts := TreeOf(g, n, false).children;
    forall i | 0 <= i < |ts| ensures ContainsAlias(ts[i]) <==> ContainsAlias(TreeOf(g, g[n].content[i], false)) { }
  }

  /** The recursive alias test, run on an admitted document, looks at the whole content tree. */
  predicate WorkflowUsesAliases(n: Node, ghost g: Graph, ghost d: int)
    requires Closed(g) && Snapshot(g) && n in g && Sound(g, n, d)
    reads g.Keys
    ensures Finite(g, n, false)
    ensures WorkflowUsesAliases(n, g, d) <==> ContainsAlias(TreeOf(g, n, false))
    decreases d
  {
    AliasStep(g, n, d);
    assert CellOf(n) == g[n];
    n.kind.Alias? || exists i | 0 <= i < |n.content| :: WorkflowUsesAliases(n.content[i], g, d - 1)
  }

  lemma {:induction false} NoAliasUnfold(g: Graph, n: Node, k: nat)
    requires Closed(g) && n in g && Unfold(g, n, k, false).Some?
    requires !ContainsAlias(Unfold(g, n, k, false).value)
    ensures Unfold(g, n, k, true) == Unfold(g, n, k, false)
    decreases k
  {
    var t := Unfold(g, n, k, false).value;
    forall i | 0 <= i < |g[n].content|
      ensures Unfold(g, g[n].content[i], k - 1, true) == Unfold(g, g[n].content[i], k - 1, false)
    {
      assert !ContainsAlias(t.children[i]);
      NoAliasUnfold(g, g[n].content[i], k - 1);
    }
    assert Unfold(g, n, k, true).value.children == t.children;
  }

  /** An admitted document without aliases always expands, and to its own content tree. */
  lemma {:induction false} NoAliasExpands(g: Graph, n: Node)
    requires Closed(g) && n in g && ValidTree(g, n)
    requires Finite(g, n, false) && !ContainsAlias(TreeOf(g, n, false))
    ensures Expandable(g, n, 0, 0, MAX_WORKFLOW_NODES)
    ensures TreeOf(g, n, true) == TreeOf(g, n, false)
  {
    SoundIsFinite(g, n, MAX_WORKFLOW_DEPTH);
    var k: nat :| Unfold(g, n, k, false).Some?;
    TreeOfUnfold(g, n, k, false);
    NoAliasUnfold(g, n, k);
    TreeOfUnfold(g, n, k, true);
  }

  /** Reading content downwards from `n`, with anchors ignored, gives `t`. */
  ghost predicate Holds(view: Graph, n: Node, t: Tree) {
    && n in view
    && view[n].kind == t.kind && view[n].style == t.style && view[n].tag == t.tag
    && view[n].value == t.value && view[n].site == t.site
    && |view[n].content| == |t.children|
    && forall i | 0 <= i < |t.children| :: Holds(view, view[n].content[i], t.children[i])
  }

  lemma {:induction false} UnfoldHolds(g: Graph, n: Node, k: nat)
    requires Closed(g) && n in g && Unfold(g, n, k, false).Some?
    ensures Holds(g, n, Unfold(g, n, k, false).value)
    decreases k
  {
    forall i | 0 <= i < |g[n].content|
      ensures Holds(g, g[n].content[i], Unfold(g, n, k, false).value.children[i])
    {
      UnfoldHolds(g, g[n].content[i], k - 1);
    }
  }

  lemma {:induction false} HoldsInLarger(small: Graph, large: Graph, n: Node, t: Tree)
    requires Holds(small, n, t) && forall m <- small :: m in large && large[m] == small[m]
    ensures Holds(large, n, t)
    decreases t
  {
    forall i | 0 <= i < |t.children|
      ensures Holds(large, small[n].content[i], t.children[i])
    {
      HoldsInLarger(small, large, small[n].content[i], t.children[i]);
    }
  }

  lemma {:induction false} SpellsHolds(s: Shape, t: Tree)
    requires Separate(s) && Spells(s, t)
    ensures Holds(Cells(s), s.node, t)
    decreases s, 0
  {
    SpellsHoldsAll(s.kids, t.children);
    forall i | 0 <= i < |t.children|
      ensures Holds(Cells(s), Heads(s.kids)[i], t.children[i])
    {
      HoldsInLarger(CellsAll(s.kids), Cells(s), Heads(s.kids)[i], t.children[i]);
    }
  }

  lemma {:induction false} SpellsHoldsAll(ss: seq<Shape>, ts: seq<Tree>)
    requires SeparateAll(ss) && SpellsAll(ss, ts)
    ensures |Heads(ss)| == |ts| && forall i | 0 <= i < |ts| :: Holds(CellsAll(ss), Heads(ss)[i], ts[i])
    decreases ss, 1
  {
    if ss != [] {
      var m := |ss| - 1;
      SpellsHoldsAll(ss[..m], ts[..m]);
      SpellsHolds(ss[m], ts[m]);
      HoldsInLarger(Cells(ss[m]), CellsAll(ss), ss[m].node, ts[m]);
      forall i | 0 <= i < m ensures Holds(CellsAll(ss), Heads(ss)[i], ts[i]) {
        HoldsInLarger(CellsAll(ss[..m]), CellsAll(ss), Heads(ss[..m])[i], ts[..m][i]);
      }
    }
  }

  /** What a parsed document means, whichever branch decoding takes. */
  ghost predicate Decodable(g: Graph, document: Node)
    requires Closed(g) && document in g
  {
    && g[document].kind.Document? && |g[document].content| == 1
    && ValidTree(g, document) && Expandable(g, document, 0, 0, MAX_WORKFLOW_NODES)
  }

  /** Everything after parsing. With or without aliases, the root that is returned reads as the
      unfolding of the document's only child, and the document itself is left alone. */
  method DecodeWorkflow(document: Node, ghost g: Graph) returns (root: Node?, ghost view: Graph)
    requires Closed(g) && Snapshot(g) && document in g
    ensures Snapshot(g)
    ensures root != null <==> Decodable(g, document)
    ensures root != null ==>
              && Snapshot(view) && |TreeOf(g, document, true).children| == 1
              && Holds(view, root, TreeOf(g, document, true).children[0])
  {
    view := map[];
    assert CellOf(document) == g[document];
    if !document.kind.Document? || |document.content| != 1 {
      return null, map[];
    }
    var valid := ValidWorkflowTree(document, g);
    if !valid {
      return null, map[];
    }
    FiniteContent(g, document, true);
    if !WorkflowUsesAliases(document, g, MAX_WORKFLOW_DEPTH) {
      NoAliasExpands(g, document);
      FastPath(g, document);
      return document.content[0], g;
    }
    var expanded, shape := ExpandWorkflowAliases(document, MAX_WORKFLOW_NODES, g);
    if expanded == null {
      return null, map[];
    }
    SpellsHolds(shape.value, TreeOf(g, document, true));
    view := Cells(shape.value);
    assert CellOf(expanded) == view[expanded];
    root := expanded.content[0];
  }

  lemma {:induction false} FastPath(g: Graph, n: Node)
    requires Closed(g) && n in g && Finite(g, n, false)
    ensures Holds(g, n, TreeOf(g, n, false))
  {
    var k: nat :| Unfold(g, n, k, false).Some?;
    TreeOfUnfold(g, n, k, false);
    UnfoldHolds(g, n, k);
  }
}

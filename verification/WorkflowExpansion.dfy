/** Alias expansion: a guarded walk over a possibly cyclic graph that builds a fresh alias-free tree.

The walk knows nothing about finiteness. It refuses a node that is already on its own path, and it
counts nodes and levels. The contract of `Expand` says that these three guards together decide exactly
whether the unfolding exists within the bounds, and that the result is that unfolding. */
module WorkflowExpansion {
  import opened Options
  import opened YamlGraph

  const MAX_WORKFLOW_DEPTH := 100

  /** The nodes of an expanded document, arranged as the tree they form, with what each holds. */
  datatype Shape = Shape(node: Node, cell: Cell, kids: seq<Shape>)

  /** Everything the document is stored in. */
  ghost function Cells(s: Shape): Graph {
    CellsAll(s.kids)[s.node := s.cell]
  }

  ghost function CellsAll(ss: seq<Shape>): Graph {
    if ss == [] then map[] else CellsAll(ss[..|ss| - 1]) + Cells(ss[|ss| - 1])
  }

  /** No node occurs twice, so no two parts of the document share storage. */
  ghost predicate Separate(s: Shape) {
    s.node !in CellsAll(s.kids) && SeparateAll(s.kids)
  }

  ghost predicate SeparateAll(ss: seq<Shape>) {
    ss != [] ==>
      var init, last := ss[..|ss| - 1], ss[|ss| - 1];
      SeparateAll(init) && Separate(last) && CellsAll(init).Keys !! Cells(last).Keys
  }

  /** The cells along `s` spell out `t`, without aliases and without anchors. */
  ghost predicate Spells(s: Shape, t: Tree) {
    && s.cell == Bare(t, Heads(s.kids))
    && SpellsAll(s.kids, t.children)
  }

  ghost predicate SpellsAll(ss: seq<Shape>, ts: seq<Tree>) {
    |ss| == |ts| &&
    (ss != [] ==> SpellsAll(ss[..|ss| - 1], ts[..|ts| - 1]) && Spells(ss[|ss| - 1], ts[|ts| - 1]))
  }

  ghost function Heads(ss: seq<Shape>): seq<Node> {
    if ss == [] then [] else Heads(ss[..|ss| - 1]) + [ss[|ss| - 1].node]
  }

  /** The cell of an expanded node: no anchor and no alias. */
  ghost function Bare(t: Tree, content: seq<Node>): Cell {
    Cell(t.kind, t.style, t.tag, t.value, "", t.site, null, content)
  }

  /** A row of finished subtrees: what they spell, the nodes that head them and where they are stored. */
  ghost predicate Row(ss: seq<Shape>, ts: seq<Tree>, heads: seq<Node>, cells: Graph) {
    SeparateAll(ss) && SpellsAll(ss, ts) && heads == Heads(ss) && cells == CellsAll(ss)
  }

  lemma {:induction false} ExtendRow(ss: seq<Shape>, ts: seq<Tree>, heads: seq<Node>, cells: Graph, s: Shape, t: Tree)
    requires Row(ss, ts, heads, cells) && Separate(s) && Spells(s, t) && cells.Keys !! Cells(s).Keys
    ensures Row(ss + [s], ts + [t], heads + [s.node], cells + Cells(s))
  {
    assert (ss + [s])[..|ss|] == ss;
    assert (ts + [t])[..|ts|] == ts;
  }

  lemma {:induction false} RootShape(s: Shape, t: Tree)
    requires SeparateAll(s.kids) && SpellsAll(s.kids, t.children) && s.node !in CellsAll(s.kids)
    requires s.cell == Bare(t, Heads(s.kids))
    ensures Separate(s) && Spells(s, t)
  {
  }

  /** A tree-shaped result holds exactly as many nodes as its tree has occurrences. */
  lemma {:induction false} NodeCount(s: Shape, t: Tree)
    requires Separate(s) && Spells(s, t)
    ensures |Cells(s)| == Size(t)
    decreases s, 0
  {
    NodeCountAll(s.kids, t.children);
    assert Cells(s).Keys == CellsAll(s.kids).Keys + {s.node};
  }

  lemma {:induction false} NodeCountAll(ss: seq<Shape>, ts: seq<Tree>)
    requires SeparateAll(ss) && SpellsAll(ss, ts)
    ensures |CellsAll(ss)| == SizeAll(ts)
    decreases ss, 1
  {
    if ss != [] {
      var init, last := ss[..|ss| - 1], ss[|ss| - 1];
      NodeCountAll(init, ts[..|ts| - 1]);
      NodeCount(last, ts[|ts| - 1]);
      assert CellsAll(ss).Keys == CellsAll(init).Keys + Cells(last).Keys;
    }
  }

  /** A document that spells a tree without aliases has no alias node, and no pointer to an anchor. */
  lemma {:induction false} NoAliasCells(s: Shape, t: Tree, n: Node)
    requires Spells(s, t) && !ContainsAlias(t)
    ensures n in Cells(s) ==> !Cells(s)[n].kind.Alias? && Cells(s)[n].alias == null && Cells(s)[n].anchor == ""
    decreases s, 0
  {
    NoAliasCellsAll(s.kids, t.children, n);
  }

  lemma {:induction false} NoAliasCellsAll(ss: seq<Shape>, ts: seq<Tree>, n: Node)
    requires SpellsAll(ss, ts) && forall i | 0 <= i < |ts| :: !ContainsAlias(ts[i])
    ensures n in CellsAll(ss) ==>
      !CellsAll(ss)[n].kind.Alias? && CellsAll(ss)[n].alias == null && CellsAll(ss)[n].anchor == ""
    decreases ss, 1
  {
    if ss != [] {
      NoAliasCellsAll(ss[..|ss| - 1], ts[..|ts| - 1], n);
      NoAliasCells(ss[|ss| - 1], ts[|ts| - 1], n);
    }
  }

  // ----- what expansion decides -----

  /** The unfolding of `node` exists, fits below `depth`, and fits in what `used` leaves of `maximum`. */
  ghost predicate Expandable(g: Graph, node: Node?, depth: int, used: int, maximum: int)
    requires Closed(g) && (node != null ==> node in g)
  {
    Finite(g, node, true) && Fits(TreeOf(g, node, true), depth, used, maximum)
  }

  /** Unfolding `m` needs strictly more hops than unfolding `n`. */
  ghost predicate Above(g: Graph, m: Node, n: Node?)
    requires Closed(g) && m in g && (n != null ==> n in g)
  {
    forall k: nat :: AboveAt(g, m, n, k)
  }

  ghost predicate AboveAt(g: Graph, m: Node, n: Node?, k: nat)
    requires Closed(g) && m in g && (n != null ==> n in g)
  {
    Unfold(g, m, k, true).Some? ==> k > 0 && Unfold(g, n, k - 1, true).Some?
  }

  /** Every node on the path stands above the node the path has reached. */
  ghost predicate Path(g: Graph, active: set<Node>, n: Node?)
    requires Closed(g) && (n != null ==> n in g)
  {
    active <= g.Keys && forall m <- active :: Above(g, m, n)
  }

  lemma {:induction false} AboveNext(g: Graph, n: Node, next: Node?)
    requires Closed(g) && n in g
    requires if g[n].kind.Alias? then next == g[n].alias else next != null && next in g[n].content
    ensures (next != null ==> next in g) && Above(g, n, next)
  {
    if !g[n].kind.Alias? {
      var i :| 0 <= i < |g[n].content| && g[n].content[i] == next;
    }
  }

  lemma {:induction false} AboveTransitive(g: Graph, m: Node, n: Node, next: Node?)
    requires Closed(g) && m in g && n in g && (next != null ==> next in g)
    requires Above(g, m, n) && Above(g, n, next)
    ensures Above(g, m, next)
  {
    forall k: nat ensures AboveAt(g, m, next, k) {
      assert AboveAt(g, m, n, k);
      if Unfold(g, m, k, true).Some? {
        assert AboveAt(g, n, next, k - 1);
        UnfoldStable(g, next, k - 2, k - 1, true);
      }
    }
  }

  lemma {:induction false} PathExtend(g: Graph, active: set<Node>, n: Node, next: Node?)
    requires Closed(g) && n in g && Path(g, active, n)
    requires if g[n].kind.Alias? then next == g[n].alias else next != null && next in g[n].content
    ensures next != null ==> next in g
    ensures Path(g, active + {n}, next)
  {
    AboveNext(g, n, next);
    forall m | m in active + {n}
      ensures Above(g, m, next)
    {
      if m != n { AboveTransitive(g, m, n, next); }
    }
  }

  lemma {:induction false} PathChildren(g: Graph, above: set<Node>, active: set<Node>, n: Node)
    requires Closed(g) && n in g && active == above + {n} && !g[n].kind.Alias? && Path(g, above, n)
    ensures forall c <- g[n].content :: Path(g, active, c)
  {
    forall c | c in g[n].content ensures Path(g, active, c) { PathExtend(g, above, n, c); }
  }

  /** A node that is its own ancestor has no finite unfolding. */
  lemma {:induction false} CycleIsInfinite(g: Graph, n: Node)
    requires Closed(g) && n in g && Above(g, n, n)
    ensures !Finite(g, n, true)
  {
    forall k: nat ensures Unfold(g, n, k, true).None? { NoFuel(g, n, k); }
  }

  lemma {:induction false} NoFuel(g: Graph, n: Node, k: nat)
    requires Closed(g) && n in g && Above(g, n, n)
    ensures Unfold(g, n, k, true).None?
  {
    assert AboveAt(g, n, n, k);
    if k > 0 { NoFuel(g, n, k - 1); }
  }

  lemma {:induction false} AliasExpandable(g: Graph, n: Node, depth: int, used: int, maximum: int)
    requires Closed(g) && n in g && g[n].kind.Alias?
    ensures Expandable(g, n, depth, used, maximum) <==> Expandable(g, g[n].alias, depth, used, maximum)
    ensures Finite(g, n, true) ==>
              && Finite(g, g[n].alias, true)
              && Size(TreeOf(g, n, true)) == Size(TreeOf(g, g[n].alias, true))
              && TreeOf(g, n, true) == TreeOf(g, g[n].alias, true).(site := g[n].site)
  {
    FiniteAlias(g, n);
  }

  /** A child that cannot be expanded after its elder siblings rules out its parent. */
  lemma {:induction false} ChildBlocks(g: Graph, n: Node, i: nat, elders: seq<Tree>, depth: int, used: int,
                                       maximum: int)
    requires Closed(g) && n in g && !g[n].kind.Alias? && i < |g[n].content| && |elders| == i
    requires ElderTrees(g, n, elders, MAX_WORKFLOW_DEPTH - depth - 1)
    requires !Expandable(g, g[n].content[i], depth + 1, used + 1 + SizeAll(elders), maximum)
    ensures !Expandable(g, n, depth, used, maximum)
  {
    if Finite(g, n, true) {
      FiniteContent(g, n, true);
      var t, c := TreeOf(g, n, true), TreeOf(g, g[n].content[i], true);
      assert elders == t.children[..i];
      ChildFits(t, elders, c, depth, used, maximum);
    }
  }

  ghost predicate Fits(t: Tree, depth: int, used: int, maximum: int) {
    WithinDepth(t, MAX_WORKFLOW_DEPTH - depth) && used + Size(t) <= maximum
  }

  lemma {:induction false} ChildFits(t: Tree, elders: seq<Tree>, child: Tree, depth: int, used: int, maximum: int)
    requires |elders| < |t.children| && elders == t.children[..|elders|] && child == t.children[|elders|]
    ensures Fits(t, depth, used, maximum) ==> Fits(child, depth + 1, used + 1 + SizeAll(elders), maximum)
  {
    PrefixFits(t, elders, MAX_WORKFLOW_DEPTH - depth);
  }

  lemma {:induction false} PrefixFits(t: Tree, elders: seq<Tree>, d: int)
    requires |elders| < |t.children| && elders == t.children[..|elders|]
    ensures 1 + SizeAll(elders) + Size(t.children[|elders|]) <= Size(t)
    ensures WithinDepth(t, d) ==> WithinDepth(t.children[|elders|], d - 1)
  {
    var i := |elders|;
    SizeAllPrefix(t.children, i + 1);
    assert t.children[..i + 1] == elders + [t.children[i]];
    SizeAllAppend(elders, t.children[i]);
  }

  ghost predicate ElderTrees(g: Graph, node: Node, trees: seq<Tree>, d: int)
    requires Closed(g) && node in g
  {
    && |trees| <= |g[node].content|
    && forall j | 0 <= j < |trees| ::
         && Finite(g, g[node].content[j], true) && trees[j] == TreeOf(g, g[node].content[j], true)
         && WithinDepth(trees[j], d)
  }

  lemma {:induction false} NextElder(g: Graph, n: Node, trees: seq<Tree>, depth: int, used: int, maximum: int)
    requires Closed(g) && n in g && |trees| < |g[n].content|
    requires ElderTrees(g, n, trees, MAX_WORKFLOW_DEPTH - depth - 1)
    requires Expandable(g, g[n].content[|trees|], depth + 1, used, maximum)
    ensures ElderTrees(g, n, trees + [TreeOf(g, g[n].content[|trees|], true)], MAX_WORKFLOW_DEPTH - depth - 1)
  {
  }

  /** One more child is in place. */
  lemma {:induction false} ChildAdded(g: Graph, n: Node, kids: seq<Shape>, trees: seq<Tree>, content: seq<Node>,
                                      built: Graph, s: Shape, depth: int, used: int, maximum: int)
    requires Closed(g) && n in g && |trees| < |g[n].content|
    requires ElderTrees(g, n, trees, MAX_WORKFLOW_DEPTH - depth - 1) && Row(kids, trees, content, built)
    requires Expandable(g, g[n].content[|trees|], depth + 1, used, maximum)
    requires Separate(s) && Spells(s, TreeOf(g, g[n].content[|trees|], true)) && Cells(s).Keys !! built.Keys
    ensures var t := TreeOf(g, g[n].content[|trees|], true);
      && ElderTrees(g, n, trees + [t], MAX_WORKFLOW_DEPTH - depth - 1)
      && Row(kids + [s], trees + [t], content + [s.node], built + Cells(s))
      && SizeAll(trees + [t]) == SizeAll(trees) + Size(t)
      && used + Size(t) <= maximum
  {
    var t := TreeOf(g, g[n].content[|trees|], true);
    NextElder(g, n, trees, depth, used, maximum);
    ExtendRow(kids, trees, content, built, s, t);
    SizeAllAppend(trees, t);
  }

  /** Once every child is in place, the parent is expandable and the copies are its children. */
  lemma {:induction false} AllChildren(g: Graph, n: Node, trees: seq<Tree>, depth: int, used: int, maximum: int)
    requires Closed(g) && n in g && !g[n].kind.Alias? && |trees| == |g[n].content|
    requires depth <= MAX_WORKFLOW_DEPTH && ElderTrees(g, n, trees, MAX_WORKFLOW_DEPTH - depth - 1)
    requires used + 1 + SizeAll(trees) <= maximum
    ensures Expandable(g, n, depth, used, maximum)
    ensures TreeOf(g, n, true) == Tree(g[n].kind, g[n].style, g[n].tag, g[n].value, g[n].site, trees)
  {
    FiniteContent(g, n, true);
    assert trees == TreeOf(g, n, true).children;
  }

  /** `s` heads a tree of distinct nodes that spells out the unfolding of `node`, and the heap holds it. */
  ghost predicate Expanded(g: Graph, node: Node?, s: Shape)
    requires Closed(g) && (node != null ==> node in g)
    reads Cells(s).Keys
  {
    Separate(s) && Finite(g, node, true) && Spells(s, TreeOf(g, node, true)) && Snapshot(Cells(s))
  }

  /** Moving the head of the target's copy to the alias's site makes it a copy of the alias. */
  lemma {:induction false} RelocatedShape(g: Graph, n: Node, s: Shape)
    requires Closed(g) && n in g && g[n].kind.Alias? && Finite(g, g[n].alias, true)
    requires Separate(s) && Spells(s, TreeOf(g, g[n].alias, true))
    ensures s.node in Cells(s) && Cells(s)[s.node] == s.cell && s.node !in CellsAll(s.kids)
    ensures var r := s.(cell := s.cell.(site := g[n].site));
            Finite(g, n, true) && Separate(r) && Spells(r, TreeOf(g, n, true))
            && Cells(r) == CellsAll(s.kids)[s.node := r.cell]
  {
    FiniteAlias(g, n);
  }

  lemma {:induction false} SnapshotPart(whole: Graph, part: Graph)
    requires Snapshot(whole) && forall n <- part :: n in whole && whole[n] == part[n]
    ensures Snapshot(part)
  {
  }

  lemma {:induction false} SnapshotUnion(a: Graph, b: Graph)
    requires Snapshot(a) && Snapshot(b)
    ensures Snapshot(a + b)
  {
  }

  /** Overwrites the site of a copied node with that of the alias it stands for. */
  method Relocate(expanded: Node, node: Node, ghost below: Graph)
    requires Snapshot(below) && expanded !in below && node != expanded
    modifies expanded
    ensures CellOf(expanded) == old(CellOf(expanded)).(site := SiteOf(node))
    ensures Snapshot(below[expanded := CellOf(expanded)])
  {
    expanded.line := node.line;
    expanded.column := node.column;
    expanded.headComment := node.headComment;
    expanded.lineComment := node.lineComment;
    expanded.footComment := node.footComment;
    assert Snapshot(below);
  }

  /** Makes the target's copy that of the alias. */
  method Adopt(expanded: Node, node: Node, ghost s: Shape, ghost g: Graph) returns (ghost moved: Shape)
    requires Closed(g) && node in g && g[node].kind.Alias? && CellOf(node) == g[node] && node != expanded
    requires Expanded(g, g[node].alias, s) && s.node == expanded
    modifies expanded
    ensures moved.node == expanded && Cells(moved).Keys == Cells(s).Keys && Expanded(g, node, moved)
  {
    ghost var below := CellsAll(s.kids);
    RelocatedShape(g, node, s);
    SnapshotPart(Cells(s), below);
    Relocate(expanded, node, below);
    moved := s.(cell := CellOf(expanded));
  }

  /** A copy of a node over its children's copies. */
  method Assemble(node: Node, content: seq<Node>, ghost kids: seq<Shape>, ghost built: Graph, ghost g: Graph)
    returns (copy: Node, ghost s: Shape)
    requires Closed(g) && node in g && CellOf(node) == g[node] && Finite(g, node, true)
    requires var t := TreeOf(g, node, true);
      && t == Tree(node.kind, node.style, node.tag, node.value, SiteOf(node), t.children)
      && Row(kids, t.children, content, built) && Snapshot(built)
    ensures fresh(copy) && s.node == copy && Expanded(g, node, s) && forall n <- Cells(s) :: n in built || fresh(n)
  {
    copy := CopyWith(node, content);
    s := Shape(copy, CellOf(copy), kids);
    RootShape(s, TreeOf(g, node, true));
  }

  lemma {:induction false} TakenOut(active: set<Node>, n: Node)
    requires n !in active
    ensures active + {n} - {n} == active
  {
  }

  class Expansion {
    const maximum: int
    var nodes: nat
    var active: set<Node>

    constructor (maximum: int)
      ensures this.maximum == maximum && nodes == 0 && active == {}
    {
      this.maximum, nodes, active := maximum, 0, {};
    }

    /** Copies the unfolding of `node`. A null result is the source's error return. */
    method Expand(node: Node?, depth: int, ghost g: Graph) returns (result: Node?, ghost shape: Option<Shape>)
      requires Closed(g) && Snapshot(g) && (node != null ==> node in g)
      requires Path(g, active, node)
      modifies this`nodes, this`active
      ensures active == old(active)
      ensures result != null <==> Expandable(g, node, depth, old(nodes), maximum)
      ensures result != null ==> shape.Some? && shape.value.node == result && Expanded(g, node, shape.value)
      ensures result != null ==> fresh(result) && forall n <- Cells(shape.value) :: fresh(n)
      ensures result != null ==> nodes == old(nodes) + Size(TreeOf(g, node, true))
      decreases g.Keys - active, 3
    {
      if node == null {
        return null, None;
      }
      assert CellOf(node) == g[node];
      if depth > MAX_WORKFLOW_DEPTH {
        return null, None;
      }
      if node in active {
        CycleIsInfinite(g, node);
        return null, None;
      }
      if node.kind.Alias? {
        result, shape := ExpandAlias(node, depth, g);
      } else {
        result, shape := ExpandContent(node, depth, g);
      }
    }

    /** The alias branch: the copy of the target takes the site of the alias. */
    method ExpandAlias(node: Node, depth: int, ghost g: Graph) returns (result: Node?, ghost shape: Option<Shape>)
      requires Closed(g) && Snapshot(g) && node in g && g[node].kind.Alias?
      requires Path(g, active, node) && node !in active
      modifies this`nodes, this`active
      ensures active == old(active)
      ensures result != null <==> Expandable(g, node, depth, old(nodes), maximum)
      ensures result != null ==> shape.Some? && shape.value.node == result && Expanded(g, node, shape.value)
      ensures result != null ==> fresh(result) && forall n <- Cells(shape.value) :: fresh(n)
      ensures result != null ==> nodes == old(nodes) + Size(TreeOf(g, node, true))
      decreases g.Keys - active, 2
    {
      assert CellOf(node) == g[node];
      PathExtend(g, active, node, node.alias);
      AliasExpandable(g, node, depth, nodes, maximum);
      active := active + {node};
      result, shape := Expand(node.alias, depth, g);
      assert CellOf(node) == g[node];
      active := active - {node};
      TakenOut(old(active), node);
      if result == null {
        return;
      }
      ghost var moved := Adopt(result, node, shape.value, g);
      shape := Some(moved);
    }

    /** The copying branch: a fresh node over freshly expanded content. */
    method ExpandContent(node: Node, depth: int, ghost g: Graph) returns (result: Node?, ghost shape: Option<Shape>)
      requires Closed(g) && Snapshot(g) && node in g && !g[node].kind.Alias? && depth <= MAX_WORKFLOW_DEPTH
      requires Path(g, active, node) && node !in active
      modifies this`nodes, this`active
      ensures active == old(active)
      ensures result != null <==> Expandable(g, node, depth, old(nodes), maximum)
      ensures result != null ==> shape.Some? && shape.value.node == result && Expanded(g, node, shape.value)
      ensures result != null ==> fresh(result) && forall n <- Cells(shape.value) :: fresh(n)
      ensures result != null ==> nodes == old(nodes) + Size(TreeOf(g, node, true))
      decreases g.Keys - active, 2
    {
      assert CellOf(node) == g[node];
      nodes := nodes + 1;
      if maximum <= 0 {
        return null, None;
      }
      if nodes > maximum {
        return null, None;
      }
      var ok, content, kids, trees, built := ExpandBelow(node, depth, nodes - 1, g);
      if !ok {
        return null, None;
      }
      ghost var s;
      result, s := Assemble(node, content, kids, built, g);
      shape := Some(s);
    }

    /** The node is on the path while its content is expanded. */
    method ExpandBelow(node: Node, depth: int, ghost used: nat, ghost g: Graph)
      returns (ok: bool, content: seq<Node>, ghost kids: seq<Shape>, ghost trees: seq<Tree>, ghost built: Graph)
      requires Closed(g) && Snapshot(g) && node in g && !g[node].kind.Alias? && depth <= MAX_WORKFLOW_DEPTH
      requires Path(g, active, node) && node !in active && nodes == used + 1 && nodes <= maximum
      modifies this`nodes, this`active
      ensures active == old(active)
      ensures ok <==> Expandable(g, node, depth, used, maximum)
      ensures ok ==>
        TreeOf(g, node, true) == Tree(g[node].kind, g[node].style, g[node].tag, g[node].value, g[node].site, trees)
      ensures ok ==> Row(kids, trees, content, built) && Snapshot(built) && forall n <- built :: fresh(n)
      ensures ok ==> nodes == used + 1 + SizeAll(trees)
      decreases g.Keys - active, 1
    {
      active := active + {node};
      ok, content, kids, trees, built := ExpandChildren(node, depth, old(active), used, g);
      active := active - {node};
      TakenOut(old(active), node);
    }

    /** The loop over the content of a node that has just been counted and put on the path. */
    method ExpandChildren(node: Node, depth: int, ghost above: set<Node>, ghost used: nat, ghost g: Graph)
      returns (ok: bool, content: seq<Node>, ghost kids: seq<Shape>, ghost trees: seq<Tree>,
               ghost built: Graph)
      requires Closed(g) && Snapshot(g) && node in g && !g[node].kind.Alias? && depth <= MAX_WORKFLOW_DEPTH
      requires active == above + {node} && node !in above && Path(g, above, node)
      requires nodes == used + 1 && nodes <= maximum
      modifies this`nodes, this`active
      ensures active == old(active)
      ensures ok <==> Expandable(g, node, depth, used, maximum)
      ensures ok ==>
        TreeOf(g, node, true) == Tree(g[node].kind, g[node].style, g[node].tag, g[node].value, g[node].site, trees)
      ensures ok ==> Row(kids, trees, content, built) && Snapshot(built) && forall n <- built :: fresh(n)
      ensures ok ==> nodes == used + 1 + SizeAll(trees)
      decreases g.Keys - above, 0
    {
      assert CellOf(node) == g[node];
      content, kids, trees, built := [], [], [], map[];
      PathChildren(g, above, active, node);
      for i := 0 to |node.content|
        invariant active == old(active)
        invariant Snapshot(built) && forall n <- built :: fresh(n)
        invariant |trees| == i && Row(kids, trees, content, built)
        invariant ElderTrees(g, node, trees, MAX_WORKFLOW_DEPTH - depth - 1)
        invariant nodes == used + 1 + SizeAll(trees) && nodes <= maximum
      {
        assert CellOf(node) == g[node];
        var child, s, t, grown := ExpandChild(node, i, depth, used, g, kids, trees, content, built);
        if child == null {
          return false, [], [], [], map[];
        }
        content := content + [child];
        kids, trees, built := kids + [s], trees + [t], grown;
      }
      AllChildren(g, node, trees, depth, used, maximum);
      ok := true;
    }

    /** One child, which joins the copies of its elder siblings. */
    method ExpandChild(node: Node, i: nat, depth: int, ghost used: nat, ghost g: Graph, ghost kids: seq<Shape>,
                       ghost trees: seq<Tree>, ghost content: seq<Node>, ghost built: Graph)
      returns (child: Node?, ghost s: Shape, ghost t: Tree, ghost grown: Graph)
      requires Closed(g) && Snapshot(g) && node in g && !g[node].kind.Alias? && CellOf(node) == g[node]
      requires i == |trees| < |g[node].content| && Path(g, active, g[node].content[i])
      requires Row(kids, trees, content, built) && Snapshot(built)
      requires ElderTrees(g, node, trees, MAX_WORKFLOW_DEPTH - depth - 1)
      requires nodes == used + 1 + SizeAll(trees) && nodes <= maximum
      modifies this`nodes, this`active
      ensures active == old(active)
      ensures child == null ==> !Expandable(g, node, depth, used, maximum)
      ensures child != null ==> ElderTrees(g, node, trees + [t], MAX_WORKFLOW_DEPTH - depth - 1)
      ensures child != null ==> Row(kids + [s], trees + [t], content + [child], grown)
      ensures child != null ==> Snapshot(grown) && forall n <- grown :: n in built || fresh(n)
      ensures child != null ==> nodes == used + 1 + SizeAll(trees + [t]) && nodes <= maximum
      decreases g.Keys - active, 4
    {
      ghost var before := nodes;
      ghost var target := g[node].content[i];
      ghost var shape;
      child, shape := Expand(node.content[i], depth + 1, g);
      if child == null {
        ChildBlocks(g, node, i, trees, depth, used, maximum);
        s, t, grown := Shape(node, g[node], []), Tree(Alias, 0, "", "", SiteOf(node), []), map[];
        return;
      }
      s, t := shape.value, TreeOf(g, target, true);
      ChildAdded(g, node, kids, trees, content, built, s, depth, before, maximum);
      SnapshotUnion(built, Cells(s));
      grown := built + Cells(s);
    }
  }

  /** A copy of the node's fields over new content, without its anchor and alias. */
  method CopyWith(node: Node, content: seq<Node>) returns (copy: Node)
    ensures fresh(copy)
    ensures CellOf(copy) == CellOf(node).(anchor := "", alias := null, content := content)
  {
    copy := new Node.Copy(node);
    copy.anchor := "";
    copy.alias := null;
    copy.content := content;
  }

  /** Expansion from a fresh owner: it succeeds exactly when the unfolding is finite, at most
      `MAX_WORKFLOW_DEPTH` deep and at most `maximum` nodes large, and the result is that unfolding in
      new, unshared nodes. The input graph is left alone. */
  method ExpandWorkflowAliases(root: Node?, maximum: int, ghost g: Graph)
    returns (result: Node?, ghost shape: Option<Shape>)
    requires Closed(g) && Snapshot(g) && (root != null ==> root in g)
    ensures Snapshot(g)
    ensures result != null <==>
            && Finite(g, root, true)
            && WithinDepth(TreeOf(g, root, true), MAX_WORKFLOW_DEPTH)
            && Size(TreeOf(g, root, true)) <= maximum
    ensures result != null ==> shape.Some? && shape.value.node == result && Expanded(g, root, shape.value)
    ensures result != null ==> fresh(Cells(shape.value).Keys)
    ensures result != null ==> |Cells(shape.value)| == Size(TreeOf(g, root, true)) <= maximum
    ensures result != null ==> AliasFree(Cells(shape.value))
  {
    var owner := new Expansion(maximum);
    result, shape := owner.Expand(root, 0, g);
    if result != null {
      NodeCount(shape.value, TreeOf(g, root, true));
      ExpandedAliasFree(g, root, shape.value);
    }
  }

  ghost predicate AliasFree(g: Graph) {
    forall n <- g :: !g[n].kind.Alias? && g[n].alias == null && g[n].anchor == ""
  }

  lemma {:induction false} ExpandedAliasFree(g: Graph, root: Node, s: Shape)
    requires Closed(g) && root in g && Finite(g, root, true) && Spells(s, TreeOf(g, root, true))
    ensures AliasFree(Cells(s))
  {
    var k: nat :| Unfold(g, root, k, true).Some?;
    TreeOfUnfold(g, root, k, true);
    UnfoldHasNoAlias(g, root, k);
    forall n | n in Cells(s) ensures !Cells(s)[n].kind.Alias? && Cells(s)[n].alias == null && Cells(s)[n].anchor == "" {
      NoAliasCells(s, TreeOf(g, root, true), n);
    }
  }

  // ----- copies of one anchor -----

  lemma {:induction false} RowElement(ss: seq<Shape>, ts: seq<Tree>, i: nat)
    requires SeparateAll(ss) && SpellsAll(ss, ts) && i < |ss|
    ensures Separate(ss[i]) && Spells(ss[i], ts[i]) && Cells(ss[i]).Keys <= CellsAll(ss).Keys
    decreases |ss|
  {
    if i < |ss| - 1 { RowElement(ss[..|ss| - 1], ts[..|ts| - 1], i); }
  }

  lemma {:induction false} SiblingsDisjoint(ss: seq<Shape>, ts: seq<Tree>, i: nat, j: nat)
    requires SeparateAll(ss) && SpellsAll(ss, ts) && i < j < |ss|
    ensures Cells(ss[i]).Keys !! Cells(ss[j]).Keys
    decreases |ss|
  {
    if j < |ss| - 1 {
      SiblingsDisjoint(ss[..|ss| - 1], ts[..|ts| - 1], i, j);
    } else {
      RowElement(ss[..|ss| - 1], ts[..|ts| - 1], i);
    }
  }

  /** The part of a document at the end of a path of child indices. */
  ghost function Part(s: Shape, path: seq<nat>): Option<Shape> {
    if path == [] then Some(s)
    else if path[0] < |s.kids| then Part(s.kids[path[0]], path[1..])
    else None
  }

  /** The node `m` of the graph is met at the end of the path from `n`: an alias is followed when the path goes on. */
  ghost predicate MetWithin(g: Graph, n: Node, path: seq<nat>, m: Node, k: nat)
    requires Closed(g) && n in g
    decreases k
  {
    if path == [] then n == m
    else if k == 0 then false
    else if g[n].kind.Alias? then g[n].alias != null && MetWithin(g, g[n].alias, path, m, k - 1)
    else path[0] < |g[n].content| && MetWithin(g, g[n].content[path[0]], path[1..], m, k - 1)
  }

  ghost predicate Met(g: Graph, n: Node, path: seq<nat>, m: Node)
    requires Closed(g) && n in g
  {
    exists k: nat :: MetWithin(g, n, path, m, k)
  }

  /** What is met at the end of a path is what the unfolding has there. */
  lemma {:induction false} MetUnfolds(g: Graph, n: Node, path: seq<nat>, m: Node, k: nat)
    requires Closed(g) && n in g && MetWithin(g, n, path, m, k) && Finite(g, n, true)
    ensures m in g && Finite(g, m, true) && At(TreeOf(g, n, true), path) == Some(TreeOf(g, m, true))
    decreases k
  {
    if path != [] {
      if g[n].kind.Alias? {
        FiniteAlias(g, n);
        MetUnfolds(g, g[n].alias, path, m, k - 1);
        MovedAt(TreeOf(g, g[n].alias, true), g[n].site, path);
      } else {
        FiniteContent(g, n, true);
        MetUnfolds(g, g[n].content[path[0]], path[1..], m, k - 1);
      }
    }
  }

  lemma {:induction false} MovedAt(t: Tree, site: Site, path: seq<nat>)
    requires path != []
    ensures At(t.(site := site), path) == At(t, path)
  {
  }

  lemma {:induction false} AtConcat(t: Tree, p: seq<nat>, q: seq<nat>)
    requires At(t, p).Some?
    ensures At(t, p + q) == At(At(t, p).value, q)
    decreases |p|
  {
    if p == [] {
      assert p + q == q;
    } else {
      AtConcat(t.children[p[0]], p[1..], q);
      assert (p + q)[1..] == p[1..] + q;
    }
  }

  /** A part below the root is smaller than the whole. */
  lemma {:induction false} AtIsSmaller(t: Tree, path: seq<nat>)
    requires At(t, path).Some?
    ensures Size(At(t, path).value) <= Size(t) - |path|
    decreases |path|
  {
    if path != [] {
      ChildIsSmaller(t.children, path[0]);
      AtIsSmaller(t.children[path[0]], path[1..]);
    }
  }

  lemma {:induction false} ChildIsSmaller(ts: seq<Tree>, i: nat)
    requires i < |ts|
    ensures Size(ts[i]) <= SizeAll(ts)
  {
    SizeAllPrefix(ts, i + 1);
    assert ts[..i + 1] == ts[..i] + [ts[i]];
    SizeAllAppend(ts[..i], ts[i]);
  }

  /** A part spells what the tree has in its place, in nodes of its own. */
  lemma {:induction false} PartSpells(s: Shape, t: Tree, path: seq<nat>)
    requires Separate(s) && Spells(s, t) && At(t, path).Some?
    ensures Part(s, path).Some? && Separate(Part(s, path).value) && Spells(Part(s, path).value, At(t, path).value)
    ensures Cells(Part(s, path).value).Keys <= Cells(s).Keys
    decreases |path|
  {
    if path != [] {
      SameLengths(s.kids, t.children);
      RowElement(s.kids, t.children, path[0]);
      PartSpells(s.kids[path[0]], t.children[path[0]], path[1..]);
    }
  }

  lemma {:induction false} SameLengths(ss: seq<Shape>, ts: seq<Tree>)
    requires SpellsAll(ss, ts)
    ensures |ss| == |ts|
  {
  }

  /** Parts at two places, neither of which is below the other, share no storage. */
  lemma {:induction false} PartsAreApart(s: Shape, t: Tree, p: seq<nat>, q: seq<nat>)
    requires Separate(s) && Spells(s, t) && At(t, p).Some? && At(t, q).Some? && !(p <= q) && !(q <= p)
    ensures Part(s, p).Some? && Part(s, q).Some?
    ensures Cells(Part(s, p).value).Keys !! Cells(Part(s, q).value).Keys
    decreases |p|
  {
    SameLengths(s.kids, t.children);
    PartSpells(s, t, p);
    PartSpells(s, t, q);
    RowElement(s.kids, t.children, p[0]);
    RowElement(s.kids, t.children, q[0]);
    if p[0] == q[0] {
      assert p == [p[0]] + p[1..] && q == [q[0]] + q[1..];
      PartsAreApart(s.kids[p[0]], t.children[p[0]], p[1..], q[1..]);
    } else {
      PartSpells(s.kids[p[0]], t.children[p[0]], p[1..]);
      PartSpells(s.kids[q[0]], t.children[q[0]], q[1..]);
      if p[0] < q[0] {
        SiblingsDisjoint(s.kids, t.children, p[0], q[0]);
      } else {
        SiblingsDisjoint(s.kids, t.children, q[0], p[0]);
      }
    }
  }

  /** No alias of an anchor stands below another one of the same anchor: the anchor would hold itself. */
  lemma {:induction false} AliasesAreNotNested(t: Tree, p: seq<nat>, q: seq<nat>)
    requires p <= q && At(t, p).Some? && At(t, q).Some? && Size(At(t, p).value) == Size(At(t, q).value)
    ensures p == q
  {
    assert q == p + q[|p|..];
    AtConcat(t, p, q[|p|..]);
    AtIsSmaller(At(t, p).value, q[|p|..]);
  }

  /** Wherever in the document they are met, two aliases of one anchor receive copies that spell the same target, share
      no node, and keep the site of their own alias. */
  lemma {:induction false} AliasesGetOwnCopies(g: Graph, root: Node, s: Shape, p: seq<nat>, a: Node, q: seq<nat>,
                                               b: Node)
    requires Closed(g) && root in g && Finite(g, root, true)
    requires Separate(s) && Spells(s, TreeOf(g, root, true))
    requires p != q && Met(g, root, p, a) && Met(g, root, q, b)
    requires a in g && b in g && g[a].kind.Alias? && g[b].kind.Alias? && g[a].alias == g[b].alias
    ensures Part(s, p).Some? && Part(s, q).Some?
    ensures Cells(Part(s, p).value).Keys !! Cells(Part(s, q).value).Keys
    ensures Part(s, p).value.cell.site == g[a].site && Part(s, q).value.cell.site == g[b].site
    ensures Finite(g, g[a].alias, true)
    ensures var target := TreeOf(g, g[a].alias, true);
      && Spells(Part(s, p).value, target.(site := g[a].site))
      && Spells(Part(s, q).value, target.(site := g[b].site))
  {
    var t := TreeOf(g, root, true);
    var k: nat :| MetWithin(g, root, p, a, k);
    MetUnfolds(g, root, p, a, k);
    var l: nat :| MetWithin(g, root, q, b, l);
    MetUnfolds(g, root, q, b, l);
    FiniteAlias(g, a);
    FiniteAlias(g, b);
    PartSpells(s, t, p);
    PartSpells(s, t, q);
    if p <= q {
      AliasesAreNotNested(t, p, q);
    } else if q <= p {
      AliasesAreNotNested(t, q, p);
    }
    PartsAreApart(s, t, p, q);
  }
}

/** The decoded YAML node graph, which anchors and aliases may make cyclic, and what it unfolds to.

The heap of `Node` objects is described by an immutable `Graph` so that every statement about
unfolding is about values. `Unfold` is a least fixpoint: `Unfold(g, n, k, follow)` is the tree that
`n` spells out when at most `k` content or alias hops are made on a path. With `follow` set, an alias
node stands for a copy of its target (section 7.1 of YAML 1.2.2) that keeps the position and comments
of the alias; without it, an alias node is a leaf. */
module YamlGraph {
  import opened Options

  datatype Kind = Document | Sequence | Mapping | Scalar | Alias | Undefined

  /** The fields that say where a node was written. */
  datatype Site = Site(line: int, column: int, headComment: string, lineComment: string, footComment: string)

  class Node {
    var kind: Kind
    var style: int
    var tag: string
    var value: string
    var anchor: string
    var alias: Node?
    var content: seq<Node>
    var headComment: string
    var lineComment: string
    var footComment: string
    var line: int
    var column: int

    /** A copy of every field. */
    constructor Copy(source: Node)
      ensures CellOf(this) == CellOf(source)
    {
      kind, style, tag, value, anchor, alias, content :=
        source.kind, source.style, source.tag, source.value, source.anchor, source.alias, source.content;
      headComment, lineComment, footComment, line, column :=
        source.headComment, source.lineComment, source.footComment, source.line, source.column;
    }
  }

  datatype Cell = Cell(kind: Kind, style: int, tag: string, value: string, anchor: string, site: Site,
                       alias: Node?, content: seq<Node>)

  function SiteOf(n: Node): Site
    reads n
  {
    Site(n.line, n.column, n.headComment, n.lineComment, n.footComment)
  }

  function CellOf(n: Node): Cell
    reads n
  {
    Cell(n.kind, n.style, n.tag, n.value, n.anchor, SiteOf(n), n.alias, n.content)
  }

  type Graph = map<Node, Cell>

  /** `g` is what the heap holds. */
  ghost predicate Snapshot(g: Graph)
    reads g.Keys
  {
    forall n <- g :: CellOf(n) == g[n]
  }

  /** No pointer leaves the graph. */
  ghost predicate Closed(g: Graph) {
    forall n <- g ::
      (g[n].alias != null ==> g[n].alias in g) && (forall c <- g[n].content :: c in g)
  }

  /** An alias-free, anchor-free YAML document. */
  datatype Tree = Tree(kind: Kind, style: int, tag: string, value: string, site: Site, children: seq<Tree>)

  ghost function Size(t: Tree): (r: nat)
    ensures r >= 1
  {
    1 + SizeAll(t.children)
  }

  ghost function SizeAll(ts: seq<Tree>): nat {
    if ts == [] then 0 else SizeAll(ts[..|ts| - 1]) + Size(ts[|ts| - 1])
  }

  ghost predicate WithinDepth(t: Tree, d: int)
    decreases d
  {
    d >= 0 && forall i | 0 <= i < |t.children| :: WithinDepth(t.children[i], d - 1)
  }

  lemma {:induction false} SizeAllAppend(ts: seq<Tree>, t: Tree)
    ensures SizeAll(ts + [t]) == SizeAll(ts) + Size(t)
  {
    assert (ts + [t])[..|ts|] == ts;
  }

  lemma {:induction false} SizeAllPrefix(ts: seq<Tree>, i: nat)
    requires i <= |ts|
    ensures SizeAll(ts[..i]) <= SizeAll(ts)
    decreases |ts|
  {
    if i == |ts| {
      assert ts[..i] == ts;
    } else {
      SizeAllPrefix(ts[..|ts| - 1], i);
      assert ts[..|ts| - 1][..i] == ts[..i];
    }
  }

  /** The tree at the end of a path of child indices. */
  ghost function At(t: Tree, path: seq<nat>): Option<Tree> {
    if path == [] then Some(t)
    else if path[0] < |t.children| then At(t.children[path[0]], path[1..])
    else None
  }

  ghost function Unfold(g: Graph, n: Node?, k: nat, follow: bool): Option<Tree>
    requires Closed(g) && (n != null ==> n in g)
    decreases k
  {
    if n == null || k == 0 then None
    else if follow && g[n].kind.Alias? then
      match Unfold(g, g[n].alias, k - 1, follow)
      case None => None
      case Some(t) => Some(t.(site := g[n].site))
    else if forall i | 0 <= i < |g[n].content| :: Unfold(g, g[n].content[i], k - 1, follow).Some? then
      Some(Tree(g[n].kind, g[n].style, g[n].tag, g[n].value, g[n].site,
                seq(|g[n].content|, i requires 0 <= i < |g[n].content| =>
                                      Unfold(g, g[n].content[i], k - 1, follow).value)))
    else None
  }

  /** More fuel never changes an unfolding that is already complete. */
  lemma {:induction false} UnfoldStable(g: Graph, n: Node?, k: nat, m: nat, follow: bool)
    requires Closed(g) && (n != null ==> n in g)
    requires k <= m && Unfold(g, n, k, follow).Some?
    ensures Unfold(g, n, m, follow) == Unfold(g, n, k, follow)
    decreases k, 2
  {
    if follow && g[n].kind.Alias? {
      UnfoldStable(g, g[n].alias, k - 1, m - 1, follow);
    } else {
      ContentStable(g, n, k, m, follow);
    }
  }

  lemma {:induction false} ContentStable(g: Graph, n: Node, k: nat, m: nat, follow: bool)
    requires Closed(g) && n in g && !(follow && g[n].kind.Alias?)
    requires 0 < k <= m && Unfold(g, n, k, follow).Some?
    ensures Unfold(g, n, m, follow) == Unfold(g, n, k, follow)
    decreases k, 1
  {
    forall i: nat | i < |g[n].content| ensures ChildStays(g, n, k, m, follow, i) {
      ChildStable(g, n, k, m, follow, i);
    }
    SameContent(g, n, k, m, follow);
  }

  lemma {:induction false} ChildStable(g: Graph, n: Node, k: nat, m: nat, follow: bool, i: nat)
    requires Closed(g) && n in g && !(follow && g[n].kind.Alias?) && i < |g[n].content|
    requires 0 < k <= m && Unfold(g, n, k, follow).Some?
    ensures ChildStays(g, n, k, m, follow, i)
    decreases k, 0
  {
    ContentSome(g, n, k, follow, i);
    UnfoldStable(g, g[n].content[i], k - 1, m - 1, follow);
  }

  ghost predicate ChildStays(g: Graph, n: Node, k: nat, m: nat, follow: bool, i: nat)
    requires Closed(g) && n in g && k > 0 && m > 0 && i < |g[n].content|
  {
    Unfold(g, g[n].content[i], m - 1, follow) == Unfold(g, g[n].content[i], k - 1, follow)
  }

  lemma {:induction false} ContentSome(g: Graph, n: Node, k: nat, follow: bool, i: nat)
    requires Closed(g) && n in g && !(follow && g[n].kind.Alias?) && k > 0 && i < |g[n].content|
    requires Unfold(g, n, k, follow).Some?
    ensures Unfold(g, g[n].content[i], k - 1, follow).Some?
  {
  }

  lemma {:induction false} SameContent(g: Graph, n: Node, k: nat, m: nat, follow: bool)
    requires Closed(g) && n in g && !(follow && g[n].kind.Alias?) && k > 0 && m > 0 && Unfold(g, n, k, follow).Some?
    requires forall i: nat | i < |g[n].content| :: ChildStays(g, n, k, m, follow, i)
    ensures Unfold(g, n, m, follow) == Unfold(g, n, k, follow)
  {
    forall i | 0 <= i < |g[n].content|
      ensures Unfold(g, g[n].content[i], m - 1, follow) == Unfold(g, g[n].content[i], k - 1, follow)
    {
      assert ChildStays(g, n, k, m, follow, i);
    }
    assert Unfold(g, n, m, follow).value.children == Unfold(g, n, k, follow).value.children;
  }

  ghost predicate ContainsAlias(t: Tree) {
    t.kind.Alias? || exists i | 0 <= i < |t.children| :: ContainsAlias(t.children[i])
  }

  /** Following aliases leaves none. */
  lemma {:induction false} UnfoldHasNoAlias(g: Graph, n: Node?, k: nat)
    requires Closed(g) && (n != null ==> n in g) && Unfold(g, n, k, true).Some?
    ensures !ContainsAlias(Unfold(g, n, k, true).value)
    decreases k
  {
    if g[n].kind.Alias? {
      UnfoldHasNoAlias(g, g[n].alias, k - 1);
      MovedWithoutAlias(Unfold(g, g[n].alias, k - 1, true).value, g[n].site);
    } else {
      var ts := Unfold(g, n, k, true).value.children;
      forall i | 0 <= i < |ts| ensures !ContainsAlias(ts[i]) {
        UnfoldHasNoAlias(g, g[n].content[i], k - 1);
      }
      ChildrenWithoutAlias(Unfold(g, n, k, true).value);
    }
  }

  lemma {:induction false} MovedWithoutAlias(t: Tree, site: Site)
    requires !ContainsAlias(t)
    ensures !ContainsAlias(t.(site := site))
  {
  }

  lemma {:induction false} ChildrenWithoutAlias(t: Tree)
    requires !t.kind.Alias? && forall i | 0 <= i < |t.children| :: !ContainsAlias(t.children[i])
    ensures !ContainsAlias(t)
  {
  }

  ghost predicate Finite(g: Graph, n: Node?, follow: bool)
    requires Closed(g) && (n != null ==> n in g)
  {
    exists k: nat :: Unfold(g, n, k, follow).Some?
  }

  /** The tree that a node with a finite unfolding stands for. */
  ghost function TreeOf(g: Graph, n: Node?, follow: bool): Tree
    requires Closed(g) && (n != null ==> n in g)
    requires Finite(g, n, follow)
  {
    var k: nat :| Unfold(g, n, k, follow).Some?;
    Unfold(g, n, k, follow).value
  }

  lemma {:induction false} TreeOfUnfold(g: Graph, n: Node?, k: nat, follow: bool)
    requires Closed(g) && (n != null ==> n in g)
    requires Unfold(g, n, k, follow).Some?
    ensures Finite(g, n, follow) && TreeOf(g, n, follow) == Unfold(g, n, k, follow).value
  {
    var m: nat :| Unfold(g, n, m, follow).Some? && TreeOf(g, n, follow) == Unfold(g, n, m, follow).value;
    if k <= m { UnfoldStable(g, n, k, m, follow); } else { UnfoldStable(g, n, m, k, follow); }
  }

  /** The unfolding of an alias is its target's, moved to the alias's own site. */
  lemma {:induction false} FiniteAlias(g: Graph, n: Node)
    requires Closed(g) && n in g && g[n].kind.Alias?
    ensures Finite(g, n, true) <==> Finite(g, g[n].alias, true)
    ensures Finite(g, n, true) ==> TreeOf(g, n, true) == TreeOf(g, g[n].alias, true).(site := g[n].site)
  {
    if k: nat :| Unfold(g, n, k, true).Some? {
      TreeOfUnfold(g, n, k, true);
      TreeOfUnfold(g, g[n].alias, k - 1, true);
    }
    if k: nat :| Unfold(g, g[n].alias, k, true).Some? {
      assert Unfold(g, n, k + 1, true).Some?;
    }
  }

  /** The unfolding of any other node is its own label over the unfoldings of its content. */
  lemma {:induction false} FiniteContent(g: Graph, n: Node, follow: bool)
    requires Closed(g) && n in g && !(follow && g[n].kind.Alias?)
    ensures Finite(g, n, follow) <==> forall i | 0 <= i < |g[n].content| :: Finite(g, g[n].content[i], follow)
    ensures Finite(g, n, follow) ==>
              var t := TreeOf(g, n, follow);
              t == Tree(g[n].kind, g[n].style, g[n].tag, g[n].value, g[n].site, t.children)
              && |t.children| == |g[n].content|
              && forall i | 0 <= i < |g[n].content| :: t.children[i] == TreeOf(g, g[n].content[i], follow)
  {
    if k: nat :| Unfold(g, n, k, follow).Some? {
      TreeOfUnfold(g, n, k, follow);
      ContentOfUnfold(g, n, k, follow);
    }
    if forall i | 0 <= i < |g[n].content| :: Finite(g, g[n].content[i], follow) {
      var k := CommonFuel(g, g[n].content, follow);
      assert Unfold(g, n, k + 1, follow).Some?;
    }
  }

  lemma {:induction false} ContentOfUnfold(g: Graph, n: Node, k: nat, follow: bool)
    requires Closed(g) && n in g && !(follow && g[n].kind.Alias?) && Unfold(g, n, k, follow).Some?
    ensures |Unfold(g, n, k, follow).value.children| == |g[n].content|
    ensures forall i | 0 <= i < |g[n].content| ::
              Finite(g, g[n].content[i], follow)
              && TreeOf(g, g[n].content[i], follow) == Unfold(g, n, k, follow).value.children[i]
  {
    forall i | 0 <= i < |g[n].content|
      ensures Finite(g, g[n].content[i], follow)
      ensures TreeOf(g, g[n].content[i], follow) == Unfold(g, n, k, follow).value.children[i]
    {
      TreeOfUnfold(g, g[n].content[i], k - 1, follow);
    }
  }

  lemma {:induction false} CommonFuel(g: Graph, c: seq<Node>, follow: bool) returns (k: nat)
    requires Closed(g) && forall i | 0 <= i < |c| :: c[i] in g && Finite(g, c[i], follow)
    ensures forall i | 0 <= i < |c| :: Unfold(g, c[i], k, follow).Some?
  {
    if c == [] {
      k := 0;
    } else {
      var rest := CommonFuel(g, c[1..], follow);
      var first: nat :| Unfold(g, c[0], first, follow).Some?;
      k := if first <= rest then rest else first;
      forall i | 0 <= i < |c|
        ensures Unfold(g, c[i], k, follow).Some?
      {
        if i == 0 {
          UnfoldStable(g, c[0], first, k, follow);
        } else {
          assert c[i] == c[1..][i - 1];
          UnfoldStable(g, c[i], rest, k, follow);
        }
      }
    }
  }
}

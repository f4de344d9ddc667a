/** Inspection of one decoded workflow: decoding, extraction and the final ordering. */
module WorkflowInspection {
  import opened YamlGraph
  import opened WorkflowTree
  import opened WorkflowExtraction
  import opened ExecutionSites

  // ----- the order of the result -----

  predicate LexLeq(a: string, b: string) {
    a == [] || (b != [] && (a[0] < b[0] || (a[0] == b[0] && LexLeq(a[1..], b[1..]))))
  }

  /** Either `a` begins `b`, or at the first difference `a` has the smaller character. */
  lemma {:induction false} LexLeqExact(a: string, b: string)
    ensures LexLeq(a, b) <==> a <= b || exists k: nat :: SmallerAt(a, b, k)
  {
    if a != [] && b != [] {
      LexLeqExact(a[1..], b[1..]);
      FirstDiffers(a, b);
      if a[0] == b[0] { LaterDiffers(a, b); }
    }
  }

  lemma {:induction false} FirstDiffers(a: string, b: string)
    requires a != [] && b != []
    ensures SmallerAt(a, b, 0) <==> a[0] < b[0]
    ensures a[0] != b[0] ==> !(a <= b) && forall k: nat | k > 0 :: !SmallerAt(a, b, k)
  {
    forall k: nat | k > 0 && k < |a| && k < |b| && a[..k] == b[..k] ensures a[0] == b[0] {
      assert a[..k][0] == b[..k][0];
    }
  }

  lemma {:induction false} LaterDiffers(a: string, b: string)
    requires a != [] && b != [] && a[0] == b[0]
    ensures a <= b <==> a[1..] <= b[1..]
    ensures (exists k: nat :: SmallerAt(a, b, k)) <==> exists k: nat :: SmallerAt(a[1..], b[1..], k)
  {
    assert a == [a[0]] + a[1..] && b == [b[0]] + b[1..];
    if k: nat :| SmallerAt(a[1..], b[1..], k) {
      assert a[..k + 1] == [a[0]] + a[1..][..k] && b[..k + 1] == [b[0]] + b[1..][..k];
      assert SmallerAt(a, b, k + 1);
    }
    if k: nat :| SmallerAt(a, b, k) {
      assert a[1..][..k - 1] == a[..k][1..] && b[1..][..k - 1] == b[..k][1..];
      assert SmallerAt(a[1..], b[1..], k - 1);
    }
  }

  ghost predicate SmallerAt(a: string, b: string, k: nat) {
    k < |a| && k < |b| && a[..k] == b[..k] && a[k] < b[k]
  }

  lemma {:induction false} LexTotal(a: string, b: string)
    ensures LexLeq(a, b) || LexLeq(b, a)
    ensures LexLeq(a, b) && LexLeq(b, a) ==> a == b
  {
    if a != [] && b != [] {
      LexTotal(a[1..], b[1..]);
      if a[0] == b[0] && a[1..] == b[1..] {
        assert a == [a[0]] + a[1..] && b == [b[0]] + b[1..];
      }
    }
  }

  lemma {:induction false} LexTransitive(a: string, b: string, c: string)
    requires LexLeq(a, b) && LexLeq(b, c)
    ensures LexLeq(a, c)
  {
    if a != [] && a[0] == b[0] == c[0] { LexTransitive(a[1..], b[1..], c[1..]); }
  }

  predicate Before(x: Reference, y: Reference) {
    x.line < y.line || (x.line == y.line && LexLeq(x.value, y.value))
  }

  ghost predicate Ordered(rs: seq<Reference>) {
    forall i, j | 0 <= i < j < |rs| :: Before(rs[i], rs[j])
  }

  /** Lines rise, and on one line values do. */
  lemma {:induction false} OrderedExact(rs: seq<Reference>)
    ensures Ordered(rs) <==> forall i, j | 0 <= i < j < |rs| ::
      rs[i].line <= rs[j].line && (rs[i].line == rs[j].line ==> LexLeq(rs[i].value, rs[j].value))
  {
    forall i, j | 0 <= i < j < |rs|
      ensures Before(rs[i], rs[j]) <==>
        rs[i].line <= rs[j].line && (rs[i].line == rs[j].line ==> LexLeq(rs[i].value, rs[j].value))
    {
    }
  }

  lemma {:induction false} BeforeTransitive(x: Reference, y: Reference, z: Reference)
    requires Before(x, y) && Before(y, z)
    ensures Before(x, z)
  {
    if x.line == y.line == z.line { LexTransitive(x.value, y.value, z.value); }
  }

  /** Orders by line and then by value; which of two equal keys comes first is left open. */
  method SortReferences(rs: seq<Reference>) returns (sorted: seq<Reference>)
    ensures multiset(sorted) == multiset(rs) && Ordered(sorted)
  {
    sorted := [];
    for i := 0 to |rs|
      invariant multiset(sorted) == multiset(rs[..i]) && Ordered(sorted)
    {
      sorted := Insert(sorted, rs[i]);
      assert rs[..i + 1] == rs[..i] + [rs[i]];
    }
    assert rs[..|rs|] == rs;
  }

  method Insert(sorted: seq<Reference>, r: Reference) returns (result: seq<Reference>)
    requires Ordered(sorted)
    ensures multiset(result) == multiset(sorted) + multiset{r} && Ordered(result)
  {
    var i := |sorted|;
    while i > 0 && !Before(sorted[i - 1], r)
      invariant 0 <= i <= |sorted|
      invariant forall j | i <= j < |sorted| :: Before(r, sorted[j])
    {
      LexTotal(sorted[i - 1].value, r.value);
      i := i - 1;
    }
    InsertOrdered(sorted, r, i);
    InsertMultiset(sorted, r, i);
    result := sorted[..i] + [r] + sorted[i..];
  }

  lemma {:induction false} InsertOrdered(rs: seq<Reference>, r: Reference, i: nat)
    requires Ordered(rs) && i <= |rs| && (i > 0 ==> Before(rs[i - 1], r))
    requires forall j | i <= j < |rs| :: Before(r, rs[j])
    ensures Ordered(rs[..i] + [r] + rs[i..])
  {
    forall j | 0 <= j < i ensures Before(rs[j], r) {
      if j < i - 1 { BeforeTransitive(rs[j], rs[i - 1], r); }
    }
    var s := rs[..i] + [r] + rs[i..];
    assert forall j | 0 <= j < |s| :: s[j] == if j < i then rs[j] else if j == i then r else rs[j - 1];
    forall j, k | 0 <= j < k < |s| ensures Before(s[j], s[k]) {
      if i < j {
        assert Before(rs[j - 1], rs[k - 1]);
      } else if j < i && i < k {
        assert Before(rs[j], rs[k - 1]);
      }
    }
  }

  lemma {:induction false} InsertMultiset(rs: seq<Reference>, r: Reference, i: nat)
    requires i <= |rs|
    ensures multiset(rs[..i] + [r] + rs[i..]) == multiset(rs) + multiset{r}
  {
    assert rs == rs[..i] + rs[i..];
  }

  /** The line and value at every place of the result do not depend on the sorting method. */
  lemma {:induction false} OrderIsDetermined(a: seq<Reference>, b: seq<Reference>)
    requires Ordered(a) && Ordered(b) && multiset(a) == multiset(b)
    ensures |a| == |b| && forall i | 0 <= i < |a| :: a[i].line == b[i].line && a[i].value == b[i].value
  {
    assert |multiset(a)| == |a| && |multiset(b)| == |b|;
    forall i | 0 <= i < |a|
      ensures a[i].line == b[i].line && a[i].value == b[i].value
    {
      NotAfter(a, b, i);
      NotAfter(b, a, i);
      LexTotal(a[i].value, b[i].value);
    }
  }

  lemma {:induction false} NotAfter(a: seq<Reference>, b: seq<Reference>, i: nat)
    requires Ordered(a) && Ordered(b) && multiset(a) == multiset(b) && |a| == |b| && i < |a|
    ensures Before(a[i], b[i])
  {
    if !Before(a[i], b[i]) {
      // Fewer than i + 1 elements of a are not after b[i], but b has at least i + 1 of them.
      LexTotal(a[i].value, b[i].value);
      CountUpTo(b, b[i], i + 1);
      forall j | i <= j < |a| ensures !Before(a[j], b[i]) {
        if Before(a[j], b[i]) {
          if i < j { BeforeTransitive(a[i], a[j], b[i]); }
        }
      }
      CountAtMost(a, b[i], i);
      CountMultiset(a, b, b[i]);
      assert false;
    }
  }

  /** How many references are not after `r`. */
  ghost function Count(rs: seq<Reference>, r: Reference): nat {
    if rs == [] then 0 else Count(rs[..|rs| - 1], r) + if Before(rs[|rs| - 1], r) then 1 else 0
  }

  lemma {:induction false} CountUpTo(rs: seq<Reference>, r: Reference, n: nat)
    requires n <= |rs| && Ordered(rs) && n > 0 && rs[n - 1] == r
    ensures Count(rs, r) >= n
  {
    LexSelf(r.value);
    forall j | 0 <= j < n ensures Before(rs[j], r) { }
    CountPrefix(rs, r, n);
  }

  lemma {:induction false} LexSelf(a: string)
    ensures LexLeq(a, a)
  {
    if a != [] { LexSelf(a[1..]); }
  }

  lemma {:induction false} CountPrefix(rs: seq<Reference>, r: Reference, n: nat)
    requires n <= |rs| && forall j | 0 <= j < n :: Before(rs[j], r)
    ensures Count(rs, r) >= n
    decreases |rs|
  {
    if rs != [] { CountPrefix(rs[..|rs| - 1], r, if n == |rs| then n - 1 else n); }
  }

  lemma {:induction false} CountAtMost(rs: seq<Reference>, r: Reference, n: nat)
    requires n <= |rs| && forall j | n <= j < |rs| :: !Before(rs[j], r)
    ensures Count(rs, r) <= n
    decreases |rs|
  {
    if rs != [] { CountAtMost(rs[..|rs| - 1], r, if n == |rs| then n - 1 else n); }
  }

  lemma {:induction false} CountConcat(a: seq<Reference>, b: seq<Reference>, r: Reference)
    ensures Count(a + b, r) == Count(a, r) + Count(b, r)
  {
    if b == [] {
      assert a + b == a;
    } else {
      CountConcat(a, b[..|b| - 1], r);
      assert (a + b)[..|a| + |b| - 1] == a + b[..|b| - 1];
    }
  }

  lemma {:induction false} CountMultiset(a: seq<Reference>, b: seq<Reference>, r: Reference)
    requires multiset(a) == multiset(b)
    ensures Count(a, r) == Count(b, r)
    decreases |a|
  {
    assert |multiset(a)| == |a| && |multiset(b)| == |b|;
    if a != [] {
      var m := |a| - 1;
      assert a == a[..m] + [a[m]] && a[m] in multiset(a);
      assert multiset(a[..m]) == multiset(a) - multiset{a[m]};
      var i := IndexOf(b, a[m]);
      CountRemove(b, i, r);
      CountMultiset(a[..m], b[..i] + b[i + 1..], r);
    }
  }

  lemma {:induction false} IndexOf(b: seq<Reference>, x: Reference) returns (i: nat)
    requires x in multiset(b)
    ensures i < |b| && b[i] == x
  {
    i :| 0 <= i < |b| && b[i] == x;
  }

  lemma {:induction false} CountRemove(b: seq<Reference>, i: nat, r: Reference)
    requires i < |b|
    ensures multiset(b[..i] + b[i + 1..]) == multiset(b) - multiset{b[i]}
    ensures Count(b, r) == Count(b[..i] + b[i + 1..], r) + if Before(b[i], r) then 1 else 0
  {
    assert b == b[..i] + ([b[i]] + b[i + 1..]);
    CountConcat(b[..i], [b[i]] + b[i + 1..], r);
    CountConcat([b[i]], b[i + 1..], r);
    CountConcat(b[..i], b[i + 1..], r);
    assert [b[i]][..0] == [];
  }

  // ----- inspection -----

  /** The workflow that a decodable document spells. */
  ghost function Workflow(g: Graph, document: Node): Tree
    requires Closed(g) && document in g && Rooted(g, document) && Decodable(g, document)
    ensures WellKeyed(Workflow(g, document))
  {
    ExpandedWellKeyed(g, document);
    FiniteContent(g, document, true);
    TreeOf(g, document, true).children[0]
  }

  /** Inspection after parsing. It succeeds exactly when the document decodes and its execution sites
      are acceptable, and then returns their references, one for each site that is not null, ordered. */
  method InspectWorkflowReferences(document: Node, rules: Rules, ghost g: Graph)
    returns (ok: bool, result: seq<Reference>)
    requires Closed(g) && Snapshot(g) && document in g && Rooted(g, document)
    ensures Snapshot(g)
    ensures ok <==> Decodable(g, document) && Good(rules, WorkflowSites(Workflow(g, document)), 0)
    ensures ok ==> multiset(result) == multiset(Collect(rules, WorkflowSites(Workflow(g, document)).value))
    ensures ok ==> Ordered(result) && |result| <= MAX_WORKFLOW_REFERENCES
  {
    var root, view := DecodeWorkflow(document, g);
    if root == null {
      return false, [];
    }
    ghost var t := Workflow(g, document);
    var references;
    ok, references := WorkflowReferences(root, rules, t, view);
    if !ok {
      return false, [];
    }
    FromEmpty(rules, WorkflowSites(t), references);
    result := SortReferences(references);
    SameLength(result, references);
  }

  lemma {:induction false} FromEmpty(rules: Rules, sites: Sites, after: seq<Reference>)
    requires Appended(rules, sites, [], after, true)
    ensures Good(rules, sites, 0) && after == Collect(rules, sites.value) && |after| <= MAX_WORKFLOW_REFERENCES
  {
    assert [] + Collect(rules, sites.value) == Collect(rules, sites.value);
  }

  lemma {:induction false} SameLength(a: seq<Reference>, b: seq<Reference>)
    requires multiset(a) == multiset(b)
    ensures |a| == |b|
  {
    assert |multiset(a)| == |a| && |multiset(b)| == |b|;
  }

  /** What inspection returns are the references of the places of the sites that are not null, each named once, with the
      value and line that stand there and the version that the comment beside a remote action gives. */
  lemma {:induction false} InspectedPlaces(rules: Rules, root: Tree, result: seq<Reference>)
    returns (ps: seq<Place>, references: seq<Reference>)
    requires WellKeyed(root) && Good(rules, WorkflowSites(root), 0)
    requires multiset(result) == multiset(Collect(rules, WorkflowSites(root).value))
    ensures forall i, j | 0 <= i < j < |ps| :: ps[i] != ps[j]
    ensures forall p :: p in ps <==> IsSite(root, p) && Filled(root, p)
    ensures Refer(rules, root, ps, references) && multiset(references) == multiset(result)
  {
    ps := OneReferencePerSite(rules, root);
    references := Collect(rules, WorkflowSites(root).value);
  }
}

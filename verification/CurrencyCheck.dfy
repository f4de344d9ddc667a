/** The whole currency check (goverify/workflow_currency.go): from the workflow files, through the local actions they
reach, to the newest tags of every repository that is named on the way. */
module CurrencyCheck {
  import opened Options
  import opened ExactWrite
  import opened Utf8
  import opened TextLines
  import opened ActionTags
  import opened WorkflowExtraction
  import opened ActionGraph
  import opened LocalAction
  import opened LocalActionOwner
  import opened Currency
  import opened RemoteActions

  // ----- references as pins -----

  /** The bytes of a string. */
  function Encoded(s: string): bytes {
    if s == "" then [] else Encoded(s[..|s| - 1]) + Encode(s[|s| - 1] as int)
  }

  function PinOf(r: Reference): Pin {
    Pin(Encoded(r.value), Encoded(r.annotation.version), Encoded(r.annotation.excluded), Encoded(r.annotation.reason))
  }

  function PinsFrom(rs: seq<Reference>): seq<Pin> {
    seq(|rs|, i requires 0 <= i < |rs| => PinOf(rs[i]))
  }

  lemma {:induction false} PinsFromConcat(a: seq<Reference>, b: seq<Reference>)
    ensures PinsFrom(a + b) == PinsFrom(a) + PinsFrom(b)
  {
  }

  // ----- the files -----

  /** What reading a workflow file gives: its references, or a failure. */
  type Reader = string -> Option<seq<Reference>>

  predicate AllReadable(read: Reader, paths: seq<string>) {
    forall path <- paths :: read(path).Some?
  }

  /** The references of all files. */
  function Joined(read: Reader, paths: seq<string>): seq<Reference> {
    if paths == [] then []
    else
      var m := |paths| - 1;
      Joined(read, paths[..m]) + if read(paths[m]).Some? then read(paths[m]).value else []
  }

  lemma {:induction false} JoinedPrefix(read: Reader, paths: seq<string>, i: nat) returns (rest: seq<Reference>)
    requires i <= |paths|
    ensures Joined(read, paths) == Joined(read, paths[..i]) + rest
    decreases |paths|
  {
    if i == |paths| {
      assert paths[..i] == paths;
      rest := [];
    } else {
      var m := |paths| - 1;
      rest := JoinedPrefix(read, paths[..m], i);
      assert paths[..m][..i] == paths[..i];
      rest := rest + if read(paths[m]).Some? then read(paths[m]).value else [];
    }
  }

  lemma {:induction false} JoinedNext(read: Reader, paths: seq<string>, i: nat)
    requires i < |paths| && read(paths[i]).Some?
    ensures Joined(read, paths[..i + 1]) == Joined(read, paths[..i]) + read(paths[i]).value
    ensures AllReadable(read, paths[..i]) ==> AllReadable(read, paths[..i + 1])
  {
    assert paths[..i + 1] == paths[..i] + [paths[i]];
    assert paths[..i + 1][..i] == paths[..i];
  }

  // ----- more files only add to what has to be resolved -----

  lemma {:induction false} ReachesMore(w: World, a: seq<Reference>, b: seq<Reference>, d: string)
    requires Reaches(w, a, d)
    ensures Reaches(w, a + b, d)
  {
    var p :| Walk(w, a, p) && p[|p| - 1] == d;
    assert Walk(w, a + b, p);
  }

  lemma {:induction false} OverdrawnMore(w: World, a: seq<Reference>, b: seq<Reference>, m: Measure, base: nat,
                                         more: nat, limit: nat)
    requires Overdrawn(w, a, m, base, limit) && base <= more
    ensures Overdrawn(w, a + b, m, more, limit)
  {
    var ds :| Distinct(ds) && (forall d <- ds :: Reaches(w, a, d)) && base + Sum(w, m, ds) > limit;
    forall d | d in ds ensures Reaches(w, a + b, d) { ReachesMore(w, a, b, d); }
  }

  lemma {:induction false} CrowdedMore(w: World, a: seq<Reference>, b: seq<Reference>)
    requires Crowded(w, a)
    ensures Crowded(w, a + b)
  {
    var ds :| Distinct(ds) && (forall d <- ds :: Reaches(w, a, d)) && |ds| > MAX_LOCAL_ACTIONS;
    forall d | d in ds ensures Reaches(w, a + b, d) { ReachesMore(w, a, b, d); }
  }

  lemma {:induction false} UnknownMore(w: World, a: seq<Reference>, b: seq<Reference>)
    requires NamesUnknown(w, a)
    ensures NamesUnknown(w, a + b)
  {
    if r :| r in a && !KnownWorkflow(w, r) {
      assert r in a + b;
    } else {
      var d, r :| Reaches(w, a, d) && r in Own(w, d) && !KnownWorkflow(w, r);
      ReachesMore(w, a, b, d);
    }
  }

  /** Files that cannot be resolved are not helped by more files. */
  lemma {:induction false} UnresolvableMore(w: World, a: seq<Reference>, b: seq<Reference>)
    requires !Resolvable(w, a)
    ensures !Resolvable(w, a + b)
  {
    if Cyclic(w, a) {
      var p, i: int, j: int :| Walk(w, a, p) && 0 <= i < j < |p| && p[i] == p[j];
      assert Walk(w, a + b, p);
    } else if NamesUnknown(w, a) {
      UnknownMore(w, a, b);
    } else if Overdrawn(w, a, Measure.References, |a|, MAX_WORKFLOW_REFERENCES) {
      OverdrawnMore(w, a, b, Measure.References, |a|, |a + b|, MAX_WORKFLOW_REFERENCES);
    } else if Overdrawn(w, a, Bytes, 0, MAX_LOCAL_ACTION_BYTES) {
      OverdrawnMore(w, a, b, Bytes, 0, 0, MAX_LOCAL_ACTION_BYTES);
    } else if Crowded(w, a) {
      CrowdedMore(w, a, b);
    } else {
      var d :| Reaches(w, a, d) && !Readable(w, d);
      ReachesMore(w, a, b, d);
    }
  }

  // ----- what is emitted is what is reached -----

  /** An external reference that the files make, or some action directory that they reach. */
  ghost predicate Reached(w: World, roots: seq<Reference>, r: Reference) {
    TargetOf(w, r).External? && (r in roots || exists d :: Reaches(w, roots, d) && r in Own(w, d))
  }

  lemma {:induction false} InExternals(w: World, rs: seq<Reference>, r: Reference)
    ensures r in Externals(w, rs) <==> r in rs && TargetOf(w, r).External?
  {
    if rs != [] {
      var m := |rs| - 1;
      InExternals(w, rs[..m], r);
      assert rs == rs[..m] + [rs[m]];
    }
  }

  lemma {:induction false} InTotal<T>(give: string -> multiset<T>, ds: seq<string>, x: T)
    ensures x in Total(give, ds) <==> exists d :: d in ds && x in give(d)
  {
    if ds != [] {
      var m := |ds| - 1;
      InTotal(give, ds[..m], x);
      assert ds == ds[..m] + [ds[m]];
    }
  }

  lemma {:induction false} InContributions(w: World, ds: seq<string>, r: Reference)
    ensures r in Contributions(w, ds) <==> TargetOf(w, r).External? && exists d :: d in ds && r in Own(w, d)
  {
    InTotal(Giving(w), ds, r);
    forall d ensures r in Giving(w)(d) <==> r in Own(w, d) && TargetOf(w, r).External? {
      InExternals(w, Own(w, d), r);
    }
  }

  lemma {:induction false} EmittedIsReached(w: World, roots: seq<Reference>, order: seq<string>, r: Reference)
    requires forall d :: d in order <==> Reaches(w, roots, d)
    ensures r in multiset(Externals(w, roots)) + Contributions(w, order) <==> Reached(w, roots, r)
  {
    InExternals(w, roots, r);
    InContributions(w, order, r);
  }

  /** `dependencies` groups the pins of exactly what the files reach. */
  ghost predicate Depends(of: Pin -> bytes, dependencies: map<bytes, seq<Pin>>, w: World, roots: seq<Reference>,
                          found: seq<Reference>) {
    Groups(of, dependencies, PinsFrom(found)) && forall r :: r in found <==> Reached(w, roots, r)
  }

  /** One workflow file. */
  method AddFile(owner: Owner, references: seq<Reference>, dependencies: Dependencies, ghost of: Pin -> bytes,
                 ghost found: seq<Reference>)
    returns (ok: bool, ghost all: seq<Reference>)
    requires owner.Valid() && owner.emitted == multiset(found)
    requires ByRepository(of) && Groups(of, dependencies.pins, PinsFrom(found))
    modifies owner, owner.ctx, dependencies
    ensures old(owner.ctx.Alive()) ==> owner.ctx.Alive()
    ensures ok ==>
      owner.Valid() && owner.tour.roots == old(owner.tour.roots) + references && owner.emitted == multiset(all)
    ensures ok ==> Groups(of, dependencies.pins, PinsFrom(all))
    ensures !ok ==> owner.ctx.done || !Resolvable(owner.w, old(owner.tour.roots) + references)
  {
    var failure, result := owner.Expand(references);
    if failure.Some? {
      return false, found;
    }
    dependencies.AddWorkflowDependencies(PinsFrom(result), PinsFrom(found), of);
    PinsFromConcat(found, result);
    return true, found + result;
  }

  /** The loop over the workflow files, with one resolver of local actions for all of them. */
  method ReadWorkflowDependencies(w: World, paths: seq<string>, read: Reader, ctx: Context, dependencies: Dependencies,
                                  ghost of: Pin -> bytes)
    returns (ok: bool, ghost found: seq<Reference>)
    requires ByRepository(of) && dependencies.pins == map[]
    modifies ctx, dependencies
    ensures old(ctx.Alive()) ==> ctx.Alive()
    ensures ok ==> AllReadable(read, paths) && Resolvable(w, Joined(read, paths))
    ensures ok ==> Depends(of, dependencies.pins, w, Joined(read, paths), found)
    ensures !ok ==> ctx.done || !AllReadable(read, paths) || !Resolvable(w, Joined(read, paths))
  {
    found := [];
    var owner := new Owner(w, ctx);
    for i := 0 to |paths|
      invariant old(ctx.Alive()) ==> ctx.Alive()
      invariant owner.Valid() && owner.tour.roots == Joined(read, paths[..i]) && owner.emitted == multiset(found)
      invariant AllReadable(read, paths[..i]) && Groups(of, dependencies.pins, PinsFrom(found))
    {
      var cancelled := ctx.Err();
      if cancelled {
        return false, found;
      }
      if read(paths[i]).None? {
        assert paths[i] in paths;
        return false, found;
      }
      JoinedNext(read, paths, i);
      ok, found := AddFile(owner, read(paths[i]).value, dependencies, of, found);
      if !ok {
        UnresolvableSoFar(w, read, paths, i + 1);
        return false, found;
      }
    }
    assert paths[..|paths|] == paths;
    ok := true;
    ReachedByOwner(w, owner.tour, owner.references, found);
  }

  lemma {:induction false} UnresolvableSoFar(w: World, read: Reader, paths: seq<string>, i: nat)
    requires i <= |paths|
    ensures !Resolvable(w, Joined(read, paths[..i])) ==> !Resolvable(w, Joined(read, paths))
  {
    var rest := JoinedPrefix(read, paths, i);
    if !Resolvable(w, Joined(read, paths[..i])) {
      UnresolvableMore(w, Joined(read, paths[..i]), rest);
    }
  }

  lemma {:induction false} ReachedByOwner(w: World, t: Tour, references: nat, found: seq<Reference>)
    requires Sound(w, t) && t.path == [] && Settles(w, t.roots, t.order)
    requires references == |t.roots| + t.spent <= MAX_WORKFLOW_REFERENCES
    requires multiset(found) == multiset(Externals(w, t.roots)) + t.given
    ensures Resolvable(w, t.roots) && forall r :: r in found <==> Reached(w, t.roots, r)
  {
    ValidFacts(w, t, references);
    forall r ensures r in found <==> Reached(w, t.roots, r) {
      EmittedIsReached(w, t.roots, t.order, r);
      assert r in found <==> r in multiset(found);
    }
  }

  // ----- the check -----

  /** Everything that the code asks a repository about is current. It asks about every reached reference whose value has
      the form of a remote action, of whatever kind the reference is. */
  ghost predicate AskedCurrent(p: int -> bool, remote: Remote, w: World, roots: seq<Reference>) {
    forall r | Reached(w, roots, r) && WorkflowActionRepository(PinOf(r).value) != [] ::
      CurrentAt(p, remote, PinOf(r), WorkflowActionRepository(PinOf(r).value))
  }

  /** Text that is not empty and holds printable characters only. */
  predicate Legible(p: int -> bool, text: string) {
    text != "" && forall c <- text :: IsPrint(p, c as int)
  }

  /** The tag that the comment names is there with the commit after the `@`, and either it is the newest and nothing is
      excluded, or the newest is excluded with a reason and it is the newest of the others. */
  ghost predicate CurrentIn(p: int -> bool, r: Reference, tags: map<bytes, ActionTag>)
    requires ValidTags(tags)
  {
    var version, excluded := Encoded(r.annotation.version), Encoded(r.annotation.excluded);
    && version in tags
    && (exists before :: AT !in before && Encoded(r.value) == before + [AT] + tags[version].commit)
    && (|| (r.annotation.excluded == "" && IsLatest(tags, version))
        || (IsLatest(tags, excluded) && IsLatestBelow(tags, version, excluded) && Legible(p, r.annotation.reason)))
  }

  /** The repository answers with an acceptable listing, in which the reference is current. */
  ghost predicate CurrentReference(p: int -> bool, remote: Remote, r: Reference, repository: bytes) {
    && remote(repository).Some?
    && var lines := multiset(Lines(remote(repository).value));
       Acceptable(lines) && exists tags :: ValidTags(tags) && Agrees(tags, lines) && CurrentIn(p, r, tags)
  }

  lemma {:induction false} EncodedIsText(s: string) returns (text: seq<scalar>)
    ensures Encoded(s) == EncodeAll(text) && |text| == |s| && forall i | 0 <= i < |s| :: text[i] == s[i] as int
  {
    if s == "" {
      text := [];
    } else {
      var init, c := s[..|s| - 1], s[|s| - 1];
      text := EncodedIsText(init);
      EncodeAllNext(text, c as int);
      text := text + [c as int];
    }
  }

  lemma {:induction false} EncodeAllNext(text: seq<scalar>, r: scalar)
    ensures EncodeAll(text + [r]) == EncodeAll(text) + Encode(r)
    decreases |text|
  {
    if text == [] {
      assert text + [r] == [r] && EncodeAll([r]) == Encode(r) + EncodeAll([r][1..]);
    } else {
      EncodeAllNext(text[1..], r);
      assert (text + [r])[1..] == text[1..] + [r];
    }
  }

  lemma {:induction false} OnlyPrintable(p: int -> bool, text: seq<scalar>)
    ensures AllPrintable(p, EncodeAll(text)) <==> forall i | 0 <= i < |text| :: IsPrint(p, text[i])
    decreases |text|
  {
    if text != [] {
      var rest := EncodeAll(text[1..]);
      DecodeEncode(text[0], rest);
      OnlyPrintable(p, text[1..]);
      assert EncodeAll(text)[|Encode(text[0])|..] == rest;
      assert forall i | 0 < i < |text| :: text[i] == text[1..][i - 1];
    }
  }

  /** The reason is checked as bytes, and that is a check of its characters. */
  lemma {:induction false} LegibleExact(p: int -> bool, s: string)
    ensures ValidText(p, Encoded(s)) <==> Legible(p, s)
    ensures Encoded(s) == [] <==> s == ""
  {
    var text := EncodedIsText(s);
    OnlyPrintable(p, text);
    if s != "" { EncodedNext(s[..|s| - 1], s[|s| - 1]); }
    assert (forall i | 0 <= i < |text| :: IsPrint(p, text[i])) <==> forall c <- s :: IsPrint(p, c as int) by {
      assert forall i | 0 <= i < |s| :: s[i] in s && text[i] == s[i] as int;
    }
  }

  lemma {:induction false} RevisionExact(value: bytes, commit: bytes)
    requires commit != []
    ensures WorkflowActionRevision(value) == commit <==>
      exists before :: AT !in before && value == before + [AT] + commit
  {
    var at := IndexByte(value, AT);
    if at >= 0 {
      assert value == value[..at] + [AT] + value[at + 1..];
    }
    if before :| AT !in before && value == before + [AT] + commit {
      FirstAt(before, commit);
      assert value[|before| + 1..] == commit;
    }
  }

  lemma {:induction false} CurrentInExact(p: int -> bool, r: Reference, tags: map<bytes, ActionTag>)
    requires ValidTags(tags) && forall n | n in tags :: tags[n].commit != []
    ensures CurrentIn(p, r, tags) <==> Current(p, PinOf(r), tags)
  {
    LegibleExact(p, r.annotation.reason);
    LegibleExact(p, r.annotation.excluded);
    var version := Encoded(r.annotation.version);
    if version in tags { RevisionExact(Encoded(r.value), tags[version].commit); }
  }

  /** What the code decides about the bytes of a pin is what the reference says. */
  lemma {:induction false} CurrentReferenceExact(p: int -> bool, remote: Remote, r: Reference, repository: bytes)
    ensures CurrentAt(p, remote, PinOf(r), repository) <==> CurrentReference(p, remote, r, repository)
  {
    if remote(repository).Some? && Acceptable(multiset(Lines(remote(repository).value))) {
      var lines := multiset(Lines(remote(repository).value));
      forall tags: map<bytes, ActionTag> | ValidTags(tags) && Agrees(tags, lines)
        ensures CurrentIn(p, r, tags) <==> Current(p, PinOf(r), tags)
      {
        forall n | n in tags ensures tags[n].commit != [] { SurvivingTags(tags, lines, n); }
        CurrentInExact(p, r, tags);
      }
    }
  }

  /** Every remote action that the files or the local actions they reach refer to is current. */
  ghost predicate ActionsCurrent(p: int -> bool, remote: Remote, w: World, roots: seq<Reference>) {
    forall r, repository | Reached(w, roots, r) && r.kind.Action? && Names(Encoded(r.value), repository) ::
      CurrentReference(p, remote, r, repository)
  }

  /** No container image is written like a remote action, that is with a slash before its `@`. */
  ghost predicate ImagesUnlikeActions(w: World, roots: seq<Reference>) {
    forall r | Reached(w, roots, r) && r.kind.Image? :: !NamesSome(Encoded(r.value))
  }

  /** Images carry no version comment. */
  ghost predicate ImagesPlain(w: World, roots: seq<Reference>) {
    forall r | Reached(w, roots, r) && r.kind.Image? :: r.annotation == NO_ANNOTATION
  }

  /** Inspection never gives an image a version. */
  lemma {:induction false} CollectedImagesArePlain(rules: Rules, sites: seq<Execution>, r: Reference)
    requires r in Collect(rules, sites) && r.kind.Image?
    ensures r.annotation == NO_ANNOTATION
  {
    if r in Collect(rules, sites[..|sites| - 1]) {
      CollectedImagesArePlain(rules, sites[..|sites| - 1], r);
    }
  }

  /** What the code asks about is current exactly when the remote actions are and no image looks like one. */
  lemma {:induction false} AskedExact(p: int -> bool, remote: Remote, w: World, roots: seq<Reference>)
    requires ImagesPlain(w, roots)
    ensures AskedCurrent(p, remote, w, roots) <==> ActionsCurrent(p, remote, w, roots) && ImagesUnlikeActions(w, roots)
  {
    forall r, repository | Reached(w, roots, r) && Names(PinOf(r).value, repository)
      ensures repository != [] && WorkflowActionRepository(PinOf(r).value) == repository
      ensures CurrentAt(p, remote, PinOf(r), repository) <==> CurrentReference(p, remote, r, repository)
    {
      RepositoryExact(PinOf(r).value, repository);
      CurrentReferenceExact(p, remote, r, repository);
    }
    forall r | Reached(w, roots, r) && WorkflowActionRepository(PinOf(r).value) != []
      ensures Names(PinOf(r).value, WorkflowActionRepository(PinOf(r).value))
    {
      RepositoryExact(PinOf(r).value, WorkflowActionRepository(PinOf(r).value));
    }
    forall r | Reached(w, roots, r) && r.kind.Image?
      ensures NamesSome(PinOf(r).value) <==> WorkflowActionRepository(PinOf(r).value) != []
      ensures !CurrentAt(p, remote, PinOf(r), WorkflowActionRepository(PinOf(r).value))
    {
      RepositoryExact(PinOf(r).value, []);
      UnversionedIsStale(p, remote, PinOf(r), WorkflowActionRepository(PinOf(r).value));
    }
  }

  // ----- an image that is taken for an action -----

  lemma {:induction false} EncodedNext(s: string, c: char)
    ensures Encoded(s + [c]) == Encoded(s) + Encode(c as int)
  {
    assert (s + [c])[..|s|] == s;
  }

  lemma {:induction false} EncodedConcat(a: string, b: string)
    ensures Encoded(a + b) == Encoded(a) + Encoded(b)
  {
    if b == "" {
      assert a + b == a;
    } else {
      var init, c := b[..|b| - 1], b[|b| - 1];
      EncodedConcat(a, init);
      assert b == init + [c];
      EncodedOneMore(a, init, c);
    }
  }

  lemma {:induction false} EncodedOneMore(a: string, b: string, c: char)
    requires Encoded(a + b) == Encoded(a) + Encoded(b)
    ensures Encoded(a + (b + [c])) == Encoded(a) + Encoded(b + [c])
  {
    assert a + (b + [c]) == (a + b) + [c];
    EncodedNext(a + b, c);
    EncodedNext(b, c);
    Associate(Encoded(a), Encoded(b), Encode(c as int));
  }

  lemma {:induction false} Associate(a: bytes, b: bytes, c: bytes)
    ensures (a + b) + c == a + (b + c)
  {
  }

  /** An ASCII byte stands only for its own character. */
  lemma {:induction false} AsciiStays(s: string, c: char, b: byte)
    requires c as int == b as int < 0x80 && c !in s
    ensures b !in Encoded(s)
  {
    if s != "" {
      var m := |s| - 1;
      AsciiStays(s[..m], c, b);
      assert s[m] in s;
      LeadingOrTrailing(s[m] as int, b);
    }
  }

  lemma {:induction false} LeadingOrTrailing(r: scalar, b: byte)
    requires b < 0x80 && r != b as int
    ensures b !in Encode(r)
  {
  }

  /** An image like the one that the repository's own test accepts. */
  function PinnedImage(digest: string): Reference {
    Reference(Image, "registry.test/build@sha256:" + digest, NO_ANNOTATION, 8)
  }

  lemma {:induction false} PinnedImageLooksRemote(digest: string)
    ensures NamesSome(PinOf(PinnedImage(digest)).value)
  {
    assert PinnedImage(digest).value == "registry.test" + (['/'] + ("build" + (['@'] + ("sha256:" + digest))));
    ImageLooksRemote("registry.test", "build", "sha256:" + digest);
  }

  lemma {:induction false} ImageLooksRemote(owner: string, name: string, revision: string)
    requires '/' !in owner && '@' !in owner && '/' !in name && '@' !in name && owner != "" && owner[0] == 'r'
    ensures NamesSome(Encoded(owner + (['/'] + (name + (['@'] + revision)))))
  {
    EncodedAround(owner, '/', name + (['@'] + revision));
    EncodedAround(name, '@', revision);
    AsciiStays(owner, '/', SLASH);
    AsciiStays(owner, '@', AT);
    AsciiStays(name, '/', SLASH);
    AsciiStays(name, '@', AT);
    FirstByte(owner);
    var value := Encoded(owner + (['/'] + (name + (['@'] + revision))));
    LooksRemote(value, Encoded(owner), Encoded(name), Encoded(revision));
  }

  lemma {:induction false} EncodedAround(a: string, c: char, b: string)
    requires c as int < 0x80
    ensures Encoded(a + ([c] + b)) == Encoded(a) + ([c as int as byte] + Encoded(b))
  {
    EncodedConcat(a, [c] + b);
    EncodedConcat([c], b);
    EncodedNext("", c);
    assert "" + [c] == [c];
  }

  lemma {:induction false} FirstByte(s: string)
    requires s != "" && s[0] as int < 0x80
    ensures Encoded(s) != [] && Encoded(s)[0] as int == s[0] as int
  {
    EncodedNext("", s[0]);
    EncodedConcat([s[0]], s[1..]);
    assert s == [s[0]] + s[1..] && "" + [s[0]] == [s[0]];
  }

  lemma {:induction false} LooksRemote(value: bytes, owner: bytes, name: bytes, revision: bytes)
    requires value == owner + ([SLASH] + (name + ([AT] + revision)))
    requires SLASH !in owner && SLASH !in name && AT !in owner && AT !in name
    requires owner != [] && owner[0] == 0x72
    ensures NamesSome(value)
  {
    Literals();
    assert value[0] == 0x72;
    assert value == owner + [SLASH] + name + [] + [AT] + revision;
    assert Parts(value, owner, name, [], revision);
    assert Names(value, owner + [SLASH] + name);
    RepositoryExact(value, owner + [SLASH] + name);
  }

  /** A workflow that uses nothing but such an image is refused, although it has no action that could be out of date. */
  lemma {:induction false} PinnedImageFails(p: int -> bool, remote: Remote, path: string,
                                            directory: string -> Option<string>,
                                            action: string -> Metadata, digest: string)
    requires directory(PinnedImage(digest).value).None?
    ensures var w, roots := Repository([path], directory, action), [PinnedImage(digest)];
      && Resolvable(w, roots) && ImagesPlain(w, roots) && ActionsCurrent(p, remote, w, roots)
      && !AskedCurrent(p, remote, w, roots)
  {
    var w, r := Repository([path], directory, action), PinnedImage(digest);
    assert TargetOf(w, r) == External by {
      assert r.value[0] == 'r';
    }
    FinishedIsResolvable(w, [r], []);
    FinishedIsAcyclic(w, [r], []);
    assert forall q :: Reached(w, [r], q) ==> q == r;
    PinnedImageLooksRemote(digest);
    assert Reached(w, [r], r);
    AskedExact(p, remote, w, [r]);
  }

  // ----- the verdict -----

  lemma {:induction false} FoundIsCurrent(p: int -> bool, remote: Remote, w: World, roots: seq<Reference>,
                                          found: seq<Reference>)
    requires forall r :: r in found <==> Reached(w, roots, r)
    ensures AllCurrent(p, remote, PinsFrom(found)) <==> AskedCurrent(p, remote, w, roots)
    ensures ImagesPlain(w, roots) ==>
      (AskedCurrent(p, remote, w, roots) <==> ActionsCurrent(p, remote, w, roots) && ImagesUnlikeActions(w, roots))
  {
    forall r | r in found ensures PinOf(r) in PinsFrom(found) {
      var i :| 0 <= i < |found| && found[i] == r;
      assert PinsFrom(found)[i] == PinOf(r);
    }
    forall pin | pin in PinsFrom(found) ensures exists r :: r in found && PinOf(r) == pin {
      var i :| 0 <= i < |found| && PinsFrom(found)[i] == pin;
      assert found[i] in found;
    }
    if ImagesPlain(w, roots) {
      AskedExact(p, remote, w, roots);
    }
  }

  /** Every file can be read and everything they reach can be resolved. */
  ghost predicate Inspectable(w: World, paths: seq<string>, read: Reader) {
    AllReadable(read, paths) && Resolvable(w, Joined(read, paths))
  }

  /** The check of a repository. While the context lives it succeeds exactly when everything is inspectable, every
      remote action referred to there is current, and no container image has a slash before its `@`. */
  method VerifyWorkflowCurrency(p: int -> bool, remote: Remote, paths: seq<string>, read: Reader,
                                directory: string -> Option<string>, action: string -> Metadata, ctx: Context)
    returns (ok: bool)
    modifies ctx
    ensures old(ctx.Alive()) ==> ctx.Alive()
    ensures var w, roots := Repository(paths, directory, action), Joined(read, paths);
      ImagesPlain(w, roots) ==>
        var good := Inspectable(w, paths, read) && ActionsCurrent(p, remote, w, roots) && ImagesUnlikeActions(w, roots);
        (ok ==> good && !ctx.done) && (!ok ==> !good || ctx.done)
    ensures var w, roots := Repository(paths, directory, action), Joined(read, paths);
      var asked := Inspectable(w, paths, read) && AskedCurrent(p, remote, w, roots);
      (ok ==> asked && !ctx.done) && (!ok ==> !asked || ctx.done)
  {
    var w := Repository(paths, directory, action);
    ghost var of: Pin -> bytes := (pin: Pin) => WorkflowActionRepository(pin.value);
    var dependencies := new Dependencies();
    ghost var found;
    ok, found := ReadWorkflowDependencies(w, paths, read, ctx, dependencies, of);
    if !ok {
      return false;
    }
    FoundIsCurrent(p, remote, w, Joined(read, paths), found);
    ok := VerifyDependencies(p, remote, dependencies.pins, PinsFrom(found), of, ctx);
  }
}

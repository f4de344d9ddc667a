/** Dependency currency (goverify/workflow_currency.go): a pinned action must use the newest tag of its repository,
or exclude that one by name and use the newest below it. */
module Currency {
  import opened Options
  import opened ExactWrite
  import opened Utf8
  import opened TextLines
  import opened ActionVersions
  import opened ActionTags

  const AT: byte := 0x40

  /** What the check reads of a reference: `value` is `owner/name[/path]@commit`. */
  datatype Pin = Pin(value: bytes, version: bytes, excluded: bytes, reason: bytes)

  function WorkflowActionRevision(value: bytes): bytes {
    var at := IndexByte(value, AT);
    if at < 0 then [] else value[at + 1..]
  }

  /** The function `validFuzzText`. */
  predicate ValidText(p: int -> bool, v: bytes) {
    v != [] && AllPrintable(p, v)
  }

  // ----- the newest tag -----

  ghost predicate ValidTags(tags: map<bytes, ActionTag>) {
    forall n | n in tags :: tags[n].name == [] && Represents(tags[n].version, n)
  }

  /** Greater numbers win; of equal numbers, the name that writes more of them. */
  predicate Above(a: bytes, b: bytes)
    requires ValidVersion(a) && ValidVersion(b)
  {
    NumbersBelow(b, a, 0) || (NumbersEqual(a, b) && |Parts(a)| > |Parts(b)|)
  }

  ghost predicate IsLatest(tags: map<bytes, ActionTag>, name: bytes)
    requires ValidTags(tags)
  {
    name in tags && forall n | n in tags && n != name :: Above(name, n)
  }

  /** The newest tag whose numbers are strictly below those of `top`. */
  ghost predicate IsLatestBelow(tags: map<bytes, ActionTag>, name: bytes, top: bytes)
    requires ValidTags(tags) && top in tags
  {
    && name in tags && NumbersBelow(name, top, 0)
    && forall n | n in tags && n != name && NumbersBelow(n, top, 0) :: Above(name, n)
  }

  lemma {:induction false} NumbersOrder(a: bytes, b: bytes)
    requires ValidVersion(a) && ValidVersion(b)
    ensures NumbersBelow(a, b, 0) || NumbersBelow(b, a, 0) || NumbersEqual(a, b)
    ensures !(NumbersBelow(a, b, 0) && NumbersBelow(b, a, 0))
    ensures NumbersEqual(a, b) ==> !NumbersBelow(a, b, 0) && !NumbersBelow(b, a, 0)
  {
    assert NumbersBelow(a, b, 3) == NumbersBelow(b, a, 3) == false;
    assert NumbersBelow(a, b, 2) <==> Number(a, 2) < Number(b, 2);
    assert NumbersBelow(b, a, 2) <==> Number(b, 2) < Number(a, 2);
  }

  /** Two names are never equally new. */
  lemma {:induction false} AboveIsTotal(a: bytes, b: bytes)
    requires ValidVersion(a) && ValidVersion(b) && a != b
    ensures Above(a, b) <==> !Above(b, a)
  {
    NumbersOrder(a, b);
    if NumbersEqual(a, b) && |Parts(a)| == |Parts(b)| {
      SameNumbersSameName(a, b);
    }
  }

  lemma {:induction false} BelowIsTransitive(a: bytes, b: bytes, c: bytes, i: nat)
    requires ValidVersion(a) && ValidVersion(b) && ValidVersion(c) && i <= 3
    ensures NumbersBelow(a, b, i) && NumbersBelow(b, c, i) ==> NumbersBelow(a, c, i)
    ensures NumbersBelow(a, b, i) && (forall j | i <= j < 3 :: Number(b, j) == Number(c, j)) ==> NumbersBelow(a, c, i)
    ensures (forall j | i <= j < 3 :: Number(a, j) == Number(b, j)) && NumbersBelow(b, c, i) ==> NumbersBelow(a, c, i)
    decreases 3 - i
  {
    if i < 3 {
      BelowIsTransitive(a, b, c, i + 1);
    }
  }

  lemma {:induction false} AboveIsTransitive(a: bytes, b: bytes, c: bytes)
    requires ValidVersion(a) && ValidVersion(b) && ValidVersion(c) && Above(a, b) && Above(b, c)
    ensures Above(a, c)
  {
    BelowIsTransitive(c, b, a, 0);
  }

  /** So there is at most one newest tag, whatever the order in which a map is read. */
  lemma {:induction false} LatestIsUnique(tags: map<bytes, ActionTag>, a: bytes, b: bytes)
    requires ValidTags(tags) && IsLatest(tags, a) && IsLatest(tags, b)
    ensures a == b
  {
    if a != b {
      AboveIsTotal(a, b);
    }
  }

  predicate Excluded(excluded: Option<ActionVersion>, name: bytes)
    requires ValidVersion(name)
    requires excluded.Some? ==> ValidVersion(excluded.value.value)
  {
    excluded.Some? && NumbersEqual(name, excluded.value.value)
  }

  /** `latest` is the newest of the tags in `names` that are not excluded; without any it has no name. */
  ghost predicate Selected(tags: map<bytes, ActionTag>, excluded: Option<ActionVersion>, names: set<bytes>,
                           latest: ActionTag)
    requires ValidTags(tags) && names <= tags.Keys
    requires excluded.Some? ==> ValidVersion(excluded.value.value)
  {
    if latest.name == [] then
      latest == NO_TAG && forall n | n in names :: Excluded(excluded, n)
    else
      && latest.name in names && !Excluded(excluded, latest.name)
      && latest == tags[latest.name].(name := latest.name)
      && forall n | n in names && n != latest.name && !Excluded(excluded, n) :: Above(latest.name, n)
  }

  lemma {:induction false} SelectNext(tags: map<bytes, ActionTag>, excluded: Option<ActionVersion>, names: set<bytes>,
                                      latest: ActionTag, name: bytes, next: ActionTag)
    requires ValidTags(tags) && names <= tags.Keys && name in tags && name !in names
    requires excluded.Some? ==> ValidVersion(excluded.value.value)
    requires Selected(tags, excluded, names, latest)
    requires Excluded(excluded, name) ==> next == latest
    requires !Excluded(excluded, name) ==>
      next == if latest.name == [] || Above(name, latest.name) then tags[name].(name := name) else latest
    ensures Selected(tags, excluded, names + {name}, next)
  {
    if !Excluded(excluded, name) && latest.name != [] {
      AboveIsTotal(name, latest.name);
      if Above(name, latest.name) {
        forall n | n in names && n != latest.name && !Excluded(excluded, n) ensures Above(name, n) {
          AboveIsTransitive(name, latest.name, n);
        }
      }
    }
  }

  /** The comparisons of the loop are those of the names. */
  lemma {:induction false} Comparisons(tags: map<bytes, ActionTag>, excluded: Option<ActionVersion>, latest: ActionTag,
                                       name: bytes)
    requires ValidTags(tags) && name in tags
    requires excluded.Some? ==> Represents(excluded.value, excluded.value.value)
    requires (latest.name in tags && latest.version == tags[latest.name].version) || latest == NO_TAG
    ensures Framed(latest.version)
    ensures excluded.Some? ==>
      (CompareActionVersion(tags[name].version, excluded.value) == 0 <==> Excluded(excluded, name))
    ensures latest.name != [] ==>
      var c := CompareActionVersion(tags[name].version, latest.version);
      (c > 0 || (c == 0 && tags[name].version.components > latest.version.components) <==> Above(name, latest.name))
  {
    if excluded.Some? {
      CompareIsNumeric(tags[name].version, name, excluded.value, excluded.value.value);
    }
    if latest.name != [] {
      CompareIsNumeric(tags[name].version, name, latest.version, latest.name);
    }
  }

  /** `inv` is `Selected`, as a value. */
  ghost predicate Tracks(inv: (set<bytes>, ActionTag) -> bool, tags: map<bytes, ActionTag>,
                         excluded: Option<ActionVersion>)
    requires ValidTags(tags) && (excluded.Some? ==> ValidVersion(excluded.value.value))
  {
    forall names, latest {:trigger Selected(tags, excluded, names, latest)} ::
      names <= tags.Keys ==> (inv(names, latest) <==> Selected(tags, excluded, names, latest))
  }

  method PreferActionTag(tags: map<bytes, ActionTag>, excluded: Option<ActionVersion>, latest: ActionTag, name: bytes,
                         ghost seen: set<bytes>, ghost inv: (set<bytes>, ActionTag) -> bool)
    returns (next: ActionTag)
    requires ValidTags(tags) && seen <= tags.Keys && name in tags && name !in seen
    requires excluded.Some? ==> Represents(excluded.value, excluded.value.value)
    requires Tracks(inv, tags, excluded) && inv(seen, latest)
    ensures inv(seen + {name}, next)
  {
    var tag := tags[name];
    next := latest;
    assert Selected(tags, excluded, seen, latest);
    Comparisons(tags, excluded, latest, name);
    if excluded.None? || CompareActionVersion(tag.version, excluded.value) != 0 {
      var comparison := CompareActionVersion(tag.version, latest.version);
      if latest.name == [] || comparison > 0
         || (comparison == 0 && tag.version.components > latest.version.components)
      {
        next := tag.(name := name);
      }
    }
    SelectNext(tags, excluded, seen, latest, name, next);
  }

  /** The loop reads the map in any order. */
  method LatestOf(tags: map<bytes, ActionTag>, excluded: Option<ActionVersion>,
                  ghost inv: (set<bytes>, ActionTag) -> bool)
    returns (latest: ActionTag)
    requires ValidTags(tags)
    requires excluded.Some? ==> Represents(excluded.value, excluded.value.value)
    requires Tracks(inv, tags, excluded) && inv({}, NO_TAG)
    ensures inv(tags.Keys, latest)
  {
    latest := NO_TAG;
    var rest := tags.Keys;
    ghost var seen: set<bytes> := {};
    while rest != {}
      invariant rest <= tags.Keys && seen <= tags.Keys
      invariant forall n | n in tags :: n in seen <==> n !in rest
      invariant inv(seen, latest)
      decreases |rest|
    {
      var name :| name in rest;
      latest := PreferActionTag(tags, excluded, latest, name, seen, inv);
      rest := rest - {name};
      seen := seen + {name};
    }
    assert seen == tags.Keys;
  }

  method SelectLatestActionTag(tags: map<bytes, ActionTag>, excluded: Option<ActionVersion>) returns (latest: ActionTag)
    requires ValidTags(tags)
    requires excluded.Some? ==> Represents(excluded.value, excluded.value.value)
    ensures Selected(tags, excluded, tags.Keys, latest)
  {
    ghost var inv: (set<bytes>, ActionTag) -> bool :=
      (names: set<bytes>, l: ActionTag) => ValidTags(tags) && names <= tags.Keys && Selected(tags, excluded, names, l);
    assert Selected(tags, excluded, {}, NO_TAG);
    latest := LatestOf(tags, excluded, inv);
  }

  // ----- one reference -----

  /** The commit is the pinned tag's, and the pinned tag is the newest of all with nothing excluded, or the newest
      below the newest, which is excluded by name and with a reason. */
  ghost predicate Current(p: int -> bool, pin: Pin, tags: map<bytes, ActionTag>)
    requires ValidTags(tags)
  {
    && pin.version in tags && tags[pin.version].commit == WorkflowActionRevision(pin.value)
    && (|| (IsLatest(tags, pin.version) && pin.excluded == [])
        || (IsLatest(tags, pin.excluded) && ValidText(p, pin.reason) && IsLatestBelow(tags, pin.version, pin.excluded)))
  }

  lemma {:induction false} SelectedIsLatest(tags: map<bytes, ActionTag>, latest: ActionTag, name: bytes)
    requires ValidTags(tags) && Selected(tags, None, tags.Keys, latest) && tags != map[]
    ensures latest.name in tags && (IsLatest(tags, name) <==> name == latest.name)
  {
    var n :| n in tags;
    assert !Excluded(None, n);
    assert IsLatest(tags, latest.name);
    if IsLatest(tags, name) {
      LatestIsUnique(tags, name, latest.name);
    }
  }

  lemma {:induction false} BelowOrEqual(tags: map<bytes, ActionTag>, top: bytes, n: bytes)
    requires ValidTags(tags) && IsLatest(tags, top) && n in tags
    ensures NumbersBelow(n, top, 0) <==> !NumbersEqual(n, top)
  {
    NumbersOrder(n, top);
  }

  lemma {:induction false} SelectedIsLatestBelow(tags: map<bytes, ActionTag>, top: bytes, remaining: ActionTag,
                                                 name: bytes)
    requires ValidTags(tags) && IsLatest(tags, top) && name in tags
    requires Selected(tags, Some(tags[top].version), tags.Keys, remaining)
    ensures IsLatestBelow(tags, name, top) <==> remaining.name != [] && name == remaining.name
  {
    var excluded := Some(tags[top].version);
    forall n | n in tags ensures Excluded(excluded, n) <==> !NumbersBelow(n, top, 0) {
      BelowOrEqual(tags, top, n);
    }
    if IsLatestBelow(tags, name, top) && name != remaining.name {
      if remaining.name != [] {
        AboveIsTotal(name, remaining.name);
      }
    }
  }

  method VerifyActionReference(p: int -> bool, pin: Pin, tags: map<bytes, ActionTag>) returns (ok: bool)
    requires ValidTags(tags)
    ensures ok <==> Current(p, pin, tags)
  {
    if pin.version !in tags || tags[pin.version].commit != WorkflowActionRevision(pin.value) {
      return false;
    }
    var current := tags[pin.version];
    var latest := SelectLatestActionTag(tags, None);
    SelectedIsLatest(tags, latest, pin.version);
    SelectedIsLatest(tags, latest, pin.excluded);
    CompareIsNumeric(current.version, pin.version, latest.version, latest.name);
    BelowOrEqual(tags, latest.name, pin.version);
    var comparison := CompareActionVersion(current.version, latest.version);
    if comparison == 0 {
      return pin.version == latest.name && pin.excluded == [];
    }
    if pin.excluded != latest.name || !ValidText(p, pin.reason) {
      return false;
    }
    var remaining := SelectLatestActionTag(tags, Some(latest.version));
    SelectedIsLatestBelow(tags, latest.name, remaining, pin.version);
    return remaining.name != [] && pin.version == remaining.name;
  }

  // ----- all references -----

  const SLASH: byte := 0x2F
  const LOCAL: bytes := [0x2E, 0x2F]                                           // ./
  const DOCKER: bytes := [0x64, 0x6F, 0x63, 0x6B, 0x65, 0x72, 0x3A, 0x2F, 0x2F]   // docker://

  /** `owner/name` of a value `owner/name[/path]@revision`; empty for one that begins with `./` or `docker://` or has
      another form. The kind of the reference plays no part, so an image may have a repository too. */
  function WorkflowActionRepository(value: bytes): bytes {
    var at := IndexByte(value, AT);
    if LOCAL <= value || DOCKER <= value || at < 0 then []
    else
      var parts := Split(value[..at], SLASH);
      if |parts| < 2 then [] else parts[0] + [SLASH] + parts[1]
  }

  /** The references whose repository, which `of` gives, is this one. */
  function PinsOf(of: Pin -> bytes, references: seq<Pin>, repository: bytes): seq<Pin> {
    if references == [] then []
    else
      var m := |references| - 1;
      PinsOf(of, references[..m], repository) + if of(references[m]) == repository then [references[m]] else []
  }

  lemma {:induction false} InPinsOf(of: Pin -> bytes, references: seq<Pin>, repository: bytes, pin: Pin)
    ensures pin in PinsOf(of, references, repository) <==> pin in references && of(pin) == repository
  {
    if references != [] {
      var m := |references| - 1;
      InPinsOf(of, references[..m], repository, pin);
      assert references == references[..m] + [references[m]];
      var last := if of(references[m]) == repository then [references[m]] else [];
      assert pin in PinsOf(of, references, repository) <==>
        pin in PinsOf(of, references[..m], repository) || pin in last;
    }
  }

  /** `dependencies` groups the remote ones among `references` by their repository. */
  ghost predicate Groups(of: Pin -> bytes, dependencies: map<bytes, seq<Pin>>, references: seq<Pin>) {
    && (forall r | r in dependencies :: r != [] && dependencies[r] == PinsOf(of, references, r) != [])
    && (forall pin | pin in references && of(pin) != [] :: of(pin) in dependencies)
  }

  ghost predicate ByRepository(of: Pin -> bytes) {
    forall pin {:trigger WorkflowActionRepository(pin.value)} :: of(pin) == WorkflowActionRepository(pin.value)
  }

  class Dependencies {
    var pins: map<bytes, seq<Pin>>

    constructor ()
      ensures pins == map[]
    {
      pins := map[];
    }

    method AddWorkflowDependencies(references: seq<Pin>, ghost before: seq<Pin>, ghost of: Pin -> bytes)
      requires ByRepository(of) && Groups(of, pins, before)
      modifies this
      ensures Groups(of, pins, before + references)
    {
      ghost var added := before;
      assert before + references[..0] == before;
      for i := 0 to |references|
        invariant added == before + references[..i] && Groups(of, pins, added)
      {
        AddDependency(references[i], added, of);
        assert before + references[..i + 1] == (before + references[..i]) + [references[i]];
        added := added + [references[i]];
      }
      assert references[..|references|] == references;
    }

    method AddDependency(pin: Pin, ghost before: seq<Pin>, ghost of: Pin -> bytes)
      requires ByRepository(of) && Groups(of, pins, before)
      modifies this
      ensures Groups(of, pins, before + [pin])
    {
      var repository := WorkflowActionRepository(pin.value);
      assert of(pin) == repository;
      GroupNext(of, pins, before, pin);
      if repository != [] {
        pins := pins[repository := (if repository in pins then pins[repository] else []) + [pin]];
      }
    }
  }

  lemma {:induction false} GroupNext(of: Pin -> bytes, dependencies: map<bytes, seq<Pin>>, references: seq<Pin>,
                                     pin: Pin)
    requires Groups(of, dependencies, references)
    ensures var r, more := of(pin), references + [pin];
      if r == [] then Groups(of, dependencies, more)
      else Groups(of, dependencies[r := (if r in dependencies then dependencies[r] else []) + [pin]], more)
  {
    var r := of(pin);
    if r != [] && r !in dependencies {
      NonePinned(of, references, r);
    }
    forall n ensures PinsOf(of, references + [pin], n) == PinsOf(of, references, n) + if r == n then [pin] else [] {
      assert (references + [pin])[..|references|] == references;
    }
  }

  lemma {:induction false} NonePinned(of: Pin -> bytes, references: seq<Pin>, r: bytes)
    requires forall pin | pin in references :: of(pin) != r
    ensures PinsOf(of, references, r) == []
  {
    if references != [] {
      NonePinned(of, references[..|references| - 1], r);
    }
  }

  /** What a remote answers: the output of `git ls-remote --tags`, within the limit of the command, or a failure. */
  type Remote = f: bytes -> Option<bytes> |
    forall r :: f(r).Some? ==> |f(r).value| <= MAX_REPOSITORY_COMMAND_BYTES witness r => None

  /** The repository of the pin answers with an acceptable listing, and the pin is current in it. */
  ghost predicate CurrentAt(p: int -> bool, remote: Remote, pin: Pin, repository: bytes) {
    && remote(repository).Some?
    && var lines := multiset(Lines(remote(repository).value));
       Acceptable(lines) && exists tags :: ValidTags(tags) && Agrees(tags, lines) && Current(p, pin, tags)
  }

  lemma {:induction false} AgreeingTags(source: bytes, tags: map<bytes, ActionTag>)
    requires Agrees(tags, multiset(Lines(source)))
    ensures ValidTags(tags)
    ensures forall other | Agrees(other, multiset(Lines(source))) :: other == tags
  {
    forall n | n in tags ensures tags[n].name == [] && Represents(tags[n].version, n) {
      assert TagAgrees(tags[n], n, multiset(Lines(source)));
    }
    forall other | Agrees(other, multiset(Lines(source))) ensures other == tags {
      ListingOrderIsIrrelevant(source, source, other, tags);
    }
  }

  lemma {:induction false} CurrentHere(p: int -> bool, remote: Remote, pin: Pin, repository: bytes,
                                       tags: map<bytes, ActionTag>)
    requires remote(repository).Some? && Acceptable(multiset(Lines(remote(repository).value)))
    requires Agrees(tags, multiset(Lines(remote(repository).value)))
    ensures ValidTags(tags)
    ensures CurrentAt(p, remote, pin, repository) <==> Current(p, pin, tags)
  {
    AgreeingTags(remote(repository).value, tags);
  }

  ghost predicate RepositoryCurrent(p: int -> bool, remote: Remote, repository: bytes, pins: seq<Pin>) {
    forall i | 0 <= i < |pins| :: CurrentAt(p, remote, pins[i], repository)
  }

  ghost predicate PinsCurrent(p: int -> bool, pins: seq<Pin>, tags: map<bytes, ActionTag>)
    requires ValidTags(tags)
  {
    forall i | 0 <= i < |pins| :: Current(p, pins[i], tags)
  }

  lemma {:induction false} PinsCurrentHere(p: int -> bool, remote: Remote, repository: bytes, pins: seq<Pin>,
                                           tags: map<bytes, ActionTag>)
    requires remote(repository).Some? && Acceptable(multiset(Lines(remote(repository).value)))
    requires Agrees(tags, multiset(Lines(remote(repository).value)))
    ensures ValidTags(tags)
    ensures RepositoryCurrent(p, remote, repository, pins) <==> PinsCurrent(p, pins, tags)
  {
    AgreeingTags(remote(repository).value, tags);
    forall i | 0 <= i < |pins| ensures CurrentAt(p, remote, pins[i], repository) <==> Current(p, pins[i], tags) {
      CurrentHere(p, remote, pins[i], repository, tags);
    }
  }

  /** `current` says of a pin whether it is current. */
  ghost predicate Decides(current: Pin -> bool, p: int -> bool, tags: map<bytes, ActionTag>)
    requires ValidTags(tags)
  {
    forall pin {:trigger Current(p, pin, tags)} :: current(pin) <==> Current(p, pin, tags)
  }

  method VerifyPin(p: int -> bool, pin: Pin, tags: map<bytes, ActionTag>, ghost current: Pin -> bool) returns (ok: bool)
    requires ValidTags(tags) && Decides(current, p, tags)
    ensures ok <==> current(pin)
  {
    ok := VerifyActionReference(p, pin, tags);
  }

  method VerifyPins(p: int -> bool, pins: seq<Pin>, tags: map<bytes, ActionTag>, ghost current: Pin -> bool)
    returns (ok: bool)
    requires ValidTags(tags) && Decides(current, p, tags)
    ensures ok <==> forall j | 0 <= j < |pins| :: current(pins[j])
  {
    for i := 0 to |pins|
      invariant forall j | 0 <= j < i :: current(pins[j])
    {
      var verified := VerifyPin(p, pins[i], tags, current);
      if !verified {
        return false;
      }
    }
    return true;
  }

  method VerifyRepository(p: int -> bool, remote: Remote, repository: bytes, pins: seq<Pin>) returns (ok: bool)
    requires pins != []
    ensures ok <==> RepositoryCurrent(p, remote, repository, pins)
  {
    assert RepositoryCurrent(p, remote, repository, pins) ==> CurrentAt(p, remote, pins[0], repository);
    var answer := remote(repository);
    if answer.None? {
      return false;
    }
    var parsed := ParseActionTags(answer.value);
    if parsed.None? {
      return false;
    }
    PinsCurrentHere(p, remote, repository, pins, parsed.value);
    ghost var tags := parsed.value;
    ghost var current: Pin -> bool := pin => ValidTags(tags) && Current(p, pin, tags);
    ok := VerifyPins(p, pins, parsed.value, current);
  }

  /** Every reference with a repository is pinned to its newest tag, or to the newest below an excluded one. */
  ghost predicate AllCurrent(p: int -> bool, remote: Remote, references: seq<Pin>) {
    forall pin | pin in references && WorkflowActionRepository(pin.value) != [] ::
      CurrentAt(p, remote, pin, WorkflowActionRepository(pin.value))
  }

  /** Each repository is asked once for all of its pins; a cancelled check never succeeds. */
  method VerifyDependencies(p: int -> bool, remote: Remote, dependencies: map<bytes, seq<Pin>>,
                            ghost references: seq<Pin>, ghost of: Pin -> bytes, ctx: Context) returns (ok: bool)
    requires ByRepository(of) && Groups(of, dependencies, references)
    modifies ctx
    ensures old(ctx.Alive()) ==> ctx.Alive()
    ensures ok ==> AllCurrent(p, remote, references) && !ctx.done
    ensures !ok ==> !AllCurrent(p, remote, references) || ctx.done
  {
    var rest := dependencies.Keys;
    while rest != {}
      invariant rest <= dependencies.Keys && ctx.done == old(ctx.done)
      invariant forall r | r in dependencies && r !in rest :: RepositoryCurrent(p, remote, r, dependencies[r])
      decreases |rest|
    {
      var repository :| repository in rest;
      var pins := dependencies[repository];
      var verified := VerifyRepository(p, remote, repository, pins);
      if !verified {
        NotAllCurrent(p, remote, references, dependencies, repository, of);
        return false;
      }
      rest := rest - {repository};
    }
    AllAreCurrent(p, remote, references, dependencies, of);
    var cancelled := ctx.Err();
    return !cancelled;
  }

  lemma {:induction false} NotAllCurrent(p: int -> bool, remote: Remote, references: seq<Pin>,
                                         dependencies: map<bytes, seq<Pin>>, r: bytes, of: Pin -> bytes)
    requires ByRepository(of) && Groups(of, dependencies, references) && r in dependencies
    requires !RepositoryCurrent(p, remote, r, dependencies[r])
    ensures !AllCurrent(p, remote, references)
  {
    var i :| 0 <= i < |dependencies[r]| && !CurrentAt(p, remote, dependencies[r][i], r);
    InPinsOf(of, references, r, dependencies[r][i]);
  }

  lemma {:induction false} AllAreCurrent(p: int -> bool, remote: Remote, references: seq<Pin>,
                                         dependencies: map<bytes, seq<Pin>>, of: Pin -> bytes)
    requires ByRepository(of) && Groups(of, dependencies, references)
    requires forall r | r in dependencies :: RepositoryCurrent(p, remote, r, dependencies[r])
    ensures AllCurrent(p, remote, references)
  {
    forall pin | pin in references && WorkflowActionRepository(pin.value) != []
      ensures CurrentAt(p, remote, pin, WorkflowActionRepository(pin.value))
    {
      var r := WorkflowActionRepository(pin.value);
      InPinsOf(of, references, r, pin);
      assert RepositoryCurrent(p, remote, r, dependencies[r]);
    }
  }
}

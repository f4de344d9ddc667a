/** The tag lines of `git ls-remote` (goverify/workflow_currency.go). What a listing means is said of the multiset
of its lines, so the order in which a remote lists its tags can have no influence. */
module ActionTags {
  import opened Options
  import opened ExactWrite
  import opened TextLines
  import opened ActionVersions

  const TAB: byte := 0x09
  const WORKFLOW_COMMIT_BYTES := 40
  const MAX_REPOSITORY_COMMAND_BYTES := 0x10_0000
  const REFS_TAGS: bytes := [0x72, 0x65, 0x66, 0x73, 0x2F, 0x74, 0x61, 0x67, 0x73, 0x2F]   // refs/tags/
  const PEELED: bytes := [0x5E, 0x7B, 0x7D]                                                // ^{}

  datatype ActionTag = ActionTag(name: bytes, version: ActionVersion, commit: bytes, base: bool, peeled: bool)

  const NO_TAG := ActionTag([], NO_VERSION, [], false, false)

  predicate LowerHex(value: bytes, length: nat) {
    |value| == length && forall i | 0 <= i < |value| :: 0x30 <= value[i] <= 0x39 || 0x61 <= value[i] <= 0x66
  }

  // ----- lines -----

  /** A commit, a tab, and a reference without tabs. */
  predicate WellFormed(line: bytes) {
    && |line| > WORKFLOW_COMMIT_BYTES && line[WORKFLOW_COMMIT_BYTES] == TAB
    && LowerHex(line[..WORKFLOW_COMMIT_BYTES], WORKFLOW_COMMIT_BYTES)
    && TAB !in line[WORKFLOW_COMMIT_BYTES + 1..]
  }

  datatype Entry = Entry(name: bytes, peeled: bool, commit: bytes)

  function ActionTagName(reference: bytes): (r: Option<(bytes, bool)>)
    ensures r.Some? ==> |r.value.0| <= |reference|
  {
    if !(REFS_TAGS <= reference) || |reference| == |REFS_TAGS| then None
    else
      var name := reference[|REFS_TAGS|..];
      var m: int := |name| - |PEELED|;
      if m >= 0 && name[m..] == PEELED then (if m == 0 then None else Some((name[..m], true)))
      else Some((name, false))
  }

  /** What a line says about a version tag; other references say nothing. */
  function EntryOf(line: bytes): (e: Option<Entry>)
    ensures e.Some? ==>
      WellFormed(line) && ValidVersion(e.value.name) && LowerHex(e.value.commit, WORKFLOW_COMMIT_BYTES)
    ensures e.Some? ==> |e.value.name| <= |line|
  {
    if !WellFormed(line) then None
    else
      match ActionTagName(line[WORKFLOW_COMMIT_BYTES + 1..])
      case None => None
      case Some(found) =>
        if ValidVersion(found.0) then Some(Entry(found.0, found.1, line[..WORKFLOW_COMMIT_BYTES])) else None
  }

  predicate Says(line: bytes, name: bytes, peeled: bool) {
    EntryOf(line).Some? && EntryOf(line).value.name == name && EntryOf(line).value.peeled == peeled
  }

  predicate Clash(a: bytes, b: bytes) {
    EntryOf(a).Some? && Says(b, EntryOf(a).value.name, EntryOf(a).value.peeled)
  }

  // ----- listings -----

  ghost predicate Has(lines: multiset<bytes>, name: bytes, peeled: bool) {
    exists l | l in lines :: Says(l, name, peeled)
  }

  /** Every line has the right form, and no tag is listed twice in the same way. */
  ghost predicate Clean(lines: multiset<bytes>) {
    && (forall l | l in lines :: l == [] || WellFormed(l))
    && (forall a, b | a in lines && b in lines && Clash(a, b) :: a == b)
    && (forall l | l in lines && EntryOf(l).Some? :: lines[l] == 1)
  }

  /** A listing is accepted when it is clean, lists a version tag, and lists every peeled tag also by itself. */
  ghost predicate Acceptable(lines: multiset<bytes>) {
    && Clean(lines)
    && (exists l | l in lines :: EntryOf(l).Some?)
    && forall l | l in lines && EntryOf(l).Some? :: Has(lines, EntryOf(l).value.name, false)
  }

  /** The tag `t` is what the lines say of `name`; the commit of the peeled line wins. */
  ghost predicate TagAgrees(t: ActionTag, name: bytes, lines: multiset<bytes>) {
    && t.name == [] && Represents(t.version, name)
    && (t.base <==> Has(lines, name, false)) && (t.peeled <==> Has(lines, name, true))
    && forall l | l in lines && Says(l, name, t.peeled) :: t.commit == EntryOf(l).value.commit
  }

  ghost predicate Agrees(tags: map<bytes, ActionTag>, lines: multiset<bytes>) {
    && (forall n | n in tags :: (tags[n].base || tags[n].peeled) && TagAgrees(tags[n], n, lines))
    && (forall l | l in lines && EntryOf(l).Some? :: EntryOf(l).value.name in tags)
  }

  /** The lines determine the tags: every listing of the same lines, in any order, gives the same map. */
  lemma {:induction false} ListingOrderIsIrrelevant(a: bytes, b: bytes, s: map<bytes, ActionTag>,
                                                    t: map<bytes, ActionTag>)
    requires multiset(Lines(a)) == multiset(Lines(b))
    requires Agrees(s, multiset(Lines(a))) && Agrees(t, multiset(Lines(b)))
    ensures s == t
  {
    var lines := multiset(Lines(a));
    SameTags(s, t, lines);
    SameTags(t, s, lines);
    SameMaps(s, t);
  }

  lemma {:induction false} SameMaps(s: map<bytes, ActionTag>, t: map<bytes, ActionTag>)
    requires (forall n | n in s :: n in t && s[n] == t[n]) && forall n | n in t :: n in s
    ensures s == t
  {
    assert s.Keys == t.Keys;
  }

  lemma {:induction false} SameTags(s: map<bytes, ActionTag>, t: map<bytes, ActionTag>, lines: multiset<bytes>)
    requires Agrees(s, lines) && Agrees(t, lines)
    ensures forall n | n in s :: n in t && s[n] == t[n]
  {
    forall n | n in s ensures n in t && s[n] == t[n] {
      assert TagAgrees(s[n], n, lines);
      assert Has(lines, n, s[n].peeled);
      var l :| l in lines && Says(l, n, s[n].peeled);
      assert TagAgrees(t[n], n, lines);
      RepresentsOne(s[n].version, t[n].version, n);
    }
  }

  /** On acceptance every tag has a line of its own and a commit of 40 digits, which its peeled line gives if it has
      one. */
  lemma {:induction false} SurvivingTags(tags: map<bytes, ActionTag>, lines: multiset<bytes>, n: bytes)
    requires Acceptable(lines) && Agrees(tags, lines) && n in tags
    ensures tags[n].base && LowerHex(tags[n].commit, WORKFLOW_COMMIT_BYTES) && ValidVersion(n)
    ensures forall l | l in lines && Says(l, n, true) :: tags[n].commit == EntryOf(l).value.commit
  {
    assert TagAgrees(tags[n], n, lines);
    assert Has(lines, n, tags[n].peeled);
    var l :| l in lines && Says(l, n, tags[n].peeled);
    assert Has(lines, EntryOf(l).value.name, false);
  }

  // ----- one more line -----

  lemma {:induction false} CleanPart(part: multiset<bytes>, lines: multiset<bytes>)
    requires part <= lines
    ensures Clean(lines) ==> Clean(part)
  {
    forall l | l in part ensures l in lines && part[l] <= lines[l] {
    }
  }

  lemma {:induction false} NextLine(lines: seq<bytes>, i: nat)
    requires i < |lines|
    ensures multiset(lines[..i + 1]) == multiset(lines[..i]) + multiset{lines[i]}
    ensures Clean(multiset(lines)) ==> Clean(multiset(lines[..i + 1]))
  {
    assert lines[..i + 1] == lines[..i] + [lines[i]];
    assert lines == lines[..i + 1] + lines[i + 1..];
    CleanPart(multiset(lines[..i + 1]), multiset(lines));
  }

  lemma {:induction false} HasMore(lines: multiset<bytes>, line: bytes, name: bytes, peeled: bool)
    ensures Has(lines + multiset{line}, name, peeled) <==> Has(lines, name, peeled) || Says(line, name, peeled)
  {
    var more := lines + multiset{line};
    if Has(lines, name, peeled) {
      var l :| l in lines && Says(l, name, peeled);
      assert l in more;
    }
    if Says(line, name, peeled) {
      assert line in more;
    }
  }

  lemma {:induction false} Unlisted(tags: map<bytes, ActionTag>, lines: multiset<bytes>, line: bytes)
    requires Clean(lines) && Agrees(tags, lines)
    requires EntryOf(line).None? && (line == [] || WellFormed(line))
    ensures Clean(lines + multiset{line}) && Agrees(tags, lines + multiset{line})
  {
    var more := lines + multiset{line};
    forall n | n in tags ensures TagAgrees(tags[n], n, more) {
      HasMore(lines, line, n, false);
      HasMore(lines, line, n, true);
      assert TagAgrees(tags[n], n, lines);
    }
  }

  lemma {:induction false} Repeated(lines: multiset<bytes>, line: bytes)
    requires EntryOf(line).Some? && Has(lines, EntryOf(line).value.name, EntryOf(line).value.peeled)
    ensures !Clean(lines + multiset{line})
  {
    var more := lines + multiset{line};
    var l :| l in lines && Says(l, EntryOf(line).value.name, EntryOf(line).value.peeled);
    assert l in more && line in more && Clash(l, line);
    if l == line {
      assert more[line] >= 2;
    }
  }

  lemma {:induction false} Listed(lines: multiset<bytes>, line: bytes)
    requires Clean(lines)
    requires EntryOf(line).Some? && !Has(lines, EntryOf(line).value.name, EntryOf(line).value.peeled)
    ensures Clean(lines + multiset{line})
  {
    var e := EntryOf(line).value;
    var more := lines + multiset{line};
    assert forall l | l in lines :: !Says(l, e.name, e.peeled);
    assert Says(line, e.name, e.peeled);
    assert line !in lines;
  }

  /** The tag after a line that says something new about it. */
  function Updated(t: ActionTag, version: ActionVersion, e: Entry): ActionTag {
    if e.peeled then ActionTag(t.name, version, e.commit, t.base, true)
    else ActionTag(t.name, version, if t.peeled then t.commit else e.commit, true, t.peeled)
  }

  lemma {:induction false} UpdateAgrees(tags: map<bytes, ActionTag>, lines: multiset<bytes>, line: bytes,
                                        version: ActionVersion)
    requires Clean(lines) && Agrees(tags, lines) && EntryOf(line).Some?
    requires var e := EntryOf(line).value; !Has(lines, e.name, e.peeled) && Represents(version, e.name)
    ensures var e := EntryOf(line).value;
      var t := if e.name in tags then tags[e.name] else NO_TAG;
      Agrees(tags[e.name := Updated(t, version, e)], lines + multiset{line})
  {
    var e := EntryOf(line).value;
    var t := if e.name in tags then tags[e.name] else NO_TAG;
    var more := lines + multiset{line};
    var updated := tags[e.name := Updated(t, version, e)];
    forall n | n in updated ensures (updated[n].base || updated[n].peeled) && TagAgrees(updated[n], n, more) {
      HasMore(lines, line, n, false);
      HasMore(lines, line, n, true);
      if n == e.name {
        UpdatedAgrees(tags, lines, line, version);
      } else {
        assert TagAgrees(tags[n], n, lines);
      }
    }
  }

  lemma {:induction false} UpdatedAgrees(tags: map<bytes, ActionTag>, lines: multiset<bytes>, line: bytes,
                                         version: ActionVersion)
    requires Clean(lines) && Agrees(tags, lines) && EntryOf(line).Some?
    requires var e := EntryOf(line).value; !Has(lines, e.name, e.peeled) && Represents(version, e.name)
    ensures var e := EntryOf(line).value;
      var t := if e.name in tags then tags[e.name] else NO_TAG;
      TagAgrees(Updated(t, version, e), e.name, lines + multiset{line})
  {
    var e := EntryOf(line).value;
    var t := if e.name in tags then tags[e.name] else NO_TAG;
    HasMore(lines, line, e.name, false);
    HasMore(lines, line, e.name, true);
    assert Says(line, e.name, e.peeled);
    if e.name in tags {
      assert TagAgrees(t, e.name, lines);
    } else {
      assert forall l | l in lines :: !Says(l, e.name, false) && !Says(l, e.name, true);
    }
  }

  // ----- the parser -----

  class TagMap {
    var tags: map<bytes, ActionTag>

    constructor ()
      ensures tags == map[]
    {
      tags := map[];
    }

    /** Takes one line after those in `lines`; fails exactly when the listing is no longer clean. */
    method AddActionTag(line: bytes, ghost lines: multiset<bytes>) returns (ok: bool)
      requires Clean(lines) && Agrees(tags, lines) && line != [] && |line| < UINT32
      modifies this
      ensures ok <==> Clean(lines + multiset{line})
      ensures ok ==> Agrees(tags, lines + multiset{line})
    {
      assert line in lines + multiset{line};
      var separator := IndexByte(line, TAB);
      if separator != WORKFLOW_COMMIT_BYTES || IndexByte(line[separator + 1..], TAB) >= 0
         || !LowerHex(line[..separator], WORKFLOW_COMMIT_BYTES) {
        return false;
      }
      var found := ActionTagName(line[separator + 1..]);
      if found.None? {
        Unlisted(tags, lines, line);
        return true;
      }
      var name, peeled := found.value.0, found.value.1;
      var version, valid := ParseActionVersion(name);
      if !valid {
        Unlisted(tags, lines, line);
        return true;
      }
      var tag := if name in tags then tags[name] else NO_TAG;
      ghost var before := tags;
      ghost var e := EntryOf(line).value;
      Repeat(tags, lines, line, tag);
      if peeled {
        if tag.peeled {
          return false;
        }
        tag := tag.(peeled := true, commit := line[..separator]);
      } else {
        if tag.base {
          return false;
        }
        tag := tag.(base := true);
        if !tag.peeled {
          tag := tag.(commit := line[..separator]);
        }
      }
      tag := tag.(version := version);
      tags := tags[name := tag];
      UpdateAgrees(before, lines, line, version);
      return true;
    }
  }

  /** The flag of the tag says whether the line repeats another. */
  lemma {:induction false} Repeat(tags: map<bytes, ActionTag>, lines: multiset<bytes>, line: bytes, tag: ActionTag)
    requires Clean(lines) && Agrees(tags, lines) && EntryOf(line).Some?
    requires tag == if EntryOf(line).value.name in tags then tags[EntryOf(line).value.name] else NO_TAG
    ensures var e := EntryOf(line).value;
      && ((if e.peeled then tag.peeled else tag.base) <==> Has(lines, e.name, e.peeled))
      && (Has(lines, e.name, e.peeled) <==> !Clean(lines + multiset{line}))
  {
    var e := EntryOf(line).value;
    if e.name in tags {
      assert TagAgrees(tag, e.name, lines);
    }
    if Has(lines, e.name, e.peeled) {
      Repeated(lines, line);
    } else {
      Listed(lines, line);
    }
  }

  lemma {:induction false} TagLine(tags: map<bytes, ActionTag>, lines: multiset<bytes>, n: bytes) returns (l: bytes)
    requires Agrees(tags, lines) && n in tags
    ensures l in lines && EntryOf(l).Some? && EntryOf(l).value.name == n
    ensures tags[n].base <==> Has(lines, n, false)
  {
    assert TagAgrees(tags[n], n, lines);
    assert Has(lines, n, tags[n].peeled);
    l :| l in lines && Says(l, n, tags[n].peeled);
  }

  lemma {:induction false} Accepted(tags: map<bytes, ActionTag>, lines: multiset<bytes>)
    requires Clean(lines) && Agrees(tags, lines)
    ensures Acceptable(lines) <==> tags != map[] && forall n | n in tags :: tags[n].base
  {
    forall n | n in tags
      ensures exists l :: l in lines && EntryOf(l).Some? && EntryOf(l).value.name == n
      ensures tags[n].base <==> Has(lines, n, false)
    {
      var l := TagLine(tags, lines, n);
    }
    if tags != map[] {
      var n :| n in tags;
    }
  }

  /** Accepts exactly the acceptable listings, and returns what their lines say. */
  method ParseActionTags(source: bytes) returns (tags: Option<map<bytes, ActionTag>>)
    requires |source| <= MAX_REPOSITORY_COMMAND_BYTES
    ensures tags.Some? <==> Acceptable(multiset(Lines(source)))
    ensures tags.Some? ==> Agrees(tags.value, multiset(Lines(source)))
  {
    var owner := new TagMap();
    var lines := Lines(source);
    PiecesAreShort(source, LF);
    for i := 0 to |lines|
      invariant Clean(multiset(lines[..i])) && Agrees(owner.tags, multiset(lines[..i]))
    {
      NextLine(lines, i);
      if lines[i] == [] {
        Unlisted(owner.tags, multiset(lines[..i]), lines[i]);
        continue;
      }
      var ok := owner.AddActionTag(lines[i], multiset(lines[..i]));
      if !ok {
        return None;
      }
    }
    assert lines[..|lines|] == lines;
    Accepted(owner.tags, multiset(lines));
    var based := AllBased(owner.tags);
    return if based && |owner.tags| != 0 then Some(owner.tags) else None;
  }

  /** The map is read in any order. */
  method AllBased(tags: map<bytes, ActionTag>) returns (based: bool)
    ensures based <==> forall n | n in tags :: tags[n].base
  {
    var names := tags.Keys;
    while names != {}
      invariant names <= tags.Keys
      invariant forall n | n in tags && n !in names :: tags[n].base
      decreases |names|
    {
      var name :| name in names;
      if !tags[name].base {
        return false;
      }
      names := names - {name};
    }
    return true;
  }
}

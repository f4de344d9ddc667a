/** What a remote action is, said of the bytes of a value: `owner/name[/path]@revision`. */
module RemoteActions {
  import opened ExactWrite
  import opened TextLines
  import opened Currency

  /** The parts of a value that names a repository. */
  ghost predicate Parts(value: bytes, owner: bytes, name: bytes, path: bytes, revision: bytes) {
    && value == owner + [SLASH] + name + path + [AT] + revision
    && SLASH !in owner && SLASH !in name && (path != [] ==> path[0] == SLASH)
    && AT !in owner && AT !in name && AT !in path
  }

  /** The value names something else than a local action or an image by URL, in this repository. */
  ghost predicate Names(value: bytes, repository: bytes) {
    && !(Text("./") <= value) && !(Text("docker://") <= value)
    && exists owner, name, path, revision ::
         Parts(value, owner, name, path, revision) && repository == owner + [SLASH] + name
  }

  /** A slash stands before the first `@`, and the value begins with neither `./` nor `docker://`. */
  predicate NamesSome(value: bytes) {
    var at := IndexByte(value, AT);
    !(Text("./") <= value) && !(Text("docker://") <= value) && at >= 0 && SLASH in value[..at]
  }

  lemma {:induction false} Literals()
    ensures Text("./") == LOCAL && Text("docker://") == DOCKER
  {
  }

  lemma {:induction false} SplitFirst(head: bytes, tail: bytes, separator: byte)
    requires separator !in head
    ensures Split(head + [separator] + tail, separator) == [head] + Split(tail, separator)
    decreases |tail|
  {
    if tail == [] {
      SplitWhole(head, separator);
      SplitLast(head, [], separator);
    } else {
      var init, c := tail[..|tail| - 1], tail[|tail| - 1];
      SplitFirst(head, init, separator);
      assert tail == init + [c];
      FirstThenByte(head, init, c, separator);
    }
  }

  lemma {:induction false} FirstThenByte(head: bytes, tail: bytes, c: byte, separator: byte)
    requires Split(head + [separator] + tail, separator) == [head] + Split(tail, separator)
    ensures Split(head + [separator] + (tail + [c]), separator) == [head] + Split(tail + [c], separator)
  {
    var before := head + [separator] + tail;
    assert head + [separator] + (tail + [c]) == before + [c];
    SplitByte(before, c, separator);
    SplitByte(tail, c, separator);
    AddAfter([head], Split(tail, separator), c, separator);
  }

  lemma {:induction false} SplitByte(s: bytes, c: byte, separator: byte)
    ensures Split(s + [c], separator) == AddByte(Split(s, separator), c, separator)
  {
    assert (s + [c])[..|s|] == s;
  }

  lemma {:induction false} SplitWhole(s: bytes, separator: byte)
    requires separator !in s
    ensures Split(s, separator) == [s]
  {
    OpenPiece(s, 0, separator);
    assert s[0..] == s;
  }

  lemma {:induction false} AddAfter(before: seq<bytes>, pieces: seq<bytes>, c: byte, separator: byte)
    requires |pieces| >= 1
    ensures AddByte(before + pieces, c, separator) == before + AddByte(pieces, c, separator)
  {
  }

  /** The first two pieces between slashes. */
  lemma {:induction false} TwoPieces(owner: bytes, name: bytes, path: bytes)
    requires SLASH !in owner && SLASH !in name && (path != [] ==> path[0] == SLASH)
    ensures var parts := Split(owner + [SLASH] + (name + path), SLASH);
      |parts| >= 2 && parts[0] == owner && parts[1] == name
  {
    SplitFirst(owner, name + path, SLASH);
    if path == [] {
      SplitWhole(name, SLASH);
      assert name + path == name;
    } else {
      SplitFirst(name, path[1..], SLASH);
      assert name + path == name + [SLASH] + path[1..];
    }
  }

  /** A text with a slash, cut at its first two. */
  lemma {:induction false} Cut(a: bytes) returns (owner: bytes, name: bytes, path: bytes)
    requires SLASH in a
    ensures a == owner + [SLASH] + (name + path)
    ensures SLASH !in owner && SLASH !in name && (path != [] ==> path[0] == SLASH)
  {
    var i := IndexByte(a, SLASH);
    owner := a[..i];
    name, path := CutName(a[i + 1..]);
    assert a == a[..i] + [a[i]] + a[i + 1..];
  }

  lemma {:induction false} CutName(rest: bytes) returns (name: bytes, path: bytes)
    ensures rest == name + path && SLASH !in name && (path != [] ==> path[0] == SLASH)
  {
    var k := IndexByte(rest, SLASH);
    name, path := if k < 0 then rest else rest[..k], if k < 0 then [] else rest[k..];
  }

  lemma {:induction false} FirstAt(before: bytes, after: bytes)
    requires AT !in before
    ensures IndexByte(before + [AT] + after, AT) == |before| && (before + [AT] + after)[..|before|] == before
  {
    var value := before + [AT] + after;
    var i := IndexByte(value, AT);
    assert value[|before|] == AT && value[..|before|] == before;
    assert forall j | 0 <= j < |before| :: value[j] == before[j] != AT;
    assert forall j | 0 <= j < i :: value[j] == value[..i][j] != AT;
  }

  /** The code finds the repository that the value names, and nothing when it names none. */
  lemma {:induction false} RepositoryExact(value: bytes, repository: bytes)
    ensures Names(value, repository) <==> repository != [] && WorkflowActionRepository(value) == repository
    ensures NamesSome(value) <==> WorkflowActionRepository(value) != []
  {
    Literals();
    if NamesSome(value) {
      Found(value);
    } else if AT in value {
      SplitUnlessSlash(value[..IndexByte(value, AT)]);
    }
    if Names(value, repository) {
      var owner, name, path, revision :|
        Parts(value, owner, name, path, revision) && repository == owner + [SLASH] + name;
      Decided(value, owner, name, path, revision);
    }
  }

  lemma {:induction false} SplitUnlessSlash(a: bytes)
    ensures SLASH !in a ==> |Split(a, SLASH)| == 1
  {
    if SLASH !in a { SplitWhole(a, SLASH); }
  }

  lemma {:induction false} Found(value: bytes)
    requires NamesSome(value)
    ensures WorkflowActionRepository(value) != [] && Names(value, WorkflowActionRepository(value))
  {
    Literals();
    var at := IndexByte(value, AT);
    var owner, name, path := Cut(value[..at]);
    var revision := value[at + 1..];
    TwoPieces(owner, name, path);
    assert value == value[..at] + [AT] + revision;
    assert value[..at] == owner + [SLASH] + name + path;
    assert forall b :: b in owner || b in name || b in path ==> b in value[..at];
    assert Parts(value, owner, name, path, revision);
  }

  lemma {:induction false} Decided(value: bytes, owner: bytes, name: bytes, path: bytes, revision: bytes)
    requires Parts(value, owner, name, path, revision) && !(LOCAL <= value) && !(DOCKER <= value)
    ensures WorkflowActionRepository(value) == owner + [SLASH] + name
    ensures WorkflowActionRevision(value) == revision
  {
    var before := owner + [SLASH] + name + path;
    NoAt(owner, name, path);
    FirstAt(before, revision);
    TwoPieces(owner, name, path);
    assert before == owner + [SLASH] + (name + path);
    assert value == before + [AT] + revision;
  }

  lemma {:induction false} NoAt(owner: bytes, name: bytes, path: bytes)
    requires AT !in owner && AT !in name && AT !in path
    ensures AT !in owner + [SLASH] + name + path
  {
  }

  /** Without a version beside the pin nothing is current, whatever the remote answers. */
  lemma {:induction false} UnversionedIsStale(p: int -> bool, remote: Remote, pin: Pin, repository: bytes)
    requires pin.version == []
    ensures !CurrentAt(p, remote, pin, repository)
  {
  }
}

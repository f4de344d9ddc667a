/** What a tag listing says, in the lines that a remote prints: a commit, a tab, `refs/tags/` and a name; the line of a
peeled tag ends in `^{}`. */
module TagLines {
  import opened Options
  import opened ExactWrite
  import opened TextLines
  import opened Decimal
  import opened ActionVersions
  import opened ActionTags

  function BaseLine(commit: bytes, name: bytes): bytes {
    commit + (Text("\trefs/tags/") + name)
  }

  function PeeledLine(commit: bytes, name: bytes): bytes {
    commit + (Text("\trefs/tags/") + (name + Text("^{}")))
  }

  /** A commit of forty lower-case hexadecimal digits, and a version. */
  predicate Pinned(commit: bytes, name: bytes) {
    LowerHex(commit, 40) && ValidVersion(name)
  }

  lemma {:induction false} LowerHexExact(value: bytes, length: nat)
    ensures LowerHex(value, length) <==> |value| == length && forall b <- value :: b in Text("0123456789abcdef")
  {
    forall b: byte ensures b in Text("0123456789abcdef") <==> IsHexDigit(b) {
      HexDigits(b);
    }
    if |value| == length && forall b <- value :: IsHexDigit(b) {
      assert forall i | 0 <= i < |value| :: IsHexDigit(value[i]);
    }
  }

  predicate IsHexDigit(b: byte) {
    0x30 <= b <= 0x39 || 0x61 <= b <= 0x66
  }

  lemma {:induction false} HexDigits(b: byte)
    ensures b in Text("0123456789abcdef") <==> IsHexDigit(b)
  {
    HexText();
  }

  lemma {:induction false} HexText()
    ensures Text("0123456789abcdef") == [0x30, 0x31, 0x32, 0x33, 0x34, 0x35, 0x36, 0x37, 0x38, 0x39,
                                         0x61, 0x62, 0x63, 0x64, 0x65, 0x66]
  {
  }

  // ----- the bytes of a version -----

  predicate VersionByte(b: byte) {
    b == V || b == DOT || IsDigit(b)
  }

  lemma {:induction false} JoinHolds(pieces: seq<bytes>, separator: byte, holds: byte -> bool)
    requires pieces != [] && holds(separator) && forall i | 0 <= i < |pieces| :: forall b <- pieces[i] :: holds(b)
    ensures forall b <- Join(pieces, separator) :: holds(b)
    decreases |pieces|
  {
    var m := |pieces| - 1;
    if m > 0 {
      JoinHolds(pieces[..m], separator, holds);
      assert forall b <- pieces[m] :: holds(b);
    }
  }

  lemma {:induction false} NameBytes(name: bytes)
    requires ValidVersion(name)
    ensures name != [] && forall b <- name :: VersionByte(b)
  {
    var parts := Parts(name);
    forall i | 0 <= i < |parts| ensures forall b <- parts[i] :: VersionByte(b) {
      assert Canonical(parts[i]);
    }
    JoinSplit(name[1..], DOT);
    JoinHolds(parts, DOT, VersionByte);
    assert name == [V] + name[1..];
  }

  // ----- one line -----

  lemma {:induction false} Prefixes()
    ensures Text("\trefs/tags/") == [TAB] + REFS_TAGS && Text("^{}") == PEELED
    ensures TAB !in REFS_TAGS && TAB !in PEELED
  {
  }

  /** How the name of a tag is read from its reference. */
  lemma {:induction false} NamesAreRead(name: bytes)
    requires ValidVersion(name)
    ensures ActionTagName(REFS_TAGS + name) == Some((name, false))
    ensures ActionTagName(REFS_TAGS + (name + PEELED)) == Some((name, true))
  {
    NameBytes(name);
    assert name[|name| - 1] in name;
    assert (REFS_TAGS + name)[|REFS_TAGS|..] == name;
    var peeled := name + PEELED;
    assert (REFS_TAGS + peeled)[|REFS_TAGS|..] == peeled;
    assert peeled[|name|..] == PEELED && peeled[..|name|] == name;
    assert |name| >= 3 ==> name[|name| - 3..][2] == name[|name| - 1] != PEELED[2];
  }

  lemma {:induction false} LineParts(commit: bytes, reference: bytes)
    requires LowerHex(commit, 40) && TAB !in reference
    ensures var line := commit + ([TAB] + reference);
      WellFormed(line) && line[..40] == commit && line[41..] == reference
  {
  }

  /** The line of a version tag says that it is a base tag with this commit, and the line of its peeled form that it is
      peeled, with that line's commit. */
  lemma {:induction false} PrintedEntries(commit: bytes, name: bytes)
    requires Pinned(commit, name)
    ensures EntryOf(BaseLine(commit, name)) == Some(Entry(name, false, commit))
    ensures EntryOf(PeeledLine(commit, name)) == Some(Entry(name, true, commit))
  {
    NamesAreRead(name);
    NamesHaveNoTab(name);
    LineIsRead(commit, REFS_TAGS + name, name, false);
    LineIsRead(commit, REFS_TAGS + (name + PEELED), name, true);
    PrintedReferences(name);
  }

  lemma {:induction false} NamesHaveNoTab(name: bytes)
    requires ValidVersion(name)
    ensures TAB !in REFS_TAGS + name && TAB !in REFS_TAGS + (name + PEELED)
  {
    Prefixes();
    NameBytes(name);
  }

  lemma {:induction false} PrintedReferences(name: bytes)
    ensures Text("\trefs/tags/") + name == [TAB] + (REFS_TAGS + name)
    ensures Text("\trefs/tags/") + (name + Text("^{}")) == [TAB] + (REFS_TAGS + (name + PEELED))
  {
    Prefixes();
  }

  lemma {:induction false} LineIsRead(commit: bytes, reference: bytes, name: bytes, peeled: bool)
    requires Pinned(commit, name) && TAB !in reference && ActionTagName(reference) == Some((name, peeled))
    ensures EntryOf(commit + ([TAB] + reference)) == Some(Entry(name, peeled, commit))
  {
    LineParts(commit, reference);
  }

  /** Every line that says something about a version tag is one of these. */
  lemma {:induction false} EntriesArePrinted(line: bytes)
    requires EntryOf(line).Some?
    ensures var e := EntryOf(line).value;
      Pinned(e.commit, e.name) && line == if e.peeled then PeeledLine(e.commit, e.name) else BaseLine(e.commit, e.name)
  {
    Prefixes();
    var e := EntryOf(line).value;
    var reference := line[41..];
    ReadName(reference);
    assert line == e.commit + ([TAB] + reference);
  }

  lemma {:induction false} ReadName(reference: bytes)
    requires ActionTagName(reference).Some?
    ensures var (name, peeled) := ActionTagName(reference).value;
      [TAB] + reference == Text("\trefs/tags/") + if peeled then name + Text("^{}") else name
  {
    Prefixes();
    var rest := reference[|REFS_TAGS|..];
    var (name, peeled) := ActionTagName(reference).value;
    assert reference == REFS_TAGS + rest;
    assert rest == if peeled then name + PEELED else name;
  }

  lemma {:induction false} WellFormedExact(line: bytes)
    ensures WellFormed(line) <==>
      exists commit, reference :: LowerHex(commit, 40) && TAB !in reference && line == commit + ([TAB] + reference)
  {
    if WellFormed(line) {
      var commit, reference := line[..40], line[41..];
      assert LowerHex(commit, 40) && TAB !in reference && line == commit + ([TAB] + reference);
    }
    if commit, reference :| LowerHex(commit, 40) && TAB !in reference && line == commit + ([TAB] + reference) {
      LineParts(commit, reference);
    }
  }

  // ----- a listing -----

  /** The listing has a line for the tag itself. */
  ghost predicate ListsBase(lines: multiset<bytes>, name: bytes) {
    exists commit :: Pinned(commit, name) && BaseLine(commit, name) in lines
  }

  lemma {:induction false} HasBase(lines: multiset<bytes>, name: bytes)
    ensures Has(lines, name, false) <==> ListsBase(lines, name)
  {
    if l :| l in lines && Says(l, name, false) {
      EntriesArePrinted(l);
    }
    if commit :| Pinned(commit, name) && BaseLine(commit, name) in lines {
      PrintedEntries(commit, name);
      assert Says(BaseLine(commit, name), name, false);
    }
  }

  /** No version is listed twice, neither by itself nor peeled. */
  ghost predicate OnceEach(lines: multiset<bytes>) {
    && (forall c, d, n | Pinned(c, n) && Pinned(d, n) && BaseLine(c, n) in lines && BaseLine(d, n) in lines :: c == d)
    && (forall c, d, n | Pinned(c, n) && Pinned(d, n) && PeeledLine(c, n) in lines && PeeledLine(d, n) in lines ::
          c == d)
    && (forall c, n | Pinned(c, n) :: lines[BaseLine(c, n)] <= 1 && lines[PeeledLine(c, n)] <= 1)
  }

  lemma {:induction false} CleanExact(lines: multiset<bytes>)
    ensures Clean(lines) <==> (forall l | l in lines :: l == [] || WellFormed(l)) && OnceEach(lines)
  {
    forall c, n | Pinned(c, n)
      ensures EntryOf(BaseLine(c, n)) == Some(Entry(n, false, c))
      ensures EntryOf(PeeledLine(c, n)) == Some(Entry(n, true, c))
    {
      PrintedEntries(c, n);
    }
    if Clean(lines) {
      CleanIsOnce(lines);
    }
    if (forall l | l in lines :: l == [] || WellFormed(l)) && OnceEach(lines) {
      forall a, b | a in lines && b in lines && Clash(a, b) ensures a == b {
        EntriesArePrinted(a);
        EntriesArePrinted(b);
      }
      forall l | l in lines && EntryOf(l).Some? ensures lines[l] == 1 {
        EntriesArePrinted(l);
      }
    }
  }

  lemma {:induction false} CleanIsOnce(lines: multiset<bytes>)
    requires Clean(lines)
    ensures OnceEach(lines)
  {
    forall c, d, n | Pinned(c, n) && Pinned(d, n) && BaseLine(c, n) in lines && BaseLine(d, n) in lines
      ensures c == d
    {
      PrintedEntries(c, n);
      PrintedEntries(d, n);
      assert Clash(BaseLine(c, n), BaseLine(d, n));
    }
    forall c, d, n | Pinned(c, n) && Pinned(d, n) && PeeledLine(c, n) in lines && PeeledLine(d, n) in lines
      ensures c == d
    {
      PrintedEntries(c, n);
      PrintedEntries(d, n);
      assert Clash(PeeledLine(c, n), PeeledLine(d, n));
    }
    forall c, n | Pinned(c, n) ensures lines[BaseLine(c, n)] <= 1 && lines[PeeledLine(c, n)] <= 1 {
      PrintedEntries(c, n);
      assert BaseLine(c, n) in lines ==> lines[BaseLine(c, n)] == 1;
      assert PeeledLine(c, n) in lines ==> lines[PeeledLine(c, n)] == 1;
    }
  }

  /** A listing is accepted exactly when its lines are empty or have the right form, no version is listed twice, some
      version is listed, and every peeled version is listed by itself as well. */
  lemma {:induction false} AcceptableExact(lines: multiset<bytes>)
    ensures Acceptable(lines) <==>
      && (forall l | l in lines :: l == [] || WellFormed(l)) && OnceEach(lines)
      && (exists n :: ListsBase(lines, n))
      && forall c, n | Pinned(c, n) && PeeledLine(c, n) in lines :: ListsBase(lines, n)
  {
    CleanExact(lines);
    forall n ensures Has(lines, n, false) <==> ListsBase(lines, n) { HasBase(lines, n); }
    forall l | l in lines && EntryOf(l).Some?
      ensures var e := EntryOf(l).value;
        Pinned(e.commit, e.name) && l == if e.peeled then PeeledLine(e.commit, e.name) else BaseLine(e.commit, e.name)
    {
      EntriesArePrinted(l);
    }
    forall c, n | Pinned(c, n)
      ensures EntryOf(BaseLine(c, n)) == Some(Entry(n, false, c))
      ensures EntryOf(PeeledLine(c, n)) == Some(Entry(n, true, c))
    {
      PrintedEntries(c, n);
    }
  }

  /** The tags are the versions that are listed by themselves. The commit of the peeled line wins, and without one it is
      that of the base line. */
  lemma {:induction false} TagsOfLines(tags: map<bytes, ActionTag>, lines: multiset<bytes>, n: bytes)
    requires Acceptable(lines) && Agrees(tags, lines)
    ensures n in tags <==> ListsBase(lines, n)
    ensures forall c | Pinned(c, n) && PeeledLine(c, n) in lines :: n in tags && tags[n].commit == c
    ensures forall c | Pinned(c, n) && BaseLine(c, n) in lines ::
      (forall d | Pinned(d, n) :: PeeledLine(d, n) !in lines) ==> n in tags && tags[n].commit == c
  {
    HasBase(lines, n);
    if n in tags {
      SurvivingTags(tags, lines, n);
      assert TagAgrees(tags[n], n, lines);
    }
    forall c | Pinned(c, n) && PeeledLine(c, n) in lines ensures n in tags && tags[n].commit == c {
      PrintedEntries(c, n);
      assert Says(PeeledLine(c, n), n, true);
    }
    forall c | Pinned(c, n) && BaseLine(c, n) in lines && forall d | Pinned(d, n) :: PeeledLine(d, n) !in lines
      ensures n in tags && tags[n].commit == c
    {
      PrintedEntries(c, n);
      assert Says(BaseLine(c, n), n, false) && TagAgrees(tags[n], n, lines);
      if Has(lines, n, true) { OnlyPrintedPeeled(lines, n); }
    }
  }

  lemma {:induction false} OnlyPrintedPeeled(lines: multiset<bytes>, n: bytes)
    requires Has(lines, n, true)
    ensures exists d :: Pinned(d, n) && PeeledLine(d, n) in lines
  {
    var l :| l in lines && Says(l, n, true);
    EntriesArePrinted(l);
    assert Pinned(EntryOf(l).value.commit, n);
  }
}

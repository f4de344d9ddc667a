/** Text split at a separator byte. */
module TextLines {
  import opened ExactWrite

  const LF: byte := 0x0A

  /** The pieces of a text between separators; the last one is still open. */
  function Split(s: bytes, separator: byte): (r: seq<bytes>)
    ensures |r| >= 1
  {
    if s == [] then [[]] else AddByte(Split(s[..|s| - 1], separator), s[|s| - 1], separator)
  }

  /** A separator opens a new piece; any other byte goes at the end of the open one. */
  function AddByte(pieces: seq<bytes>, c: byte, separator: byte): (r: seq<bytes>)
    requires |pieces| >= 1
    ensures |r| >= 1
  {
    var m := |pieces| - 1;
    if c == separator then pieces + [[]] else pieces[..m] + [pieces[m] + [c]]
  }

  function Lines(s: bytes): (r: seq<bytes>)
    ensures |r| >= 1
  {
    Split(s, LF)
  }

  /** The text after the last separator is the open piece. */
  lemma {:induction false} OpenPiece(s: bytes, start: nat, separator: byte)
    requires start <= |s| && (start > 0 ==> s[start - 1] == separator)
    requires forall i | start <= i < |s| :: s[i] != separator
    ensures Split(s, separator) == (if start == 0 then [] else Split(s[..start - 1], separator)) + [s[start..]]
    decreases |s|
  {
    if start == |s| {
      assert s[start..] == [];
      if s != [] { assert Split(s, separator) == AddByte(Split(s[..start - 1], separator), separator, separator); }
    } else {
      var m := |s| - 1;
      var before := if start == 0 then [] else Split(s[..start - 1], separator);
      OpenPiece(s[..m], start, separator);
      if start > 0 { assert s[..m][..start - 1] == s[..start - 1]; }
      ExtendLast(before, s[..m][start..], s[m], separator);
      SliceAppend(s, start);
      assert Split(s, separator) == AddByte(before + [s[..m][start..]], s[m], separator);
    }
  }

  lemma {:induction false} SliceAppend(s: bytes, start: nat)
    requires start < |s|
    ensures s[start..] == s[..|s| - 1][start..] + [s[|s| - 1]]
  {
  }

  lemma {:induction false} ExtendLast(before: seq<bytes>, piece: bytes, c: byte, separator: byte)
    requires c != separator
    ensures AddByte(before + [piece], c, separator) == before + [piece + [c]]
  {
  }

  /** Pieces that are closed stay as they are, whatever text follows. */
  lemma {:induction false} ClosedPiecesStay(s: bytes, i: nat, separator: byte)
    requires i <= |s|
    ensures var part, all := Split(s[..i], separator), Split(s, separator);
      |part| <= |all| && part[..|part| - 1] == all[..|part| - 1]
    decreases |s|
  {
    if i == |s| {
      assert s[..i] == s;
    } else {
      var m := |s| - 1;
      ClosedPiecesStay(s[..m], i, separator);
      assert s[..m][..i] == s[..i];
    }
  }

  function Join(pieces: seq<bytes>, separator: byte): bytes
    requires pieces != []
  {
    var m := |pieces| - 1;
    if m == 0 then pieces[0] else Join(pieces[..m], separator) + [separator] + pieces[m]
  }

  /** Joining undoes splitting. */
  lemma {:induction false} JoinSplit(s: bytes, separator: byte)
    ensures Join(Split(s, separator), separator) == s
    decreases |s|
  {
    if s != [] {
      var m := |s| - 1;
      var r := Split(s[..m], separator);
      var k := |r| - 1;
      JoinSplit(s[..m], separator);
      assert s == s[..m] + [s[m]];
      if s[m] == separator {
        assert (r + [[]])[..k + 1] == r;
        assert Join(r, separator) + [separator] + [] == Join(r, separator) + [separator];
      } else {
        JoinLonger(r, s[m], separator);
      }
    }
  }

  lemma {:induction false} JoinLonger(r: seq<bytes>, c: byte, separator: byte)
    requires r != []
    ensures var k := |r| - 1; Join(r[..k] + [r[k] + [c]], separator) == Join(r, separator) + [c]
  {
    var k := |r| - 1;
    var longer := r[..k] + [r[k] + [c]];
    if k > 0 {
      assert longer[..k] == r[..k];
      assert Join(longer, separator) == Join(r[..k], separator) + [separator] + (r[k] + [c]);
    }
  }

  /** Splitting undoes joining when no piece holds the separator. */
  lemma {:induction false} SplitJoin(pieces: seq<bytes>, separator: byte)
    requires pieces != [] && forall p | p in pieces :: separator !in p
    ensures Split(Join(pieces, separator), separator) == pieces
    decreases |pieces|
  {
    var m := |pieces| - 1;
    var s := Join(pieces, separator);
    assert pieces[m] in pieces;
    if m == 0 {
      OpenPiece(s, 0, separator);
      assert s[0..] == s;
    } else {
      var init := pieces[..m];
      SplitJoin(init, separator);
      SplitLast(Join(init, separator), pieces[m], separator);
      assert pieces == init + [pieces[m]];
    }
  }

  lemma {:induction false} SplitLast(before: bytes, piece: bytes, separator: byte)
    requires separator !in piece
    ensures Split(before + [separator] + piece, separator) == Split(before, separator) + [piece]
  {
    var s := before + [separator] + piece;
    assert s[..|before|] == before && s[|before| + 1..] == piece;
    assert forall i | 0 <= i < |piece| :: s[|before| + 1 + i] == piece[i];
    OpenPiece(s, |before| + 1, separator);
  }

  lemma {:induction false} PiecesAreShort(s: bytes, separator: byte)
    ensures forall i | 0 <= i < |Split(s, separator)| :: |Split(s, separator)[i]| <= |s|
    decreases |s|
  {
    if s != [] {
      PiecesAreShort(s[..|s| - 1], separator);
    }
  }

  /** bytes.IndexByte. */
  function IndexByte(s: bytes, b: byte): (r: int)
    ensures if b in s then 0 <= r < |s| && s[r] == b && b !in s[..r] else r == -1
  {
    if s == [] then -1
    else if s[0] == b then 0
    else
      var r := IndexByte(s[1..], b);
      assert s == [s[0]] + s[1..];
      assert r >= 0 ==> s[..r + 1] == [s[0]] + s[1..][..r];
      if r < 0 then -1 else r + 1
  }

  /** bytes.LastIndexByte. */
  function LastIndexByte(s: bytes, b: byte): (r: int)
    ensures if b in s then 0 <= r < |s| && s[r] == b && b !in s[r + 1..] else r == -1
  {
    if s == [] then -1
    else if s[|s| - 1] == b then |s| - 1
    else
      var m := |s| - 1;
      var r := LastIndexByte(s[..m], b);
      LastBefore(s, b, r);
      r
  }

  lemma {:induction false} LastBefore(s: bytes, b: byte, r: int)
    requires s != [] && s[|s| - 1] != b && -1 <= r < |s| - 1
    ensures b in s <==> b in s[..|s| - 1]
    ensures b in s[r + 1..] <==> b in s[..|s| - 1][r + 1..]
  {
    var m := |s| - 1;
    assert s == s[..m] + [s[m]] && s[r + 1..] == s[..m][r + 1..] + [s[m]];
  }

  lemma {:induction false} LastIs(s: bytes, b: byte, i: nat)
    requires i < |s| && s[i] == b && b !in s[i + 1..]
    ensures LastIndexByte(s, b) == i
    decreases |s|
  {
    var m := |s| - 1;
    if i < m {
      assert s[m] in s[i + 1..];
      assert s[i + 1..] == s[..m][i + 1..] + [s[m]];
      LastIs(s[..m], b, i);
    }
  }

  lemma {:induction false} FirstIs(s: bytes, b: byte, i: nat)
    requires i < |s| && s[i] == b && b !in s[..i]
    ensures IndexByte(s, b) == i
    decreases |s|
  {
    if i > 0 {
      assert s[0] in s[..i];
      assert s[..i] == [s[0]] + s[1..][..i - 1];
      FirstIs(s[1..], b, i - 1);
    }
  }

  lemma {:induction false} LastSeparator(head: bytes, word: bytes, separator: byte)
    requires separator !in word
    ensures LastIndexByte(head + [separator] + word, separator) == |head|
    ensures (head + [separator] + word)[..|head|] == head && (head + [separator] + word)[|head| + 1..] == word
  {
    var s := head + [separator] + word;
    assert s[|head| + 1..] == word;
    LastIs(s, separator, |head|);
  }

  lemma {:induction false} FirstSeparator(word: bytes, tail: bytes, separator: byte)
    requires separator !in word
    ensures IndexByte(word + [separator] + tail, separator) == |word|
    ensures (word + [separator] + tail)[..|word|] == word && (word + [separator] + tail)[|word| + 1..] == tail
  {
    var s := word + [separator] + tail;
    assert s[..|word|] == word;
    FirstIs(s, separator, |word|);
  }

  lemma {:induction false} IndexAfter(s: bytes, b: byte, i: nat)
    requires i <= |s| && b !in s[..i]
    ensures IndexByte(s, b) < 0 || IndexByte(s, b) >= i
    decreases i
  {
    if i > 0 {
      assert s[..i] == [s[0]] + s[1..][..i - 1];
      assert s[0] in s[..i];
      IndexAfter(s[1..], b, i - 1);
    }
  }

  /** A text that ends in a separator and then holds no other. */
  lemma {:induction false} OpenEnd(s: bytes, start: nat, separator: byte)
    requires start <= |s| && (start > 0 ==> s[start - 1] == separator) && separator !in s[start..]
    ensures Split(s, separator) == (if start == 0 then [] else Split(s[..start - 1], separator)) + [s[start..]]
  {
    forall i | start <= i < |s| ensures s[i] != separator {
      assert s[i] == s[start..][i - start];
    }
    OpenPiece(s, start, separator);
  }

  /** The piece from `start` to the next separator, which is `i` further on. */
  lemma {:induction false} PieceTo(s: bytes, start: nat, i: nat, separator: byte)
    requires start + i < |s| && (start > 0 ==> s[start - 1] == separator)
    requires s[start..][i] == separator && separator !in s[start..][..i]
    ensures start == 0 ==> Split(s[..start + i + 1], separator) == [s[start..][..i]] + [[]]
    ensures start > 0 ==>
      Split(s[..start + i + 1], separator) == Split(s[..start - 1], separator) + [s[start..][..i]] + [[]]
  {
    Slices(s, start, i);
    PieceUntil(s, s[..start + i], start, s[start..][..i], separator);
    CloseLast(s[..start + i], s[..start + i + 1], separator);
  }

  lemma {:induction false} PieceUntil(s: bytes, part: bytes, start: nat, piece: bytes, separator: byte)
    requires start <= |part| && start <= |s| && part[start..] == piece && separator !in piece
    requires start > 0 ==> part[start - 1] == separator && part[..start - 1] == s[..start - 1]
    ensures Split(part, separator) == (if start == 0 then [] else Split(s[..start - 1], separator)) + [piece]
  {
    OpenEnd(part, start, separator);
  }

  lemma {:induction false} Slices(s: bytes, start: nat, i: nat)
    requires start + i < |s|
    ensures s[..start + i][start..] == s[start..][..i]
    ensures start > 0 ==> s[..start + i][..start - 1] == s[..start - 1]
    ensures s[..start + i + 1] == s[..start + i] + [s[start..][i]]
    ensures start > 0 ==> s[..start + i][start - 1] == s[start - 1]
  {
  }

  lemma {:induction false} CloseLast(part: bytes, more: bytes, separator: byte)
    requires more == part + [separator]
    ensures Split(more, separator) == Split(part, separator) + [[]]
  {
    assert more[..|more| - 1] == part;
  }

  /** A piece that is closed is a piece of the whole. */
  lemma {:induction false} ClosedPiece(s: bytes, i: nat, separator: byte, n: nat)
    requires i <= |s| && n + 1 < |Split(s[..i], separator)|
    ensures n + 1 < |Split(s, separator)| && Split(s, separator)[n] == Split(s[..i], separator)[n]
  {
    ClosedPiecesStay(s, i, separator);
    var part := Split(s[..i], separator);
    assert part[..|part| - 1][n] == Split(s, separator)[..|part| - 1][n];
  }
}

/** The output neutraliser in terms of characters: what is printable stays, everything else becomes an escape. */
module SafeText {
  import opened ExactWrite
  import opened Utf8
  import opened SafeOutput

  /** The characters that reach the output as they are. */
  predicate Allowed(p: int -> bool, r: int) {
    r == 0x09 || r == 0x0A || IsPrint(p, r)
  }

  /** How the code sees a character, whatever follows it. */
  lemma {:induction false} CharacterIsSeen(p: int -> bool, r: scalar, rest: bytes)
    ensures var v := Encode(r) + rest;
      Classes(p)(v) == Character(if r == 0x0A then LineFeed else if Allowed(p, r) then Printable else Unsafe,
                                 |Encode(r)|, IsSpace(r))
    ensures (Encode(r) + rest)[..|Encode(r)|] == Encode(r) && (Encode(r) + rest)[|Encode(r)|..] == rest
  {
    DecodeEncode(r, rest);
    var v := Encode(r) + rest;
    assert v[0] == Encode(r)[0];
    LeadingByte(r);
  }

  lemma {:induction false} LeadingByte(r: scalar)
    ensures 0 <= r < 0x80 ==> Encode(r) == [r as byte]
    ensures r >= 0x80 ==> Encode(r)[0] >= 0x80 && |Encode(r)| > 1
  {
    assert Scalar(r);
  }

  // ----- what is delivered -----

  ghost predicate AllowedText(p: int -> bool, s: seq<scalar>) {
    forall i | 0 <= i < |s| :: Allowed(p, s[i])
  }

  /** Safe bytes are the encoding of printable characters, tabs and line feeds. */
  lemma {:induction false} SafeIsText(p: int -> bool, v: bytes, blank: bool, line: bool) returns (s: seq<scalar>)
    requires Regular(Classes(p)) && Safe(Classes(p), v, blank, line)
    ensures v == EncodeAll(s) && AllowedText(p, s)
    ensures line ==> forall i | 0 <= i < |s| :: IsPrint(p, s[i])
    decreases |v|
  {
    if v == [] {
      s := [];
    } else {
      var c := Classes(p)(v);
      var rest := SafeIsText(p, v[c.size..], NextLineWhitespace(blank, c), line);
      var r := FirstIsAllowed(p, v);
      s := [r] + rest;
      FirstEncoded(r, rest);
      Cut(v, c.size);
    }
  }

  lemma {:induction false} Cut(v: bytes, size: nat)
    requires size <= |v|
    ensures v == v[..size] + v[size..]
  {
  }

  lemma {:induction false} FirstIsAllowed(p: int -> bool, v: bytes) returns (r: scalar)
    requires v != [] && Classes(p)(v).kind != Unsafe
    ensures Allowed(p, r) && v[..Classes(p)(v).size] == Encode(r)
    ensures Kept(Classes(p)(v).kind, v[0], true) ==> IsPrint(p, r)
  {
    var d := DecodeRune(v);
    if v[0] < 0x80 {
      r := v[0] as int;
      LeadingByte(r);
    } else {
      EncodeDecode(v);
      r := d.rune;
      LeadingByte(r);
    }
  }

  /** Whatever bytes are written, text is delivered: printable characters, tabs and line feeds. */
  lemma {:induction false} DeliveredIsText(p: int -> bool, v: bytes) returns (s: seq<scalar>)
    requires Regular(Classes(p))
    ensures Render(Classes(p), v) == EncodeAll(s) && AllowedText(p, s)
  {
    ClassesAreStandard(p);
    RenderIsSafe(Classes(p), v);
    s := SafeIsText(p, Render(Classes(p), v), true, false);
  }

  /** A diagnostic consists of printable characters. */
  lemma {:induction false} DiagnosticIsText(p: int -> bool, v: bytes) returns (s: seq<scalar>)
    requires Regular(Classes(p))
    ensures Escaped(Classes(p), v, true, true) == EncodeAll(s) && forall i | 0 <= i < |s| :: IsPrint(p, s[i])
  {
    ClassesAreStandard(p);
    EscapedIsSafe(Classes(p), v, true, true, true);
    s := SafeIsText(p, Escaped(Classes(p), v, true, true), true, true);
  }

  // ----- what is left alone -----

  /** Only white space stands between the start of a line and character `i`; `blank` says whether the text starts
      a line. */
  ghost predicate BlankBefore(s: seq<scalar>, i: nat, blank: bool)
    requires i <= |s|
  {
    exists j: nat :: j <= i && StartsLine(s, j, blank) && forall m | j <= m < i :: s[m] in WHITE_SPACE
  }

  predicate StartsLine(s: seq<scalar>, j: nat, blank: bool)
    requires j <= |s|
  {
    if j == 0 then blank else s[j - 1] == 0x0A
  }

  /** No command begins anywhere in the text, where it would be one. */
  ghost predicate NoCommands(s: seq<scalar>, blank: bool) {
    forall i: nat | i <= |s| :: NoCommandAt(s, i, blank)
  }

  ghost predicate NoCommandAt(s: seq<scalar>, i: nat, blank: bool)
    requires i <= |s|
  {
    var v := EncodeAll(s[i..]);
    && !(Text("##[") <= v) && !(Text("##vso[") <= v)
    && (BlankBefore(s, i, blank) ==> !(Text("::") <= v))
  }

  lemma {:induction false} CommandTexts()
    ensures Text("##[") == SECTION && Text("##vso[") == LOGGING && Text("::") == COMMAND
  {
  }

  lemma {:induction false} BlankNext(s: seq<scalar>, i: nat, blank: bool)
    requires 0 < i <= |s|
    requires BlankBefore(s[1..], i - 1, s[0] == 0x0A || (blank && IsSpace(s[0])))
    ensures BlankBefore(s, i, blank)
  {
    var t, next := s[1..], s[0] == 0x0A || (blank && IsSpace(s[0]));
    var j: nat :| j <= i - 1 && StartsLine(t, j, next) && forall m | j <= m < i - 1 :: t[m] in WHITE_SPACE;
    var k := if j == 0 && s[0] != 0x0A then 0 else j + 1;
    assert StartsLine(s, k, blank);
    forall m | k <= m < i ensures s[m] in WHITE_SPACE {
      if m > 0 { assert s[m] == t[m - 1]; } else { SpaceExact(s[0]); }
    }
  }

  lemma {:induction false} NoCommandsNext(s: seq<scalar>, blank: bool)
    requires s != [] && NoCommands(s, blank)
    ensures NoCommands(s[1..], s[0] == 0x0A || (blank && IsSpace(s[0])))
  {
    var t, next := s[1..], s[0] == 0x0A || (blank && IsSpace(s[0]));
    forall i: nat | i <= |t| ensures NoCommandAt(t, i, next) {
      assert NoCommandAt(s, i + 1, blank);
      assert t[i..] == s[i + 1..];
      if BlankBefore(t, i, next) { BlankNext(s, i + 1, blank); }
    }
  }

  /** Such a text is safe, however it is encoded. */
  lemma {:induction false} TextIsSafe(p: int -> bool, s: seq<scalar>, blank: bool)
    requires Regular(Classes(p)) && AllowedText(p, s) && NoCommands(s, blank)
    ensures Safe(Classes(p), EncodeAll(s), blank, false)
    decreases |s|
  {
    if s != [] {
      var v, rest := EncodeAll(s), EncodeAll(s[1..]);
      NoCommandsNext(s, blank);
      TextIsSafe(p, s[1..], s[0] == 0x0A || (blank && IsSpace(s[0])));
      CharacterIsSeen(p, s[0], rest);
      FirstIsNoCommand(s, blank);
    }
  }

  lemma {:induction false} FirstIsNoCommand(s: seq<scalar>, blank: bool)
    requires NoCommands(s, blank)
    ensures !WorkflowCommand(EncodeAll(s), blank)
  {
    CommandTexts();
    CommandPrefixes(EncodeAll(s), blank);
    assert NoCommandAt(s, 0, blank) && s[0..] == s;
    if blank { assert StartsLine(s, 0, blank) && BlankBefore(s, 0, blank); }
  }

  /** Text without commands is delivered as it is, with a line feed at its end. */
  lemma {:induction false} TextIsPreserved(p: int -> bool, s: seq<scalar>)
    requires Regular(Classes(p)) && AllowedText(p, s) && NoCommands(s, true) && s != []
    ensures Render(Classes(p), EncodeAll(s)) == EncodeAll(s) + if s[|s| - 1] == 0x0A then [] else [LF]
  {
    var v := EncodeAll(s);
    TextIsSafe(p, s, true);
    DirectPath(Classes(p), v);
    LastEncoded(s);
  }

  lemma {:induction false} LastEncoded(s: seq<scalar>)
    requires s != []
    ensures EncodeAll(s) != [] && (EncodeAll(s)[|EncodeAll(s)| - 1] == LF <==> s[|s| - 1] == 0x0A)
    decreases |s|
  {
    if |s| == 1 {
      LastByte(s[0]);
      assert EncodeAll(s) == Encode(s[0]) + EncodeAll(s[1..]) == Encode(s[0]);
    } else {
      LastEncoded(s[1..]);
      assert EncodeAll(s) == Encode(s[0]) + EncodeAll(s[1..]);
    }
  }

  lemma {:induction false} LastByte(r: scalar)
    ensures Encode(r)[|Encode(r)| - 1] == LF <==> r == 0x0A
  {
    assert Scalar(r);
  }

  // ----- character by character -----

  /** What a character becomes that begins no command. */
  lemma {:induction false} CharacterIsRendered(p: int -> bool, r: scalar, rest: bytes, blank: bool, line: bool)
    requires Regular(Classes(p)) && !WorkflowCommand(Encode(r) + rest, blank)
    ensures var kept := IsPrint(p, r) || (!line && (r == 0x09 || r == 0x0A));
      var next := r == 0x0A || (blank && Allowed(p, r) && IsSpace(r));
      Escaped(Classes(p), Encode(r) + rest, blank, line)
      == (if kept then Encode(r) else EscapedBytes(Encode(r))) + Escaped(Classes(p), rest, next, line)
  {
    var k, v := Classes(p), Encode(r) + rest;
    CharacterIsSeen(p, r, rest);
    LeadingByte(r);
    CharacterRound(k, v, blank, line, k(v), NextLineWhitespace(blank, k(v)));
  }

  /** A byte that begins no character is escaped alone. */
  lemma {:induction false} StrayByteIsEscaped(p: int -> bool, v: bytes, blank: bool, line: bool)
    requires Regular(Classes(p)) && v != [] && !Valid(v)
    ensures Escaped(Classes(p), v, blank, line) == EscapedByte(v[0]) + Escaped(Classes(p), v[1..], false, line)
  {
    var k := Classes(p);
    assert v[0] >= 0x80;
    CharacterRound(k, v, blank, line, k(v), NextLineWhitespace(blank, k(v)));
    EscapedOne(v[0]);
    assert v[..1] == [v[0]];
  }

  /** An escape is read back from its two hexadecimal digits. */
  lemma {:induction false} EscapeIsRead(b: byte) returns (high: nat, low: nat)
    ensures high < 16 && low < 16 && b as int == 16 * high + low
    ensures var digits := Text("0123456789abcdef");
      EscapedByte(b) == Text("\\x") + [digits[high], digits[low]]
  {
    high, low := (b / 16) as int, (b % 16) as int;
    HexDigit(b / 16);
    HexDigit(b % 16);
  }

  lemma {:induction false} HexDigit(n: byte)
    requires n < 16
    ensures Text("0123456789abcdef")[n as int] == HexadecimalDigit(n)
  {
    var digits := Text("0123456789abcdef");
    assert digits == [0x30, 0x31, 0x32, 0x33, 0x34, 0x35, 0x36, 0x37, 0x38, 0x39, 0x61, 0x62, 0x63, 0x64, 0x65, 0x66];
  }
}

/** What the output neutraliser emits (internal/safeoutput), and why it is safe. */
module SafeOutput {
  import opened ExactWrite
  import opened Utf8

  const TAB: byte := 0x09
  const LF: byte := 0x0A

  datatype Kind = Printable | LineFeed | Unsafe

  /** How the bytes at hand begin: the kind and size of the first character, and whether it is white space. */
  datatype Character = Character(kind: Kind, size: nat, space: bool)

  type Classifier = bytes -> Character

  /** unicode.IsSpace. */
  predicate IsSpace(r: int) {
    || 0x09 <= r <= 0x0D || r == 0x20 || r == 0x85 || r == 0xA0 || r == 0x1680 || 0x2000 <= r <= 0x200A
    || r == 0x2028 || r == 0x2029 || r == 0x202F || r == 0x205F || r == 0x3000
  }

  /** The function `classify`; `p` stands for strconv.IsPrint on runes outside ASCII, of which nothing is assumed. */
  function Classify(p: int -> bool, v: bytes): (c: Character)
    requires v != []
    ensures 1 <= c.size <= |v|
  {
    var d := DecodeRune(v);
    if v[0] == LF then Character(LineFeed, 1, true)
    else if v[0] == TAB || 0x20 <= v[0] < 0x7F then Character(Printable, 1, IsSpace(d.rune))
    else if v[0] < 0x80 then Character(Unsafe, 1, IsSpace(d.rune))
    else Character(if !Valid(v) || !p(d.rune) then Unsafe else Printable, d.size, IsSpace(d.rune))
  }

  function Classes(p: int -> bool): Classifier {
    v => if v == [] then Character(Unsafe, 0, false) else Classify(p, v)
  }

  /** What the escaper relies on: an ASCII byte stands alone, all bytes of a longer character lie outside ASCII... */
  predicate RegularAt(c: Character, v: bytes)
    requires v != []
  {
    && 1 <= c.size <= |v|
    && (c.kind == LineFeed <==> v[0] == LF)
    && (v[0] < 0x80 ==> c.size == 1 && (c.kind == Printable <==> v[0] == TAB || 0x20 <= v[0] < 0x7F))
    && (0x21 <= v[0] < 0x7F ==> !c.space)
    && (v[0] >= 0x80 ==> forall i | 0 <= i < c.size :: v[i] >= 0x80)
  }

  ghost predicate Regular(k: Classifier) {
    forall v | v != [] :: RegularAt(k(v), v)
  }

  /** ... and what follows a character that is not unsafe has no influence on it. */
  predicate LocalAt(k: Classifier, v: bytes, rest: bytes) {
    v != [] && k(v).size <= |v| && k(v).kind != Unsafe ==> k(v[..k(v).size] + rest) == k(v)
  }

  ghost predicate Standard(k: Classifier) {
    && Regular(k)
    && forall v, rest :: LocalAt(k, v, rest)
  }

  lemma {:induction false} ClassesAreStandard(p: int -> bool)
    ensures Standard(Classes(p))
  {
    var k := Classes(p);
    forall v, rest ensures LocalAt(k, v, rest) {
      if v != [] && k(v).kind != Unsafe {
        ClassifyLocal(p, v, rest);
      }
    }
  }

  lemma {:induction false} ClassifyLocal(p: int -> bool, v: bytes, rest: bytes)
    requires v != [] && Classify(p, v).kind != Unsafe
    ensures Classify(p, v[..Classify(p, v).size] + rest) == Classify(p, v)
  {
    var w := v[..Classify(p, v).size] + rest;
    assert w[0] == v[0];
    if v[0] >= 0x80 {
      DecodeLocal(v, rest);
    }
  }

  predicate NextLineWhitespace(current: bool, c: Character) {
    c.kind == LineFeed || (current && c.kind != Unsafe && c.space)
  }

  /** The three ways a CI runner's command may begin. */
  const COMMAND: bytes := [0x3A, 0x3A]                             // ::
  const SECTION: bytes := [0x23, 0x23, 0x5B]                       // ##[
  const LOGGING: bytes := [0x23, 0x23, 0x76, 0x73, 0x6F, 0x5B]     // ##vso[

  predicate WorkflowCommand(v: bytes, blank: bool) {
    || (blank && |v| >= 2 && v[0] == 0x3A && v[1] == 0x3A)
    || (|v| >= 3 && v[0] == 0x23 && v[1] == 0x23 && v[2] == 0x5B)
    || (|v| >= 6 && v[0] == 0x23 && v[1] == 0x23 && v[2] == 0x76 && v[3] == 0x73 && v[4] == 0x6F && v[5] == 0x5B)
  }

  lemma {:induction false} CommandPrefixes(v: bytes, blank: bool)
    ensures WorkflowCommand(v, blank) <==> (blank && COMMAND <= v) || LOGGING <= v || SECTION <= v
  {
    assert COMMAND <= v <==> |v| >= 2 && v[..2] == COMMAND;
    assert SECTION <= v <==> |v| >= 3 && v[..3] == SECTION;
    assert LOGGING <= v <==> |v| >= 6 && v[..6] == LOGGING;
  }

  function HexadecimalDigit(n: byte): byte
    requires n < 16
  {
    if n < 10 then 0x30 + n else 0x61 + (n - 10)
  }

  /** A byte as `\xNN`. */
  function EscapedByte(b: byte): bytes {
    [0x5C, 0x78, HexadecimalDigit(b / 16), HexadecimalDigit(b % 16)]
  }

  function EscapedBytes(v: bytes): bytes {
    if v == [] then [] else EscapedByte(v[0]) + EscapedBytes(v[1..])
  }

  predicate Kept(kind: Kind, first: byte, line: bool) {
    if line then kind == Printable && first != TAB else kind != Unsafe
  }

  /** What a character that is no command becomes. */
  function Emitted(taken: bytes, kind: Kind, line: bool): bytes
    requires taken != []
  {
    if Kept(kind, taken[0], line) then taken else EscapedBytes(taken)
  }

  /** One step of the scan: the bytes it takes, what it emits for them, and the state of the line after it. */
  datatype Step = Step(size: nat, output: bytes, blank: bool)

  function Next(k: Classifier, v: bytes, blank: bool, line: bool): (s: Step)
    requires Regular(k)
    requires v != []
    ensures 1 <= s.size <= |v|
  {
    if WorkflowCommand(v, blank) then Step(1, EscapedByte(v[0]), false)
    else
      var c := k(v);
      var taken := v[..c.size];
      Step(c.size, Emitted(taken, c.kind, line), NextLineWhitespace(blank, c))
  }

  /** The whole rendering of `v`, without the line feed that Write adds at the end. */
  function Escaped(k: Classifier, v: bytes, blank: bool, line: bool): bytes
    requires Regular(k)
    decreases |v|
  {
    if v == [] then []
    else var s := Next(k, v, blank, line); s.output + Escaped(k, v[s.size..], s.blank, line)
  }

  lemma {:induction false} OneStep(k: Classifier, v: bytes, blank: bool, line: bool, s: Step)
    requires Regular(k)
    requires v != [] && s == Next(k, v, blank, line)
    ensures Escaped(k, v, blank, line) == s.output + Escaped(k, v[s.size..], s.blank, line)
  {
  }

  /** The two ways one round of the loops goes on. */
  lemma {:induction false} CommandRound(k: Classifier, v: bytes, blank: bool, line: bool)
    requires Regular(k)
    requires v != [] && WorkflowCommand(v, blank)
    ensures Escaped(k, v, blank, line) == EscapedByte(v[0]) + Escaped(k, v[1..], false, line)
    ensures v[0] != LF
  {
    OneStep(k, v, blank, line, Step(1, EscapedByte(v[0]), false));
  }

  lemma {:induction false} CharacterRound(k: Classifier, v: bytes, blank: bool, line: bool, c: Character, next: bool)
    requires Regular(k)
    requires v != [] && !WorkflowCommand(v, blank) && c == k(v)
    requires next == NextLineWhitespace(blank, c)
    ensures Escaped(k, v, blank, line) == Emitted(v[..c.size], c.kind, line) + Escaped(k, v[c.size..], next, line)
    ensures c.kind == LineFeed <==> v[c.size - 1] == LF
  {
    OneStep(k, v, blank, line, Step(c.size, Emitted(v[..c.size], c.kind, line), next));
    FeedIsLast(k, v);
  }

  lemma {:induction false} SafeRound(k: Classifier, value: bytes, index: nat, blank: bool)
    requires Regular(k) && index < |value|
    ensures var c := k(value[index..]);
      && index + c.size <= |value|
      && (Safe(k, value[index..], blank, false)
          <==> !WorkflowCommand(value[index..], blank) && c.kind != Unsafe
               && Safe(k, value[index + c.size..], NextLineWhitespace(blank, c), false))
  {
    var v := value[index..];
    assert v[k(v).size..] == value[index + k(v).size..];
  }

  lemma {:induction false} FeedIsLast(k: Classifier, v: bytes)
    requires Regular(k)
    requires v != []
    ensures k(v).kind == LineFeed <==> v[k(v).size - 1] == LF
  {
  }

  /** Nothing in `v` needs escaping; with `line` false this is the function `safe`. */
  predicate Safe(k: Classifier, v: bytes, blank: bool, line: bool)
    requires Regular(k)
    decreases |v|
  {
    v == [] ||
    var c := k(v);
    && !WorkflowCommand(v, blank)
    && Kept(c.kind, v[0], line)
    && Safe(k, v[c.size..], NextLineWhitespace(blank, c), line)
  }

  /** What Write delivers. */
  function Render(k: Classifier, v: bytes): bytes
    requires Regular(k)
  {
    if v == [] then []
    else Escaped(k, v, true, false) + if v[|v| - 1] == LF then [] else [LF]
  }

  // Escaping yields safe bytes.

  predicate CommandByte(b: byte) {
    b in [0x3A, 0x23, 0x5B, 0x76, 0x73, 0x6F]
  }

  /** Escaping never makes a command: one that the rendering begins with was there already. */
  lemma {:induction false} PlainPrefix(k: Classifier, v: bytes, blank: bool, line: bool, command: bytes)
    requires Regular(k)
    requires forall b | b in command :: CommandByte(b)
    requires command <= Escaped(k, v, blank, line)
    ensures command <= v
    decreases |v|
  {
    if command != [] && v != [] {
      var s := Next(k, v, blank, line);
      var rest := Escaped(k, v[s.size..], s.blank, line);
      assert CommandByte(command[0]);
      assert command[0] == (s.output + rest)[0] && s.output != [];
      if s.output == v[..1] {
        assert command[1..] <= rest;
        PlainPrefix(k, v[1..], s.blank, line, command[1..]);
        assert command == [v[0]] + command[1..] && v == [v[0]] + v[1..];
      }
    }
  }

  lemma {:induction false} NoNewCommand(k: Classifier, v: bytes, blank: bool, line: bool, outer: bool)
    requires Regular(k)
    requires outer ==> blank
    requires !WorkflowCommand(v, blank)
    ensures !WorkflowCommand(Escaped(k, v, blank, line), outer)
  {
    var e := Escaped(k, v, blank, line);
    if COMMAND <= e { PlainPrefix(k, v, blank, line, COMMAND); }
    if SECTION <= e { PlainPrefix(k, v, blank, line, SECTION); }
    if LOGGING <= e { PlainPrefix(k, v, blank, line, LOGGING); }
  }

  /** A byte that is no white space and begins no command. */
  predicate Ordinary(b: byte) {
    0x21 <= b < 0x7F && b != 0x3A && b != 0x23
  }

  lemma {:induction false} SafeOrdinary(k: Classifier, e: bytes, rest: bytes, blank: bool, line: bool)
    requires Regular(k)
    requires e != [] && forall b | b in e :: Ordinary(b)
    requires Safe(k, rest, false, line)
    ensures Safe(k, e + rest, blank, line)
    decreases |e|
  {
    Prepend(e, rest);
    if |e| > 1 {
      SafeOrdinary(k, e[1..], rest, false, line);
    }
    SafeAhead(k, e[0], e[1..] + rest, blank, line);
  }

  lemma {:induction false} Prepend(e: bytes, rest: bytes)
    requires e != []
    ensures e + rest == [e[0]] + (e[1..] + rest)
    ensures |e| == 1 ==> e[1..] + rest == rest
  {
    assert e == [e[0]] + e[1..];
  }

  lemma {:induction false} SafeAhead(k: Classifier, b: byte, rest: bytes, blank: bool, line: bool)
    requires Regular(k)
    requires Ordinary(b) && Safe(k, rest, false, line)
    ensures Safe(k, [b] + rest, blank, line)
  {
    var v := [b] + rest;
    assert RegularAt(k(v), v);
    assert v[1..] == rest;
  }

  lemma {:induction false} EscapesAreOrdinary(v: bytes)
    ensures |EscapedBytes(v)| == 4 * |v|
    ensures forall b | b in EscapedBytes(v) :: Ordinary(b)
  {
    if v != [] {
      EscapesAreOrdinary(v[1..]);
      OneEscapeIsOrdinary(v[0]);
    }
  }

  lemma {:induction false} OneEscapeIsOrdinary(b: byte)
    ensures forall e | e in EscapedByte(b) :: Ordinary(e)
  {
    assert forall n: byte | n < 16 :: Ordinary(HexadecimalDigit(n));
  }

  /** Every rendering is safe, even when it is placed on a line that is no longer blank. */
  lemma {:induction false} EscapedIsSafe(k: Classifier, v: bytes, blank: bool, line: bool, outer: bool)
    requires Standard(k)
    requires outer ==> blank
    ensures Safe(k, Escaped(k, v, blank, line), outer, line)
    decreases |v|
  {
    if v != [] {
      var s := Next(k, v, blank, line);
      var rest := Escaped(k, v[s.size..], s.blank, line);
      var c := k(v);
      if WorkflowCommand(v, blank) || !Kept(c.kind, v[0], line) {
        EscapedIsSafe(k, v[s.size..], s.blank, line, false);
        EscapesAreOrdinary(v[..s.size]);
        SafeOrdinary(k, EscapedBytes(v[..s.size]), rest, outer, line);
        EscapedOne(v[0]);
        assert v[..1] == [v[0]];
      } else {
        KeptIsSafe(k, v, blank, line, outer, rest);
      }
    }
  }

  lemma {:induction false} EscapedOne(b: byte)
    ensures EscapedBytes([b]) == EscapedByte(b)
  {
    assert EscapedBytes([b]) == EscapedByte(b) + EscapedBytes([]);
  }

  lemma {:induction false} KeptIsSafe(k: Classifier, v: bytes, blank: bool, line: bool, outer: bool, rest: bytes)
    requires Standard(k)
    requires v != [] && (outer ==> blank)
    requires !WorkflowCommand(v, blank) && Kept(k(v).kind, v[0], line)
    requires rest == Escaped(k, v[Next(k, v, blank, line).size..], Next(k, v, blank, line).blank, line)
    ensures Safe(k, v[..k(v).size] + rest, outer, line)
    decreases |v|, 0
  {
    var c := k(v);
    var w := v[..c.size] + rest;
    NoNewCommand(k, v, blank, line, outer);
    assert LocalAt(k, v, rest);
    assert w[..c.size] == v[..c.size] && w[c.size..] == rest;
    EscapedIsSafe(k, v[c.size..], NextLineWhitespace(blank, c), line,
                  NextLineWhitespace(outer, c));
  }

  /** The rendering leaves exactly the safe inputs as they are, so Write's direct path agrees with the other. */
  lemma {:induction false} UnchangedIffSafe(k: Classifier, v: bytes, blank: bool, line: bool)
    requires Regular(k)
    ensures |Escaped(k, v, blank, line)| >= |v|
    ensures Escaped(k, v, blank, line) == v <==> Safe(k, v, blank, line)
    decreases |v|
  {
    if v != [] {
      var s := Next(k, v, blank, line);
      var rest := Escaped(k, v[s.size..], s.blank, line);
      UnchangedIffSafe(k, v[s.size..], s.blank, line);
      OneStep(k, v, blank, line, s);
      EscapesAreOrdinary(v[..s.size]);
      SameParts(s.output, rest, v, s.size);
    }
  }

  lemma {:induction false} SameParts(output: bytes, rest: bytes, v: bytes, size: nat)
    requires size <= |v| && size <= |output| && |v| - size <= |rest|
    ensures output + rest == v <==> output == v[..size] && rest == v[size..]
  {
    assert v == v[..size] + v[size..];
    assert (output + rest)[..|output|] == output && (output + rest)[|output|..] == rest;
  }

  // No byte is lost.

  /** `e` spells `v`: byte for byte, either the byte itself or its escape. */
  predicate Spells(e: bytes, v: bytes)
    decreases |v|
  {
    if v == [] then e == []
    else
      || ([v[0]] <= e && Spells(e[1..], v[1..]))
      || (EscapedByte(v[0]) <= e && Spells(e[4..], v[1..]))
  }

  lemma {:induction false} SpellsRaw(taken: bytes, e: bytes, v: bytes)
    requires Spells(e, v)
    ensures Spells(taken + e, taken + v)
    decreases |taken|
  {
    if taken == [] {
      assert taken + e == e && taken + v == v;
    } else {
      SpellsRaw(taken[1..], e, v);
      assert (taken + e)[1..] == taken[1..] + e && (taken + v)[1..] == taken[1..] + v;
    }
  }

  lemma {:induction false} SpellsEscaped(taken: bytes, e: bytes, v: bytes)
    requires Spells(e, v)
    ensures Spells(EscapedBytes(taken) + e, taken + v)
    decreases |taken|
  {
    if taken == [] {
      assert EscapedBytes(taken) + e == e && taken + v == v;
    } else {
      SpellsEscaped(taken[1..], e, v);
      var after := EscapedBytes(taken[1..]) + e;
      assert EscapedBytes(taken) + e == EscapedByte(taken[0]) + after;
      assert (EscapedByte(taken[0]) + after)[4..] == after;
      assert (taken + v)[1..] == taken[1..] + v;
    }
  }

  /** The rendering spells its input. */
  lemma {:induction false} EscapedSpells(k: Classifier, v: bytes, blank: bool, line: bool)
    requires Regular(k)
    ensures Spells(Escaped(k, v, blank, line), v)
    decreases |v|
  {
    if v != [] {
      var s := Next(k, v, blank, line);
      var rest := Escaped(k, v[s.size..], s.blank, line);
      EscapedSpells(k, v[s.size..], s.blank, line);
      SpellsRaw(v[..s.size], rest, v[s.size..]);
      SpellsEscaped(v[..s.size], rest, v[s.size..]);
      EscapedOne(v[0]);
      assert v[..1] == [v[0]];
      assert v == v[..s.size] + v[s.size..];
    }
  }

  /** An escape names its byte. */
  lemma {:induction false} EscapeIsInjective(a: byte, b: byte)
    ensures EscapedByte(a) == EscapedByte(b) ==> a == b
  {
    var x, y := EscapedByte(a), EscapedByte(b);
    assert x[2] == y[2] ==> a / 16 == b / 16;
    assert x[3] == y[3] ==> a % 16 == b % 16;
  }

  // The line feed at the end.

  lemma {:induction false} SafeWithLineFeed(k: Classifier, v: bytes, blank: bool)
    requires Standard(k)
    requires Safe(k, v, blank, false)
    ensures Safe(k, v + [LF], blank, false)
    decreases |v|
  {
    if v == [] {
      assert v + [LF] == [LF] && [LF][1..] == [];
    } else {
      var c := k(v);
      Resplit(v, c.size);
      assert LocalAt(k, v, v[c.size..] + [LF]);
      SafeWithLineFeed(k, v[c.size..], NextLineWhitespace(blank, c));
      NoLaterCommand(v, blank);
    }
  }

  lemma {:induction false} Resplit(v: bytes, size: nat)
    requires size <= |v|
    ensures v + [LF] == v[..size] + (v[size..] + [LF])
    ensures (v + [LF])[size..] == v[size..] + [LF]
  {
    assert v == v[..size] + v[size..];
  }

  lemma {:induction false} NoLaterCommand(v: bytes, blank: bool)
    requires !WorkflowCommand(v, blank)
    ensures !WorkflowCommand(v + [LF], blank)
  {
    PrefixWithout(COMMAND, v);
    PrefixWithout(SECTION, v);
    PrefixWithout(LOGGING, v);
  }

  lemma {:induction false} PrefixWithout(command: bytes, v: bytes)
    requires LF !in command
    ensures command <= v + [LF] ==> command <= v
  {
    if |command| == |v| + 1 {
      assert command[|v|] in command;
    }
  }

  lemma {:induction false} LastLineFeed(k: Classifier, v: bytes, blank: bool)
    requires Regular(k)
    requires v != [] && v[|v| - 1] == LF
    ensures var e := Escaped(k, v, blank, false); e != [] && e[|e| - 1] == LF
    decreases |v|
  {
    var s := Next(k, v, blank, false);
    OneStep(k, v, blank, false, s);
    if s.size < |v| {
      LastLineFeed(k, v[s.size..], s.blank);
    } else {
      assert v[s.size..] == [];
      LoneLineFeed(k, v, blank);
    }
  }

  lemma {:induction false} LoneLineFeed(k: Classifier, v: bytes, blank: bool)
    requires Regular(k)
    requires v != [] && v[|v| - 1] == LF && Next(k, v, blank, false).size == |v|
    ensures Next(k, v, blank, false).output == [LF]
  {
    assert v[|v| - 1] == LF;
  }

  /** The direct path emits the same bytes as the escaper. */
  lemma {:induction false} DirectPath(k: Classifier, v: bytes)
    requires Regular(k)
    requires v != [] && Safe(k, v, true, false)
    ensures Render(k, v) == if v[|v| - 1] == LF then v else v + [LF]
  {
    UnchangedIffSafe(k, v, true, false);
  }

  lemma {:induction false} RenderedLine(k: Classifier, v: bytes)
    requires Standard(k) && v != []
    ensures Safe(k, Render(k, v), true, false)
    ensures Render(k, v) != [] && Render(k, v)[|Render(k, v)| - 1] == LF
  {
    var e := Escaped(k, v, true, false);
    EscapedIsSafe(k, v, true, false, true);
    if v[|v| - 1] == LF {
      LastLineFeed(k, v, true);
      assert Render(k, v) == e;
    } else {
      SafeWithLineFeed(k, e, true);
      assert Render(k, v) == e + [LF];
    }
  }

  /** What Write delivers is safe, ends its last line, and would be delivered unchanged. */
  lemma {:induction false} RenderIsSafe(k: Classifier, v: bytes)
    requires Standard(k)
    ensures var r := Render(k, v);
      && Safe(k, r, true, false)
      && (v != [] ==> r != [] && r[|r| - 1] == LF)
      && Render(k, r) == r
  {
    if v != [] {
      RenderedLine(k, v);
      DirectPath(k, Render(k, v));
    }
  }

  /** A diagnostic is safe and on one line, and would itself be left unchanged. */
  lemma {:induction false} DiagnosticIsSafe(k: Classifier, v: bytes, outer: bool)
    requires Standard(k)
    ensures var d := Escaped(k, v, true, true);
      && Safe(k, d, outer, false)
      && (forall b | b in d :: b >= 0x20 && b != 0x7F)
      && Escaped(k, d, true, true) == d
  {
    var d := Escaped(k, v, true, true);
    EscapedIsSafe(k, v, true, true, outer);
    EscapedIsSafe(k, v, true, true, true);
    SafeLine(k, d, outer);
    UnchangedIffSafe(k, d, true, true);
  }

  lemma {:induction false} SafeLine(k: Classifier, v: bytes, blank: bool)
    requires Regular(k)
    ensures Safe(k, v, blank, true) ==> Safe(k, v, blank, false) && forall b | b in v :: b >= 0x20 && b != 0x7F
    decreases |v|
  {
    if v != [] {
      var c := k(v);
      SafeLine(k, v[c.size..], NextLineWhitespace(blank, c));
      assert v == v[..c.size] + v[c.size..];
    }
  }

  // What safe bytes cannot contain, said without the scan.

  const WHITE_SPACE: set<int> :=
    {0x09, 0x0A, 0x0B, 0x0C, 0x0D, 0x20, 0x85, 0xA0, 0x1680, 0x2000, 0x2001, 0x2002, 0x2003, 0x2004, 0x2005, 0x2006,
     0x2007, 0x2008, 0x2009, 0x200A, 0x2028, 0x2029, 0x202F, 0x205F, 0x3000}

  lemma {:induction false} SpaceExact(r: int)
    ensures IsSpace(r) <==> r in WHITE_SPACE
  {
  }

  /** The bytes from `i` to `j` start a line and encode white space only. */
  ghost predicate BlankLine(v: bytes, i: nat, j: nat, s: seq<scalar>)
    requires i <= j <= |v|
  {
    && (i == 0 || v[i - 1] == LF)
    && (forall r | r in s :: r in WHITE_SPACE)
    && v[i..j] == EncodeAll(s)
  }

  /** Safe bytes hold no section or logging command at all, and no `::` that only white space precedes on its line. */
  lemma {:induction false} NoActiveCommand(p: int -> bool, v: bytes, i: nat, j: nat, s: seq<scalar>)
    requires Regular(Classes(p)) && Safe(Classes(p), v, true, false) && i <= j <= |v|
    ensures !(SECTION <= v[j..]) && !(LOGGING <= v[j..])
    ensures BlankLine(v, i, j, s) ==> !(COMMAND <= v[j..])
  {
    var k := Classes(p);
    ClassesAreStandard(p);
    NoHashCommand(k, v, true, j);
    if BlankLine(v, i, j, s) {
      forall r | r in s ensures IsSpace(r) { SpaceExact(r); }
      SafeAtLineStart(k, v, true, i);
      NoCommandAfterBlank(p, v[i..], j - i, s);
      assert v[i..][j - i..] == v[j..];
    }
  }

  lemma {:induction false} NoCommandAfterBlank(p: int -> bool, v: bytes, j: nat, s: seq<scalar>)
    requires Safe(Classes(p), v, true, false) && j <= |v|
    requires v[..j] == EncodeAll(s) && forall r | r in s :: IsSpace(r)
    ensures !(COMMAND <= v[j..])
  {
    assert v == EncodeAll(s) + v[j..];
    SafeAfterWhitespace(p, s, v[j..]);
  }

  lemma {:induction false} NoHashCommand(k: Classifier, v: bytes, blank: bool, j: nat)
    requires Regular(k)
    requires Safe(k, v, blank, false) && j <= |v|
    ensures !(SECTION <= v[j..]) && !(LOGGING <= v[j..])
    decreases |v|
  {
    if v != [] {
      var c := k(v);
      if j >= c.size {
        NoHashCommand(k, v[c.size..], NextLineWhitespace(blank, c), j - c.size);
        assert v[c.size..][j - c.size..] == v[j..];
      } else if j > 0 {
        assert v[j] >= 0x80;
      }
    }
  }

  lemma {:induction false} FeedsStandAlone(k: Classifier, v: bytes)
    requires Regular(k)
    requires v != []
    ensures forall i | 0 <= i < k(v).size - 1 :: v[i] != LF
  {
  }

  lemma {:induction false} SafeAtLineStart(k: Classifier, v: bytes, blank: bool, i: nat)
    requires Regular(k)
    requires Safe(k, v, blank, false) && i <= |v|
    requires if i == 0 then blank else v[i - 1] == LF
    ensures Safe(k, v[i..], true, false)
    decreases |v|
  {
    if i > 0 {
      var c := k(v);
      FeedsStandAlone(k, v);
      SafeAtLineStart(k, v[c.size..], NextLineWhitespace(blank, c), i - c.size);
      assert v[c.size..][i - c.size..] == v[i..];
    }
  }

  lemma {:induction false} SafeAfterSpace(p: int -> bool, r: scalar, rest: bytes)
    requires IsSpace(r)
    requires Regular(Classes(p)) && Safe(Classes(p), Encode(r) + rest, true, false)
    ensures Safe(Classes(p), rest, true, false)
  {
    var e := Encode(r);
    var v := e + rest;
    DecodeEncode(r, rest);
    var k := Classes(p);
    assert k(v) == Classify(p, v);
    assert v[|e|..] == rest;
  }

  lemma {:induction false} EncodeFirst(s: seq<scalar>, rest: bytes)
    requires s != []
    ensures EncodeAll(s) + rest == Encode(s[0]) + (EncodeAll(s[1..]) + rest)
  {
    assert EncodeAll(s) + rest == Encode(s[0]) + (EncodeAll(s[1..]) + rest);
  }

  lemma {:induction false} SafeAfterWhitespace(p: int -> bool, s: seq<scalar>, rest: bytes)
    requires forall r | r in s :: IsSpace(r)
    requires Regular(Classes(p)) && Safe(Classes(p), EncodeAll(s) + rest, true, false)
    ensures Safe(Classes(p), rest, true, false)
    decreases |s|
  {
    if s == [] {
      assert EncodeAll(s) + rest == rest;
    } else {
      EncodeFirst(s, rest);
      SafeAfterSpace(p, s[0], EncodeAll(s[1..]) + rest);
      SafeAfterWhitespace(p, s[1..], rest);
    }
  }
}

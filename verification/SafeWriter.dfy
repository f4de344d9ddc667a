/** The neutraliser's loops and its buffered writer (internal/safeoutput). */
module SafeWriter {
  import opened Options
  import opened ExactWrite
  import opened SafeOutput

  const ESCAPE_BUFFER_BYTES := 4096

  /** Bytes move from what remains to what is done. */
  lemma {:induction false} Moved(done: bytes, output: bytes, after: bytes, remaining: bytes, all: bytes)
    requires done + remaining == all && remaining == output + after
    ensures (done + output) + after == all
  {
    assert (done + output) + after == done + (output + after);
  }

  lemma {:induction false} StillPrefix(a: bytes, done: bytes, rest: bytes, all: bytes)
    requires a <= done && done + rest == all
    ensures a <= all
  {
  }

  type Stepper = (bytes, bool) -> Step

  /** `Escaped` over any stepping function. */
  function Run(step: Stepper, v: bytes, blank: bool): bytes
    decreases |v|
  {
    if v == [] then []
    else
      var s := step(v, blank);
      if 1 <= s.size <= |v| then s.output + Run(step, v[s.size..], s.blank) else []
  }

  ghost predicate Follows(step: Stepper, k: Classifier)
    requires Regular(k)
  {
    forall v, blank {:trigger Next(k, v, blank, false)} :: v != [] ==> step(v, blank) == Next(k, v, blank, false)
  }

  lemma {:induction false} RunIsEscaped(step: Stepper, k: Classifier, v: bytes, blank: bool)
    requires Regular(k) && Follows(step, k)
    ensures Run(step, v, blank) == Escaped(k, v, blank, false)
    decreases |v|
  {
    if v != [] {
      var s := Next(k, v, blank, false);
      RunIsEscaped(step, k, v[s.size..], s.blank);
      OneStep(k, v, blank, false, s);
    }
  }

  /** `done` is what the bytes before `index` became, and the rest of `all` is still to come. */
  ghost predicate UpTo(step: Stepper, value: bytes, index: nat, blank: bool, lastLineFeed: bool, done: bytes,
                       all: bytes) {
    && index <= |value|
    && done + Run(step, value[index..], blank) == all
    && (lastLineFeed <==> index > 0 && value[index - 1] == LF)
  }

  lemma {:induction false} StepMoved(step: Stepper, value: bytes, index: nat, blank: bool, s: Step, feed: bool,
                                     done: bytes, all: bytes)
    requires index < |value| && done + Run(step, value[index..], blank) == all
    requires s == step(value[index..], blank) && 1 <= s.size && index + s.size <= |value|
    requires feed <==> value[index + s.size - 1] == LF
    ensures UpTo(step, value, index + s.size, s.blank, feed, done + s.output, all)
  {
    var v := value[index..];
    assert v[s.size..] == value[index + s.size..];
    Moved(done, s.output, Run(step, v[s.size..], s.blank), Run(step, v, blank), all);
  }

  lemma {:induction false} CommandMoved(step: Stepper, k: Classifier, value: bytes, index: nat, blank: bool, feed: bool,
                                        done: bytes, all: bytes)
    requires Regular(k) && Follows(step, k) && UpTo(step, value, index, blank, feed, done, all)
    requires index < |value| && WorkflowCommand(value[index..], blank)
    ensures UpTo(step, value, index + 1, false, false, done + EscapedByte(value[index]), all)
  {
    var s := Next(k, value[index..], blank, false);
    StepMoved(step, value, index, blank, s, false, done, all);
  }

  lemma {:induction false} CharacterMoved(step: Stepper, k: Classifier, value: bytes, index: nat, blank: bool,
                                          feed: bool, done: bytes, all: bytes)
    requires Regular(k) && Follows(step, k) && UpTo(step, value, index, blank, feed, done, all)
    requires index < |value| && !WorkflowCommand(value[index..], blank)
    ensures var v := value[index..]; var c := k(v);
      && index + c.size <= |value|
      && UpTo(step, value, index + c.size, NextLineWhitespace(blank, c), c.kind == LineFeed,
              done + Emitted(v[..c.size], c.kind, false), all)
  {
    var v := value[index..];
    var c := k(v);
    var s := Next(k, v, blank, false);
    FeedIsLast(k, v);
    StepMoved(step, value, index, blank, s, c.kind == LineFeed, done, all);
  }

  /** The function `safe`. */
  method IsSafe(k: Classifier, value: bytes) returns (ok: bool)
    requires Regular(k)
    ensures ok <==> Safe(k, value, true, false)
  {
    var index, blank := 0, true;
    ghost var verdict := Safe(k, value, true, false);
    assert value[0..] == value;
    while index < |value|
      invariant index <= |value|
      invariant verdict <==> Safe(k, value[index..], blank, false)
    {
      var rest := value[index..];
      SafeRound(k, value, index, blank);
      if WorkflowCommand(rest, blank) {
        return false;
      }
      var c := k(rest);
      if c.kind == Unsafe {
        return false;
      }
      blank := NextLineWhitespace(blank, c);
      index := index + c.size;
    }
    assert value[index..] == [];
    return true;
  }

  method Diagnostic(k: Classifier, value: bytes) returns (result: bytes)
    requires Regular(k)
    ensures result == Escaped(k, value, true, true)
  {
    ghost var all := Escaped(k, value, true, true);
    result := [];
    assert value[0..] == value;
    var index, blank := 0, true;
    while index < |value|
      invariant index <= |value|
      invariant result + Escaped(k, value[index..], blank, true) == all
    {
      var rest := value[index..];
      if WorkflowCommand(rest, blank) {
        CommandRound(k, rest, blank, true);
        Moved(result, EscapedByte(rest[0]), Escaped(k, rest[1..], false, true), Escaped(k, rest, blank, true), all);
        result := result + EscapedByte(rest[0]);
        index := index + 1;
        assert value[index..] == rest[1..];
        blank := false;
      } else {
        var c := k(rest);
        var next := NextLineWhitespace(blank, c);
        CharacterRound(k, rest, blank, true, c, next);
        Moved(result, Emitted(rest[..c.size], c.kind, true), Escaped(k, rest[c.size..], next, true),
              Escaped(k, rest, blank, true), all);
        if c.kind == Printable && rest[0] != TAB {
          result := result + rest[..c.size];
        } else {
          result := AppendEscapes(result, rest[..c.size]);
        }
        blank := next;
        index := index + c.size;
        assert value[index..] == rest[c.size..];
      }
    }
    assert value[index..] == [];
  }

  method AppendEscapes(start: bytes, value: bytes) returns (result: bytes)
    ensures result == start + EscapedBytes(value)
  {
    result := start;
    var i := 0;
    while i < |value|
      invariant i <= |value|
      invariant result + EscapedBytes(value[i..]) == start + EscapedBytes(value)
    {
      assert value[i..][1..] == value[i + 1..];
      assert result + (EscapedByte(value[i]) + EscapedBytes(value[i + 1..]))
          == (result + EscapedByte(value[i])) + EscapedBytes(value[i + 1..]);
      result := result + EscapedByte(value[i]);
      i := i + 1;
    }
    assert value[i..] == [];
  }

  /** The bytes Diagnostic reserves are exactly those it writes. */
  method DiagnosticBytes(k: Classifier, value: bytes) returns (total: nat)
    requires Regular(k)
    ensures total == |Escaped(k, value, true, true)|
  {
    total := 0;
    var index, blank := 0, true;
    while index < |value|
      invariant index <= |value|
      invariant total + |Escaped(k, value[index..], blank, true)| == |Escaped(k, value, true, true)|
    {
      var rest := value[index..];
      if WorkflowCommand(rest, blank) {
        CommandRound(k, rest, blank, true);
        total := total + 4;
        index := index + 1;
        assert value[index..] == rest[1..];
        blank := false;
      } else {
        var c := k(rest);
        var next := NextLineWhitespace(blank, c);
        CharacterRound(k, rest, blank, true, c, next);
        EscapesAreOrdinary(rest[..c.size]);
        if c.kind == Printable && rest[0] != TAB {
          total := total + c.size;
        } else {
          total := total + c.size * 4;
        }
        blank := next;
        index := index + c.size;
        assert value[index..] == rest[c.size..];
      }
    }
    assert value[index..] == [];
  }

  class Renderer {
    const output: Writer
    const buffer: array<byte>
    var used: nat
    /** What the sink had taken at first, and everything handed over since. */
    ghost var sent: bytes

    ghost predicate Valid()
      reads this, output
    {
      buffer.Length == ESCAPE_BUFFER_BYTES && used <= ESCAPE_BUFFER_BYTES && output.accepted <= sent
    }

    /** Nothing is missing between what the sink has taken and what waits in the buffer. */
    ghost predicate Intact()
      requires Valid()
      reads this, buffer, output
    {
      output.accepted + buffer[..used] == sent
    }

    constructor (output: Writer)
      ensures Valid() && Intact() && fresh(buffer) && this.output == output
      ensures sent == output.accepted
    {
      this.output := output;
      buffer := new byte[ESCAPE_BUFFER_BYTES];
      used := 0;
      sent := output.accepted;
    }

    method Flush() returns (err: Option<WriteError>)
      requires Valid() && Intact()
      modifies this`used, output
      ensures Valid() && |old(output.accepted)| <= |output.accepted|
      ensures err.None? ==> Intact() && used == 0 && output.accepted == sent
      ensures output.sound ==> err.None?
    {
      if used == 0 {
        return None;
      }
      err := Bytes(output, buffer[..used]);
      if err.None? {
        used := 0;
      }
    }

    method AppendByte(value: byte) returns (err: Option<WriteError>)
      requires Valid() && Intact()
      modifies this, buffer, output
      ensures Valid() && |old(output.accepted)| <= |output.accepted|
      ensures sent == old(sent) + [value] && (err.None? ==> Intact())
      ensures output.sound ==> err.None?
    {
      err := None;
      if used == buffer.Length {
        err := Flush();
      }
      sent := sent + [value];
      if err.Some? {
        return;
      }
      ghost var before := buffer[..used];
      buffer[used] := value;
      used := used + 1;
      assert buffer[..used] == before + [value];
    }

    method AppendBytes(value: bytes) returns (err: Option<WriteError>)
      requires Valid() && Intact()
      modifies this, buffer, output
      ensures Valid() && |old(output.accepted)| <= |output.accepted|
      ensures sent == old(sent) + value && (err.None? ==> Intact())
      ensures output.sound ==> err.None?
    {
      var i := 0;
      while i < |value|
        invariant i <= |value| && Valid() && Intact()
        invariant sent == old(sent) + value[..i]
        invariant |old(output.accepted)| <= |output.accepted|
      {
        assert value[..i + 1] == value[..i] + [value[i]];
        err := AppendByte(value[i]);
        i := i + 1;
        if err.Some? {
          assert value == value[..i] + value[i..];
          sent := old(sent) + value;
          return;
        }
      }
      assert value[..i] == value;
      err := None;
    }

    method AppendEscapedByte(value: byte) returns (err: Option<WriteError>)
      requires Valid() && Intact()
      modifies this, buffer, output
      ensures Valid() && |old(output.accepted)| <= |output.accepted|
      ensures sent == old(sent) + EscapedByte(value) && (err.None? ==> Intact())
      ensures output.sound ==> err.None?
    {
      err := AppendBytes(EscapedByte(value));
    }

    /** Adds a character as it is, or byte by byte escaped when it is unsafe. */
    method Append(value: bytes, kind: Kind) returns (err: Option<WriteError>)
      requires Valid() && Intact() && value != []
      modifies this, buffer, output
      ensures Valid() && |old(output.accepted)| <= |output.accepted|
      ensures sent == old(sent) + Emitted(value, kind, false) && (err.None? ==> Intact())
      ensures output.sound ==> err.None?
    {
      if kind != Unsafe {
        err := AppendBytes(value);
        return;
      }
      ghost var all := sent + EscapedBytes(value);
      var i := 0;
      assert value[0..] == value;
      while i < |value|
        invariant i <= |value| && Valid() && Intact()
        invariant sent + EscapedBytes(value[i..]) == all
        invariant |old(output.accepted)| <= |output.accepted|
      {
        assert value[i..][1..] == value[i + 1..];
        Moved(sent, EscapedByte(value[i]), EscapedBytes(value[i + 1..]), EscapedBytes(value[i..]), all);
        err := AppendEscapedByte(value[i]);
        i := i + 1;
        if err.Some? {
          sent := all;
          return;
        }
      }
      assert value[i..] == [];
      err := None;
    }
  }

  /** One round of writeEscaped's loop. */
  method EscapeNext(k: Classifier, ghost step: Stepper, owner: Renderer, value: bytes, index: nat, blank: bool,
                    feed: bool, ghost all: bytes)
    returns (err: Option<WriteError>, after: nat, next: bool, lastLineFeed: bool)
    requires Regular(k) && Follows(step, k) && owner.Valid() && owner.Intact()
    requires index < |value| && UpTo(step, value, index, blank, feed, owner.sent, all)
    modifies owner, owner.buffer, owner.output
    ensures owner.Valid() && |old(owner.output.accepted)| <= |owner.output.accepted|
    ensures index < after && UpTo(step, value, after, next, lastLineFeed, owner.sent, all)
    ensures err.None? ==> owner.Intact()
    ensures owner.output.sound ==> err.None?
  {
    var rest := value[index..];
    if WorkflowCommand(rest, blank) {
      CommandMoved(step, k, value, index, blank, feed, owner.sent, all);
      err := owner.AppendEscapedByte(rest[0]);
      return err, index + 1, false, false;
    }
    var c := k(rest);
    CharacterMoved(step, k, value, index, blank, feed, owner.sent, all);
    err := owner.Append(rest[..c.size], c.kind);
    return err, index + c.size, NextLineWhitespace(blank, c), c.kind == LineFeed;
  }

  /** The loop of writeEscaped; after a failure the sink still holds a prefix of the rendering. */
  method EscapeAll(k: Classifier, ghost step: Stepper, owner: Renderer, value: bytes)
    returns (err: Option<WriteError>, lastLineFeed: bool)
    requires Regular(k) && Follows(step, k)
    requires owner.Valid() && owner.Intact() && value != []
    modifies owner, owner.buffer, owner.output
    ensures owner.Valid() && |old(owner.output.accepted)| <= |owner.output.accepted|
    ensures owner.sent == old(owner.sent) + Run(step, value, true)
    ensures err.None? ==> owner.Intact() && (lastLineFeed <==> value[|value| - 1] == LF)
    ensures owner.output.sound ==> err.None?
  {
    var index, blank := 0, true;
    lastLineFeed := false;
    err := None;
    ghost var all := owner.sent + Run(step, value, true);
    assert value[0..] == value;
    while index < |value|
      invariant owner.Valid() && owner.Intact() && |old(owner.output.accepted)| <= |owner.output.accepted|
      invariant UpTo(step, value, index, blank, lastLineFeed, owner.sent, all) && err.None?
    {
      err, index, blank, lastLineFeed := EscapeNext(k, step, owner, value, index, blank, lastLineFeed, all);
      if err.Some? {
        StillPrefix(owner.output.accepted, owner.sent, Run(step, value[index..], blank), all);
        owner.sent := all;
        return;
      }
    }
    assert value[index..] == [];
  }

  /** Renders through a fixed buffer: success delivers the whole rendering and failure a prefix of it, so no
      reader of the sink can see where the buffer was flushed. */
  method WriteEscaped(k: Classifier, output: Writer, value: bytes) returns (err: Option<WriteError>)
    requires Regular(k)
    requires value != []
    modifies output
    ensures err.None? ==> output.accepted == old(output.accepted) + Render(k, value)
    ensures old(output.accepted) <= output.accepted <= old(output.accepted) + Render(k, value)
    ensures output.sound ==> err.None?
  {
    var owner := new Renderer(output);
    ghost var step: Stepper := (v: bytes, blank) => if v == [] then Step(0, [], false) else Next(k, v, blank, false);
    RunIsEscaped(step, k, value, true);
    var lastLineFeed;
    err, lastLineFeed := EscapeAll(k, step, owner, value);
    if err.Some? {
      return;
    }
    if !lastLineFeed {
      err := owner.AppendByte(LF);
      if err.Some? {
        return;
      }
    }
    err := owner.Flush();
  }

  method Write(p: int -> bool, output: Writer, value: bytes) returns (err: Option<WriteError>)
    modifies output
    ensures err.None? ==> output.accepted == old(output.accepted) + Render(Classes(p), value)
    ensures old(output.accepted) <= output.accepted <= old(output.accepted) + Render(Classes(p), value)
    ensures output.sound ==> err.None?
  {
    var k := Classes(p);
    ClassesAreStandard(p);
    if |value| == 0 {
      return None;
    }
    var safe := IsSafe(k, value);
    if safe {
      DirectPath(k, value);
      err := Bytes(output, value);
      if err.None? && value[|value| - 1] != LF {
        err := Bytes(output, [LF]);
      }
      return;
    }
    err := WriteEscaped(k, output, value);
  }
}

/** Output sinks and the exact writer (internal/exactwrite).

A `Writer` is any sink: each call may take any part of the bytes, may report an error, and may even
report a count outside the bytes it was given. A `Context` is a flag that other parties may raise at any moment
and that never goes down again. */
module ExactWrite {
  import opened Options

  newtype byte = x: int | 0 <= x < 256

  type bytes = seq<byte>

  /** ASCII text as bytes. */
  function Text(s: string): bytes {
    seq(|s|, i requires 0 <= i < |s| => (s[i] as int % 256) as byte)
  }

  datatype WriteError = WriterFailed | InvalidCount | NoProgress

  class Writer {
    /** Everything the sink has taken so far. */
    var accepted: bytes
    /** A sound sink never fails, never gives a wrong count, and always takes something. */
    const sound: bool

    method Write(value: bytes) returns (written: int, failed: bool)
      modifies this
      ensures old(accepted) <= accepted <= old(accepted) + value
      ensures 0 <= written <= |value| ==> accepted == old(accepted) + value[..written]
      ensures sound ==> !failed && 0 <= written <= |value| && (value != [] ==> written > 0)
    {
      var taken: nat :| taken <= |value| && (value != [] ==> taken > 0 || !sound);
      accepted := accepted + value[..taken];
      written := *;
      if sound || 0 <= written <= |value| {
        written := taken;
      }
      failed := *;
      failed := failed && !sound;
    }
  }

  class Context {
    var done: bool
    /** Whether anything can ever end this context. */
    const mayEnd: bool
    /** Whether it is a deadline, and not a cancellation, that ends it. */
    const expires: bool

    /** This context is not done and will never be. */
    ghost predicate Alive()
      reads this
    {
      !done && !mayEnd
    }

    /** Asks whether the context is done; it may become done just before the answer. */
    method Err() returns (cancelled: bool)
      modifies this
      ensures cancelled == done
      ensures old(done) ==> done
      ensures old(Alive()) ==> !done
    {
      var ends: bool := *;
      if ends && mayEnd {
        done := true;
      }
      cancelled := done;
    }
  }

  /** Writes all of `value` or reports why not; the sink has then taken a prefix of it. A sound sink takes it all. */
  method Bytes(writer: Writer, value: bytes) returns (err: Option<WriteError>)
    modifies writer
    ensures err.None? ==> writer.accepted == old(writer.accepted) + value
    ensures old(writer.accepted) <= writer.accepted <= old(writer.accepted) + value
    ensures writer.sound ==> err.None?
  {
    var rest := value;
    while |rest| != 0
      invariant old(writer.accepted) <= writer.accepted
      invariant writer.accepted + rest == old(writer.accepted) + value
      decreases |rest|
    {
      ghost var before := writer.accepted;
      var written, failed := writer.Write(rest);
      assert before + rest == old(writer.accepted) + value;
      if written < 0 || written > |rest| {
        return Some(InvalidCount);
      }
      assert before + rest == (before + rest[..written]) + rest[written..];
      rest := rest[written..];
      if failed {
        return Some(WriterFailed);
      }
      if written == 0 {
        return Some(NoProgress);
      }
    }
    return None;
  }
}

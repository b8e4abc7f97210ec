/** `WriteSize<W>`: a writer decorator that forwards every write to its inner
    writer and adds the count the inner writer reports accepted. */
module WriteCounting {
  import opened Io

  datatype WriteSize = WriteSize(inner: Sink, size: nat)

  /** `WriteSize::size`. */
  function Size(w: WriteSize): nat
  {
    w.size
  }

  /** How far the counter is from the number of bytes the inner writer has
      accepted in all. Counting is exact when this never changes. */
  function Drift(w: WriteSize): int
  {
    Size(w) - |w.inner.written|
  }

  /** `WriteSize::new`: a fresh wrapper reports 0, so its counter equals what
      the inner writer accepts from then on. */
  function New(inner: Sink): (w: WriteSize)
    ensures w.inner == inner
    ensures Size(w) == 0
    ensures Drift(w) == -|inner.written|
  {
    WriteSize(inner, 0)
  }

  /** `Write::write` for `WriteSize`: the inner result is passed through
      unchanged; the counter grows by the count accepted, which for a short
      write is less than the buffer length, and by nothing on an error. */
  function Write(w: WriteSize, buf: seq<byte>): (out: Stepped<WriteSize, IoResult<nat>>)
    ensures out.state.inner == SinkWrite(w.inner, buf).state
    ensures out.result == SinkWrite(w.inner, buf).result
    ensures out.result.Ok? ==> Size(out.state) == Size(w) + out.result.value && out.result.value <= |buf|
    ensures out.result.Err? ==> Size(out.state) == Size(w)
    ensures Drift(out.state) == Drift(w)
  {
    var sent := SinkWrite(w.inner, buf);
    if sent.result.Err? then Stepped(WriteSize(sent.state, w.size), sent.result)
    else Stepped(WriteSize(sent.state, w.size + sent.result.value), sent.result)
  }

  /** `Write::flush` for `WriteSize`: forwarded, never counted. */
  function Flush(w: WriteSize): (out: Stepped<WriteSize, IoResult<()>>)
    ensures out.state.inner == SinkFlush(w.inner).state
    ensures out.result == SinkFlush(w.inner).result
    ensures Size(out.state) == Size(w)
    ensures Drift(out.state) == Drift(w)
  {
    var flushed := SinkFlush(w.inner);
    Stepped(WriteSize(flushed.state, w.size), flushed.result)
  }

  /** Hands all of `buf` to the decorator, retrying the unaccepted remainder
      after a short write, as a producer writing into `WriteSize` does; a
      write that accepts nothing of a non-empty remainder is `WriteZero`.
      Whatever the outcome, the counter grew by exactly what was accepted. */
  function WriteAll(w: WriteSize, buf: seq<byte>): (out: Stepped<WriteSize, IoResult<()>>)
    ensures out.result.Ok? ==> Size(out.state) == Size(w) + |buf|
    ensures out.result.Ok? ==> out.state.inner.written == w.inner.written + buf
    ensures Size(w) <= Size(out.state) <= Size(w) + |buf|
    ensures Drift(out.state) == Drift(w)
    ensures w.inner.plan == [] ==> out.result.Ok? && out.state.inner.plan == []
    decreases |buf|
  {
    if buf == [] then Stepped(w, Ok(()))
    else
      var sent := Write(w, buf);
      if sent.result.Err? then Stepped(sent.state, Err(sent.result.error))
      else if sent.result.value == 0 then Stepped(sent.state, Err(WriteZero))
      else
        var n := sent.result.value;
        var out := WriteAll(sent.state, buf[n..]);
        assert buf == buf[..n] + buf[n..];
        out
  }

  /** A call on the decorator. */
  datatype WriteOp = WriteCall(buf: seq<byte>) | FlushCall

  /** What a call returned. */
  datatype Reply = Wrote(wrote: IoResult<nat>) | Flushed(flushed: IoResult<()>)

  function Step(w: WriteSize, op: WriteOp): Stepped<WriteSize, Reply>
  {
    match op
    case WriteCall(buf) => var wrote := Write(w, buf); Stepped(wrote.state, Wrote(wrote.result))
    case FlushCall => var flushed := Flush(w); Stepped(flushed.state, Flushed(flushed.result))
  }

  /** A run of calls in order, with the reply to each. */
  function Apply(w: WriteSize, ops: seq<WriteOp>): (out: Stepped<WriteSize, seq<Reply>>)
    ensures |out.result| == |ops|
    decreases |ops|
  {
    if ops == [] then Stepped(w, [])
    else
      var first := Step(w, ops[0]);
      var more := Apply(first.state, ops[1..]);
      Stepped(more.state, [first.result] + more.result)
  }

  /** Total count the successful writes among `replies` report accepted;
      flushes and errors count 0. */
  function Accepted(replies: seq<Reply>): nat
  {
    if replies == [] then 0
    else (if replies[0].Wrote? && replies[0].wrote.Ok? then replies[0].wrote.value else 0)
         + Accepted(replies[1..])
  }

  /** Over any run of writes and flushes the counter grows by exactly the
      total the successful writes reported, and keeps equal to what the inner
      writer accepted since wrapping. */
  lemma {:induction false} ApplyCounts(w: WriteSize, ops: seq<WriteOp>)
    ensures Size(Apply(w, ops).state) == Size(w) + Accepted(Apply(w, ops).result)
    ensures Drift(Apply(w, ops).state) == Drift(w)
    decreases |ops|
  {
    if ops != [] {
      var first := Step(w, ops[0]);
      ApplyCounts(first.state, ops[1..]);
      var replies := Apply(first.state, ops[1..]).result;
      assert ([first.result] + replies)[1..] == replies;
    }
  }

  /** Stopping a run of calls early never leaves a larger counter. */
  lemma {:induction false} ApplyPrefix(w: WriteSize, ops: seq<WriteOp>, i: nat)
    requires i <= |ops|
    ensures Size(Apply(w, ops[..i]).state) <= Size(Apply(w, ops).state)
    decreases |ops|
  {
    if i == 0 {
      assert ops[..0] == [];
      ApplyCounts(w, ops);
    } else {
      var first := Step(w, ops[0]);
      assert ops[..i][0] == ops[0];
      assert ops[..i][1..] == ops[1..][..i - 1];
      ApplyPrefix(first.state, ops[1..], i - 1);
    }
  }

  /** The counter never decreases along a run of calls. */
  lemma WriteCounterMonotone(w: WriteSize, ops: seq<WriteOp>, i: nat, j: nat)
    requires i <= j <= |ops|
    ensures Size(Apply(w, ops[..i]).state) <= Size(Apply(w, ops[..j]).state)
  {
    assert ops[..j][..i] == ops[..i];
    ApplyPrefix(w, ops[..j], i);
  }

  /** A run of flushes alone leaves the counter where it was. */
  lemma {:induction false} FlushesDoNotCount(w: WriteSize, ops: seq<WriteOp>)
    requires forall k :: 0 <= k < |ops| ==> ops[k] == FlushCall
    ensures Size(Apply(w, ops).state) == Size(w)
    decreases |ops|
  {
    if ops != [] {
      FlushesDoNotCount(Step(w, ops[0]).state, ops[1..]);
    }
  }
}

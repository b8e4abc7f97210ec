/** Abstract byte streams: the readers and writers the counting decorators wrap.

    A concrete `Read` or `Write` implementation is replaced here by a scripted
    stream. The script says what the next calls do (a short transfer or an
    error); once it is spent the stream behaves as well as it can. This lets
    every property be stated for arbitrary partial reads, short writes and
    failures, which is exactly what the decorators must count correctly.
 */
module Io {

  newtype byte = x: int | 0 <= x < 256

  type Positive = n: nat | 0 < n witness 1

  datatype Option<+T> = None | Some(value: T)

  /** The error kinds the pipeline tells apart. `WriteZero` is raised by a
      write-everything loop whose writer accepted nothing; every other error
      comes from the operating system. */
  datatype IoError = WriteZero | Os(code: int)

  /** `std::io::Result`. */
  datatype IoResult<+T> = Ok(value: T) | Err(error: IoError)

  /** What a call on a stream leaves behind: the stream's next state and
      the result the call returns. */
  datatype Stepped<S, R> = Stepped(state: S, result: R)

  function Min(a: nat, b: nat): nat
  {
    if a <= b then a else b
  }

  /** What the wrapped reader does on one call: deliver at most `limit` bytes,
      or fail. */
  datatype ReadStep = Short(limit: Positive) | Fail(error: IoError)

  /** A reader still holding the bytes `rest`. Each call consumes one step of
      `plan`; once `plan` is spent each call fills as much of the buffer as
      the remaining data allows. */
  datatype Source = Source(rest: seq<byte>, plan: seq<ReadStep>)

  /** A measure that every call other than an end-of-data read decreases. */
  function Pending(s: Source): nat
  {
    |s.rest| + |s.plan|
  }

  /** One `Read::read` into a buffer of `bufLen` bytes; the delivered bytes are
      returned as the chunk, so its length is the count `read` reports. */
  function SourceRead(s: Source, bufLen: nat): (out: Stepped<Source, IoResult<seq<byte>>>)
    ensures out.result.Ok? ==> |out.result.value| <= bufLen && s.rest == out.result.value + out.state.rest
    ensures out.result.Err? ==> out.state.rest == s.rest
    // a zero-length read into a non-empty buffer means end of data, and only that
    ensures out.result.Ok? && 0 < bufLen ==> (out.result.value == [] <==> s.rest == [])
    ensures out.result.Err? || |out.result.value| > 0 ==> Pending(out.state) < Pending(s)
  {
    if s.plan == [] then
      var n := Min(bufLen, |s.rest|);
      assert s.rest == s.rest[..n] + s.rest[n..];
      Stepped(Source(s.rest[n..], []), Ok(s.rest[..n]))
    else
      match s.plan[0]
      case Fail(e) => Stepped(Source(s.rest, s.plan[1..]), Err(e))
      case Short(limit) =>
        var n := Min(Min(limit, bufLen), |s.rest|);
        assert s.rest == s.rest[..n] + s.rest[n..];
        Stepped(Source(s.rest[n..], s.plan[1..]), Ok(s.rest[..n]))
  }

  /** What the wrapped writer does on one call: accept at most `limit` bytes
      of the buffer, or refuse with an error. */
  datatype WriteStep = Accept(limit: nat) | Refuse(error: IoError)

  /** A writer that has accepted `written` so far. Each write consumes one
      step of `plan`; once `plan` is spent it accepts whole buffers. The log
      `written` is the model's record of the accepted bytes; a discarding
      writer keeps none of them. */
  datatype Sink = Sink(written: seq<byte>, plan: seq<WriteStep>)

  /** `std::io::sink()`: accepts every buffer in full and never fails. */
  const Discard: Sink := Sink([], [])

  /** One `Write::write` of `buf`; the result is the count accepted. */
  function SinkWrite(k: Sink, buf: seq<byte>): (out: Stepped<Sink, IoResult<nat>>)
    ensures out.result.Ok? ==> out.result.value <= |buf| && out.state.written == k.written + buf[..out.result.value]
    ensures out.result.Err? ==> out.state.written == k.written
    ensures k.plan == [] ==> out.result == Ok(|buf|) && out.state.plan == []
  {
    if k.plan == [] then
      assert buf[..|buf|] == buf;
      Stepped(Sink(k.written + buf, []), Ok(|buf|))
    else
      match k.plan[0]
      case Refuse(e) => Stepped(Sink(k.written, k.plan[1..]), Err(e))
      case Accept(limit) =>
        var n := Min(limit, |buf|);
        Stepped(Sink(k.written + buf[..n], k.plan[1..]), Ok(n))
  }

  /** One `Write::flush`: fails when the next scripted step is a refusal
      (and consumes it); never changes what has been accepted. */
  function SinkFlush(k: Sink): (out: Stepped<Sink, IoResult<()>>)
    ensures out.state.written == k.written
    ensures k.plan == [] ==> out == Stepped(k, Ok(()))
  {
    if k.plan != [] && k.plan[0].Refuse? then
      Stepped(Sink(k.written, k.plan[1..]), Err(k.plan[0].error))
    else
      Stepped(k, Ok(()))
  }
}

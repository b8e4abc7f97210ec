/** The measuring run of `main`: wrap the input in `ReadSize`, copy it to
    end of data into a gzip encoder whose output goes through `WriteSize`
    into a discarding writer, finish the encoder, then report both counters.

    The encoder itself is opaque here: all that matters to the counters is
    which buffers of compressed bytes it hands downstream and when. */
module Pipeline {
  import opened Io
  import ReadCounting
  import WriteCounting
  import Report

  /** Buffer length `std::io::copy` reads with (its 8 KiB default). */
  const CopyBufLen: nat := 8192

  /** What the encoder at some compression level hands downstream: one buffer
      per chunk written into it, in order (nothing once these run out), and
      the trailing bytes `finish` emits. Their content is not modelled. */
  datatype EncoderScript = EncoderScript(emits: seq<seq<byte>>, tail: seq<byte>)

  /** The encoder's state: the input it has consumed, the counting writer it
      owns, and what it has yet to hand downstream. */
  datatype Encoder = Encoder(input: seq<byte>, out: WriteCounting.WriteSize, emits: seq<seq<byte>>, tail: seq<byte>)

  /** The concatenation of `bufs`. */
  function Flatten(bufs: seq<seq<byte>>): seq<byte>
  {
    if bufs == [] then [] else bufs[0] + Flatten(bufs[1..])
  }

  /** The downstream writer never refuses, as `std::io::sink()` does not. */
  predicate Quiet(e: Encoder)
  {
    e.out.inner.plan == []
  }

  /** `GzEncoder::new(WriteSize::new(sink()), _)`. */
  function NewEncoder(script: EncoderScript): (e: Encoder)
    ensures Quiet(e) && e.input == [] && e.tail == script.tail
    ensures WriteCounting.Size(e.out) == 0 && WriteCounting.Drift(e.out) == 0
    ensures e.out.inner.written + Flatten(e.emits) == Flatten(script.emits)
  {
    Encoder([], WriteCounting.New(Discard), script.emits, script.tail)
  }

  /** The encoder's `write_all` of one chunk: it consumes the chunk and hands
      its next scripted buffer downstream in full. */
  function EncoderWrite(e: Encoder, chunk: seq<byte>): (out: Stepped<Encoder, IoResult<()>>)
    ensures out.result.Ok? ==> out.state.input == e.input + chunk
    ensures out.state.tail == e.tail
    ensures WriteCounting.Size(e.out) <= WriteCounting.Size(out.state.out)
    ensures WriteCounting.Drift(out.state.out) == WriteCounting.Drift(e.out)
  {
    if e.emits == [] then
      Stepped(Encoder(e.input + chunk, e.out, [], e.tail), Ok(()))
    else
      var handed := WriteCounting.WriteAll(e.out, e.emits[0]);
      if handed.result.Err? then Stepped(Encoder(e.input, handed.state, e.emits[1..], e.tail), handed.result)
      else Stepped(Encoder(e.input + chunk, handed.state, e.emits[1..], e.tail), Ok(()))
  }

  /** Over a downstream writer that never refuses, writing into the encoder
      never fails and everything it hands downstream is accepted. */
  lemma QuietEncoderWrite(e: Encoder, chunk: seq<byte>)
    requires Quiet(e)
    ensures var out := EncoderWrite(e, chunk);
            && out.result.Ok? && Quiet(out.state)
            && out.state.out.inner.written + Flatten(out.state.emits) == e.out.inner.written + Flatten(e.emits)
  {
  }

  /** `GzEncoder::finish`: hands the trailing bytes downstream and returns
      the counting writer. */
  function Finish(e: Encoder): (out: Stepped<WriteCounting.WriteSize, IoResult<()>>)
    ensures out.result.Ok? ==> WriteCounting.Size(out.state) == WriteCounting.Size(e.out) + |e.tail|
    ensures out.result.Ok? ==> out.state.inner.written == e.out.inner.written + e.tail
    ensures WriteCounting.Drift(out.state) == WriteCounting.Drift(e.out)
    ensures Quiet(e) ==> out.result.Ok?
  {
    WriteCounting.WriteAll(e.out, e.tail)
  }

  /** Reading `s` to end of data, with no counter and no encoder: the
      reference the copy loop is measured against. */
  function Drain(s: Source, bufLen: nat): (r: IoResult<seq<byte>>)
    requires 0 < bufLen
    ensures r.Ok? ==> r.value == s.rest
    decreases Pending(s)
  {
    var got := SourceRead(s, bufLen);
    if got.result.Err? then Err(got.result.error)
    else if got.result.value == [] then Ok([])
    else
      var more := Drain(got.state, bufLen);
      if more.Err? then more else Ok(got.result.value + more.value)
  }

  /** Where a copy stopped: the counting reader, the encoder, and the
      byte count `io::copy` returns or the error it stopped on. */
  datatype Copied = Copied(reader: ReadCounting.ReadSize, encoder: Encoder, result: IoResult<nat>)

  /** `std::io::copy(&mut ReadSize, &mut encoder)`: read a chunk; stop at a
      zero-length read; otherwise write the chunk into the encoder and go on.
      Any error ends the copy. What the copy achieves is stated by the
      lemmas that follow. */
  function Copy(r: ReadCounting.ReadSize, e: Encoder, bufLen: nat): (out: Copied)
    requires 0 < bufLen
    ensures out.encoder.tail == e.tail
    decreases Pending(r.inner)
  {
    var step := ReadCounting.Read(r, bufLen);
    if step.result.Err? then Copied(step.state, e, Err(step.result.error))
    else if step.result.value == [] then Copied(step.state, e, Ok(0))
    else
      var chunk := step.result.value;
      var pushed := EncoderWrite(e, chunk);
      if pushed.result.Err? then Copied(step.state, pushed.state, Err(pushed.result.error))
      else
        var rest := Copy(step.state, pushed.state, bufLen);
        if rest.result.Err? then rest
        else Copied(rest.reader, rest.encoder, Ok(|chunk| + rest.result.value))
  }

  /** A successful copy returns the length of the whole input. */
  lemma {:induction false} CopyReturnsLength(r: ReadCounting.ReadSize, e: Encoder, bufLen: nat)
    requires 0 < bufLen
    ensures var out := Copy(r, e, bufLen);
            out.result.Ok? ==> out.result.value == |r.inner.rest|
    decreases Pending(r.inner)
  {
    var step := ReadCounting.Read(r, bufLen);
    if step.result.Ok? && step.result.value != [] {
      var pushed := EncoderWrite(e, step.result.value);
      if pushed.result.Ok? {
        var rest := Copy(step.state, pushed.state, bufLen);
        CopyReturnsLength(step.state, pushed.state, bufLen);
        assert Copy(r, e, bufLen).result.Ok? ==> Copy(r, e, bufLen).result.value == |step.result.value| + rest.result.value;
        assert |r.inner.rest| == |step.result.value| + |step.state.inner.rest|;
      }
    } else if step.result.Ok? {
      assert Copy(r, e, bufLen).result == Ok(0);
    }
  }

  /** Appending a sequence that splits as `b + c` appends `b`, then `c`. */
  lemma AppendSplit(a: seq<byte>, b: seq<byte>, c: seq<byte>, bc: seq<byte>)
    requires bc == b + c
    ensures a + bc == (a + b) + c
  {
  }

  /** After a successful copy the encoder has consumed exactly the input,
      in order. */
  lemma {:induction false} CopyFeedsEncoder(r: ReadCounting.ReadSize, e: Encoder, bufLen: nat)
    requires 0 < bufLen
    ensures var out := Copy(r, e, bufLen);
            out.result.Ok? ==> out.encoder.input == e.input + r.inner.rest
    decreases Pending(r.inner)
  {
    var step := ReadCounting.Read(r, bufLen);
    if step.result.Ok? && step.result.value != [] {
      var chunk := step.result.value;
      var pushed := EncoderWrite(e, chunk);
      if pushed.result.Ok? {
        CopyFeedsEncoder(step.state, pushed.state, bufLen);
        AppendSplit(e.input, chunk, step.state.inner.rest, r.inner.rest);
      }
    } else if step.result.Ok? {
      assert e.input + r.inner.rest == e.input;
    }
  }

  /** A successful copy leaves the read counter grown by exactly the length
      of the input. */
  lemma {:induction false} CopyCountsInput(r: ReadCounting.ReadSize, e: Encoder, bufLen: nat)
    requires 0 < bufLen
    ensures var out := Copy(r, e, bufLen);
            out.result.Ok? ==> ReadCounting.Size(out.reader) == ReadCounting.Size(r) + |r.inner.rest|
    decreases Pending(r.inner)
  {
    var step := ReadCounting.Read(r, bufLen);
    if step.result.Ok? && step.result.value != [] {
      var pushed := EncoderWrite(e, step.result.value);
      if pushed.result.Ok? {
        var rest := Copy(step.state, pushed.state, bufLen);
        CopyCountsInput(step.state, pushed.state, bufLen);
        assert Copy(r, e, bufLen).reader == rest.reader;
        assert |r.inner.rest| == |step.result.value| + |step.state.inner.rest|;
      }
    } else if step.result.Ok? {
      assert Copy(r, e, bufLen).reader == step.state;
    }
  }

  /** Whatever the outcome, the write counter stays exactly in step with
      what the downstream writer accepted. */
  lemma {:induction false} CopyKeepsDrift(r: ReadCounting.ReadSize, e: Encoder, bufLen: nat)
    requires 0 < bufLen
    ensures WriteCounting.Drift(Copy(r, e, bufLen).encoder.out) == WriteCounting.Drift(e.out)
    decreases Pending(r.inner)
  {
    var step := ReadCounting.Read(r, bufLen);
    if step.result.Ok? && step.result.value != [] {
      var pushed := EncoderWrite(e, step.result.value);
      if pushed.result.Ok? {
        CopyKeepsDrift(step.state, pushed.state, bufLen);
        assert Copy(r, e, bufLen).encoder == Copy(step.state, pushed.state, bufLen).encoder;
      } else {
        assert Copy(r, e, bufLen).encoder == pushed.state;
      }
    } else {
      assert Copy(r, e, bufLen).encoder == e;
    }
  }

  /** At every step of the copy the read counter is the length of the data
      prefix delivered so far, so it never exceeds the input's length. */
  lemma {:induction false} CopyKeepsTracking(r: ReadCounting.ReadSize, e: Encoder, bufLen: nat, data: seq<byte>)
    requires 0 < bufLen
    requires ReadCounting.Tracks(r, data)
    ensures ReadCounting.Tracks(Copy(r, e, bufLen).reader, data)
    ensures ReadCounting.Size(Copy(r, e, bufLen).reader) <= |data|
    decreases Pending(r.inner)
  {
    var step := ReadCounting.Read(r, bufLen);
    ReadCounting.ReadKeepsTracking(r, data, bufLen);
    if step.result.Ok? && step.result.value != [] {
      var pushed := EncoderWrite(e, step.result.value);
      if pushed.result.Ok? {
        CopyKeepsTracking(step.state, pushed.state, bufLen, data);
        assert Copy(r, e, bufLen).reader == Copy(step.state, pushed.state, bufLen).reader;
      } else {
        assert Copy(r, e, bufLen).reader == step.state;
      }
    } else {
      assert Copy(r, e, bufLen).reader == step.state;
    }
  }

  /** With a downstream writer that never refuses, the copy fails exactly
      when reading the input to end of data fails, and everything the encoder
      handed downstream was accepted. */
  lemma {:induction false} QuietCopy(r: ReadCounting.ReadSize, e: Encoder, bufLen: nat)
    requires 0 < bufLen
    requires Quiet(e)
    ensures var out := Copy(r, e, bufLen);
            && Quiet(out.encoder)
            && (out.result.Ok? <==> Drain(r.inner, bufLen).Ok?)
            && out.encoder.out.inner.written + Flatten(out.encoder.emits) == e.out.inner.written + Flatten(e.emits)
    decreases Pending(r.inner)
  {
    var step := ReadCounting.Read(r, bufLen);
    var got := SourceRead(r.inner, bufLen);
    assert step.state.inner == got.state && step.result == got.result;
    if step.result.Ok? && step.result.value != [] {
      QuietEncoderWrite(e, step.result.value);
      var pushed := EncoderWrite(e, step.result.value);
      var rest := Copy(step.state, pushed.state, bufLen);
      QuietCopy(step.state, pushed.state, bufLen);
      assert Copy(r, e, bufLen).encoder == rest.encoder;
      assert Copy(r, e, bufLen).result.Ok? == rest.result.Ok?;
      assert Drain(r.inner, bufLen).Ok? == Drain(got.state, bufLen).Ok?;
    } else {
      assert Copy(r, e, bufLen).encoder == e;
    }
  }

  /** The two counters of one completed run. */
  datatype RunResult = RunResult(original: nat, compressed: nat)

  /** The counting part of `main` for one input: copy, finish, then take the
      read counter as the original size and the write counter, after
      `finish`, as the compressed size. The run fails exactly when reading
      the input fails; on success the original size is the input's length
      and the compressed size lies between the trailer's length and all the
      encoder could emit; MeasureCountsDownstream pins it down exactly. */
  function Measure(src: Source, script: EncoderScript): (m: IoResult<RunResult>)
    ensures m.Ok? <==> Drain(src, CopyBufLen).Ok?
    ensures m.Ok? ==> m.value.original == |src.rest|
    ensures m.Ok? ==> |script.tail| <= m.value.compressed <= |Flatten(script.emits)| + |script.tail|
  {
    var r := ReadCounting.New(src);
    var e := NewEncoder(script);
    var copied := Copy(r, e, CopyBufLen);
    CopyCountsInput(r, e, CopyBufLen);
    CopyKeepsDrift(r, e, CopyBufLen);
    QuietCopy(r, e, CopyBufLen);
    if copied.result.Err? then Err(copied.result.error)
    else
      var fin := Finish(copied.encoder);
      match fin.result
      case Err(err) => Err(err)
      case Ok(_) =>
        var sent := copied.encoder.out.inner.written;
        assert |sent| <= |Flatten(script.emits)| by {
          assert sent + Flatten(copied.encoder.emits) == Flatten(script.emits);
        }
        assert WriteCounting.Size(copied.encoder.out) == |sent|;
        Ok(RunResult(ReadCounting.Size(copied.reader), WriteCounting.Size(fin.state)))
  }

  /** The compressed size is exactly what the encoder handed downstream,
      trailer included: the bytes the copy pushed through, plus the trailer
      `finish` appends. */
  lemma MeasureCountsDownstream(src: Source, script: EncoderScript)
    ensures var copied := Copy(ReadCounting.New(src), NewEncoder(script), CopyBufLen);
            Measure(src, script).Ok? ==>
              && Measure(src, script).value.compressed == |Finish(copied.encoder).state.inner.written|
              && Measure(src, script).value.compressed == |copied.encoder.out.inner.written| + |script.tail|
  {
    var r := ReadCounting.New(src);
    var e := NewEncoder(script);
    CopyKeepsDrift(r, e, CopyBufLen);
    QuietCopy(r, e, CopyBufLen);
  }

  /** With no data left and a first read that does not fail, the copy
      stops at once: nothing reaches the encoder and nothing is counted. */
  lemma CopyOfNothing(r: ReadCounting.ReadSize, e: Encoder)
    requires r.inner.rest == []
    requires r.inner.plan == [] || r.inner.plan[0].Short?
    ensures Copy(r, e, CopyBufLen) == Copied(ReadCounting.Read(r, CopyBufLen).state, e, Ok(0))
    ensures ReadCounting.Size(ReadCounting.Read(r, CopyBufLen).state) == ReadCounting.Size(r)
  {
    // Dafny needs none of these steps, but spelling out the first read
    // keeps the proof cheap on every solver seed.
    var got := SourceRead(r.inner, CopyBufLen);
    assert got.result.Ok?;
    var step := ReadCounting.Read(r, CopyBufLen);
    assert step.result == Ok([]);
  }

  /** Empty input still measures successfully, unless the very first read
      fails: the original size is 0 and the compressed size is the encoder's
      trailer alone. */
  lemma EmptyInput(plan: seq<ReadStep>, script: EncoderScript)
    requires plan == [] || plan[0].Short?
    ensures Measure(Source([], plan), script) == Ok(RunResult(0, |script.tail|))
  {
    // As in CopyOfNothing, the steps are there to keep the proof stable.
    var r := ReadCounting.New(Source([], plan));
    var e := NewEncoder(script);
    CopyOfNothing(r, e);
    var fin := Finish(e);
    assert fin.result.Ok? && WriteCounting.Size(fin.state) == |script.tail|;
  }

  /** The command line, as parsed: the optional input path, the compression
      level (passed to the encoder without a range check), and the two
      output flags. */
  datatype Cli = Cli(file: Option<string>, level: nat, raw: bool, includeOriginal: bool)

  /** The input: the named file, opened by `open`, or else standard input.
      A named file that turns out empty is ordinary empty input. */
  function Resolve(file: Option<string>, open: string -> IoResult<Source>, stdin: Source): IoResult<Source>
  {
    match file
    case Some(path) => open(path)
    case None => Ok(stdin)
  }

  /** `main`, with printing taken to succeed: its standard output is
      `Ok(line)`, or nothing at all when the input cannot be opened or read. `encoder` says what the gzip encoder
      hands downstream at each level; `human` is the human-readable size
      formatter. */
  function Run(cli: Cli, open: string -> IoResult<Source>, stdin: Source,
               encoder: nat -> EncoderScript, human: nat -> string): (out: IoResult<string>)
    ensures cli.file.Some? && open(cli.file.value).Err? ==> out == Err(open(cli.file.value).error)
    ensures out.Ok? ==> |out.value| >= 1 && out.value[|out.value| - 1] == '\n'
  {
    match Resolve(cli.file, open, stdin)
    case Err(e) => Err(e)
    case Ok(src) =>
      match Measure(src, encoder(cli.level))
      case Err(e) => Err(e)
      case Ok(m) => Ok(Report.Output(cli.includeOriginal, cli.raw, m.original, m.compressed, human))
  }

  /** The model's run yields no output exactly when the input cannot be
      opened or reading it fails; no partial result is ever produced. */
  lemma RunFailsOnlyOnInputErrors(cli: Cli, open: string -> IoResult<Source>, stdin: Source,
                                  encoder: nat -> EncoderScript, human: nat -> string)
    ensures Run(cli, open, stdin, encoder, human).Err?
        <==> (Resolve(cli.file, open, stdin).Err?
              || Drain(Resolve(cli.file, open, stdin).value, CopyBufLen).Err?)
  {
  }

  /** In raw mode a successful run prints one line that reads back as the
      input's length (when asked for) and as exactly the measured compressed
      size, which is no smaller than the encoder's trailer. */
  lemma RawRunReportsInputLength(cli: Cli, open: string -> IoResult<Source>, stdin: Source,
                                 encoder: nat -> EncoderScript, human: nat -> string)
    requires cli.raw
    requires Run(cli, open, stdin, encoder, human).Ok?
    ensures var out := Run(cli, open, stdin, encoder, human).value;
            var src := Resolve(cli.file, open, stdin).value;
            && |out| >= 1 && out[|out| - 1] == '\n'
            && Report.ParseRaw(out[..|out| - 1]).Some?
            && Report.ParseRaw(out[..|out| - 1]).value.original
               == (if cli.includeOriginal then Some(|src.rest|) else None)
            && |encoder(cli.level).tail| <= Report.ParseRaw(out[..|out| - 1]).value.compressed
            && Report.ParseRaw(out[..|out| - 1]).value.compressed
               == Measure(src, encoder(cli.level)).value.compressed
  {
    var src := Resolve(cli.file, open, stdin).value;
    var m := Measure(src, encoder(cli.level)).value;
    var line := Report.Line(cli.includeOriginal, cli.raw, m.original, m.compressed, human);
    var out := Run(cli, open, stdin, encoder, human).value;
    assert out == line + "\n";
    assert out[..|out| - 1] == line;
    Report.RawLineRoundTrip(cli.includeOriginal, m.original, m.compressed, human);
  }
}

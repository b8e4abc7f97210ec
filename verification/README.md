# gzip-size-cli: byte accounting, in Dafny

`gzip-size` prints how many bytes a file or standard input takes once
gzip-compressed. Optionally it also prints the original size. It never keeps
the compressed bytes. The program pipes the input through `ReadSize`, a
reader decorator that counts bytes. The bytes go into a gzip encoder. The
encoder writes into `WriteSize`, a writer decorator that counts bytes, wrapped
around `std::io::sink()`. After `finish`, the two counters are the original
and compressed sizes. `main` then prints them in one of four formats chosen
by `--include-original` and `--raw`.

The project models that accounting as a functional state machine:

- `io.dfy` (module `Io`) has abstract streams. A `Source` is a reader scripted
  with short reads and failures. A `Sink` is a writer scripted with short
  accepts and refusals. `Discard` is `std::io::sink()`. Because the streams
  are scripted, every property below holds for arbitrary partial reads,
  short writes and errors.
- `read_size.dfy` (module `ReadCounting`) has `ReadSize`: `new`, `size` and
  `read`. It also has fold lemmas over any run of reads.
- `write_size.dfy` (module `WriteCounting`) has `WriteSize`: `new`, `size`,
  `write` and `flush`. It also has write-everything handing (`WriteAll`) and
  fold lemmas over any run of writes and flushes.
- `pipeline.dfy` (module `Pipeline`) has the copy loop of `std::io::copy`,
  the opaque encoder, `finish`, and `main` itself (`Run`).
- `report.dfy` (module `Report`) has the four-way report. The raw lines can
  be read back by a parser, which is the partner the round-trip lemmas use.

The gzip encoder is opaque. An `EncoderScript` gives the buffers it hands
downstream, one per chunk written into it, and the trailer `finish` emits.
Nothing is said about what those bytes are. The human-readable formatter
(`ByteSize`) is a parameter `human: nat -> string`. Opening a named file is a
parameter `open`, and standard input is a `Source`.

## Model

| member | source | states |
|---|---|---|
| `Io.SourceRead` | src/main.rs:43 | One inner read delivers at most the buffer's length: the next bytes of the data, in order, with the rest left behind. A zero-length read into a non-empty buffer happens exactly at end of data. An error consumes no data. Every call that fails or delivers bytes brings the reader closer to its end. |
| `Io.SinkWrite` | src/main.rs:81 | A write accepts at most the buffer and appends exactly the accepted prefix to what the writer holds. An error accepts nothing. The discarding writer `std::io::sink()` accepts every buffer whole. |
| `Io.SinkFlush` | src/main.rs:81 | A flush never changes what the writer has accepted. The discarding writer's flush always succeeds. |
| `ReadCounting.Size` | src/main.rs:36-38 | `size()` reads the counter. What it reports is stated by `ReadManyCounts`, `ReadManyTracks` and `CopyCountsInput`. |
| `ReadCounting.New` | src/main.rs:29-33 | A freshly wrapped reader reports size 0. Its counter starts tracking the inner reader's data. |
| `ReadCounting.Read` | src/main.rs:41-47 | The inner read's result is returned unchanged. A chunk of k bytes adds exactly k to the counter, and the inner reader keeps exactly the bytes after that chunk. An error is propagated and leaves the counter unchanged. |
| `ReadCounting.ReadKeepsTracking` | src/main.rs:41-47 | Every read keeps the counter equal to the length of the data prefix already delivered. So the counter never exceeds the input length. |
| `ReadCounting.ReadManyCounts` | src/main.rs:41-47 | Over any run of reads, the counter grows by exactly the total length of the chunks delivered. Failed reads add nothing. |
| `ReadCounting.ReadManyPrefix` | src/main.rs:41-47 | Stopping a run of reads early never leaves a larger counter than finishing it. |
| `ReadCounting.ReadCounterMonotone` | src/main.rs:41-47 | The read counter is non-decreasing along any run of reads. |
| `ReadCounting.ReadManyTracks` | src/main.rs:41-47 | At every point of any run of reads, the counter is the delivered prefix's length and at most the input length. |
| `WriteCounting.Size` | src/main.rs:61-63 | `size()` reads the counter. What it reports is stated by `ApplyCounts`, `CopyKeepsDrift` and `Finish`. |
| `WriteCounting.New` | src/main.rs:54-58 | A freshly wrapped writer reports size 0. From then on the counter equals what the inner writer accepts. |
| `WriteCounting.Write` | src/main.rs:66-71 | The inner write's result is returned unchanged. The counter grows by the count the inner writer reports accepted, not by the buffer length. An error leaves the counter unchanged. Counter and accepted bytes never drift apart. |
| `WriteCounting.Flush` | src/main.rs:72-74 | Flush is forwarded, its result is returned unchanged, and it never changes the counter. |
| `WriteCounting.WriteAll` | src/main.rs:66-71 | The write-everything loop belongs to the caller, the encoder: it retries the unaccepted remainder after a short write and turns `Ok(0)` into `WriteZero`. Each step is one `WriteSize::write`. On success the counter grows by exactly the buffer's length and exactly its bytes are forwarded. On failure the counter still equals what was accepted. A never-refusing writer never fails. |
| `WriteCounting.ApplyCounts` | src/main.rs:66-74 | Over any run of writes and flushes, the counter grows by exactly the total the successful writes reported. It stays equal to what the inner writer accepted. |
| `WriteCounting.ApplyPrefix` | src/main.rs:66-74 | Stopping a run of writes and flushes early never leaves a larger counter than finishing it. |
| `WriteCounting.WriteCounterMonotone` | src/main.rs:66-74 | The write counter is non-decreasing along any run of writes and flushes. |
| `WriteCounting.FlushesDoNotCount` | src/main.rs:72-74 | Any run made only of flushes leaves the counter where it was. |
| `Pipeline.NewEncoder` | src/main.rs:81 | The encoder starts over a fresh `WriteSize` around the discarding writer. The counter is 0, nothing is consumed, and everything the encoder will emit is still pending. |
| `Pipeline.EncoderWrite` | src/main.rs:85 | Writing a chunk into the encoder consumes exactly that chunk after the earlier input. It never lowers the compressed counter and keeps it equal to what was accepted. |
| `Pipeline.QuietEncoderWrite` | src/main.rs:81-85 | Over the discarding writer, writing into the encoder never fails. Everything it hands downstream is accepted, so accepted plus still-pending output is unchanged. |
| `Pipeline.Finish` | src/main.rs:94 | `finish` adds exactly the trailer's length to the compressed counter. The trailer lands after everything emitted earlier. Over the discarding writer it never fails. |
| `Pipeline.Drain` | src/main.rs:85 | Reading a reader to a zero-length read yields exactly the data it holds. This is the reference for the copy loop. |
| `Pipeline.Copy` | src/main.rs:83-92 | `std::io::copy` on either input (src/main.rs:85 and src/main.rs:90): read a chunk, stop at a zero-length read, otherwise write the chunk into the encoder and go on. Any error ends it. It never touches the encoder's trailer. What it achieves is stated by `CopyReturnsLength`, `CopyFeedsEncoder`, `CopyCountsInput`, `CopyKeepsTracking`, `CopyKeepsDrift` and `QuietCopy`. |
| `Pipeline.CopyReturnsLength` | src/main.rs:85 | A successful copy returns the length of the whole input. |
| `Pipeline.CopyFeedsEncoder` | src/main.rs:85 | After a successful copy the encoder has consumed exactly the input, unaltered and in order. |
| `Pipeline.CopyCountsInput` | src/main.rs:84-86 | After a successful copy the read counter has grown by exactly the input's length, so `size()` reports the input length. |
| `Pipeline.CopyKeepsTracking` | src/main.rs:84-86 | At every step of the copy the read counter is the length of the data prefix delivered so far, so it never exceeds the input's length. |
| `Pipeline.CopyKeepsDrift` | src/main.rs:81-85 | Whatever the copy's outcome, the write counter stays equal to what the downstream writer accepted. |
| `Pipeline.QuietCopy` | src/main.rs:81-92 | Over the discarding writer, the copy fails exactly when reading the input to end of data fails. Every byte the encoder handed downstream was accepted. |
| `Pipeline.Measure` | src/main.rs:80-94 | A run succeeds exactly when the input reads to end of data without error. The original size then equals the input length, including 0 for empty input. The compressed size, taken after `finish`, covers the trailer and at most all the encoder's output. The exact value is stated by `MeasureCountsDownstream`. |
| `Pipeline.MeasureCountsDownstream` | src/main.rs:94 | The compressed size is exactly the number of bytes the encoder handed downstream, trailer included: what the copy pushed through plus the trailer `finish` appends. |
| `Pipeline.CopyOfNothing` | src/main.rs:85 | With no data left and a first read that does not fail, the copy stops at once with count 0. The encoder is untouched and the read counter unchanged. |
| `Pipeline.EmptyInput` | src/main.rs:83-94 | Empty input, from a file or from standard input, is measured successfully unless its first read fails. The original size is 0 and the compressed size is the trailer alone. |
| `Pipeline.Resolve` | src/main.rs:83-89 | A named file is opened, and its open error is the run's error. Without a file, standard input is read. The error part is stated by `Run`, and `RunFailsOnlyOnInputErrors` relies on it. |
| `Pipeline.Run` | src/main.rs:77-107 | A named file that cannot be opened ends the run with that error and no output. A successful run prints text ending in a newline. |
| `Pipeline.RunFailsOnlyOnInputErrors` | src/main.rs:83-94 | The model's run yields no output exactly when the input cannot be opened or reading it fails. A partial result is never produced. |
| `Pipeline.RawRunReportsInputLength` | src/main.rs:95-104 | In raw mode a successful run prints one line. It reads back to the input's length exactly when `--include-original` is given. The compressed number it carries is exactly the measured compressed size, `write_size`, which `MeasureCountsDownstream` shows is every byte the encoder handed downstream. That number is at least the trailer's length. |
| `Report.Line` | src/main.rs:95-104 | The four-way match on `(include_orginal, raw)`. `RawLineRoundTrip` shows that the raw branches print plain decimals that read back to exactly the sizes, and `OneLine` shows there is no line break inside the line. |
| `Report.Output` | src/main.rs:96-103 | `println!` appends one newline to the line. `OneLine` states that the output is exactly one newline-terminated line. |
| `Report.Decimal` | src/main.rs:97 | A size is printed as at least one decimal digit, with no leading zero except for 0 itself. |
| `Report.DecimalRoundTrip` | src/main.rs:97 | Reading a printed size back gives the size. |
| `Report.DecimalInjective` | src/main.rs:103 | Distinct sizes are printed differently. |
| `Report.OneLine` | src/main.rs:95-104 | In every one of the four modes, exactly one line is printed and it ends in the newline. This assumes the human-readable formatter, used only outside raw mode, emits no line break itself. |
| `Report.RawLineRoundTrip` | src/main.rs:95-104 | `(false, true)` prints the compressed size alone. `(true, true)` prints `<original> → <compressed>`. Reading either line back recovers exactly those sizes, and shows the original exactly when it was asked for. |

## Left out

- The gzip encoder (RFC 1952 over RFC 1951, from `flate2`) is a foreign library. It is an `EncoderScript`: one emitted buffer per chunk written into it, plus a trailer at `finish`. What the bytes are, how they interleave with the encoder's internal buffering, and determinism across runs are not modelled.
- The human-readable branches (`ByteSize`, src/main.rs:96, 98-102) call a foreign formatter with floating-point unit scaling. It is the parameter `human`. Only its placement in the line is modelled.
- Command-line parsing with `clap` (src/main.rs:10-22, 78) is out. `Cli` holds the parsed fields. The `u32` level becomes a `nat` passed unchecked to the encoder, as `Compression::new` does.
- `File::open`, `BufReader` and stdin locking (src/main.rs:84, 88-89) are I/O. Opening is the parameter `open`, and standard input is a `Source`. Buffering inside `BufReader` is not modelled.
- `std::io::copy` retrying `ErrorKind::Interrupted` is out. Every error ends the copy. Its read buffer is the fixed 8 KiB `CopyBufLen`.
- A reader that returns 0 bytes before its data ends, and later returns more, is out. Scripted short reads deliver at least one byte when data remains, so a zero-length read always means end of data.
- `usize` overflow of either counter is out: counters are `nat`.
- Pipeline.Run: treats `println!` (src/main.rs:96-103) as infallible. A write failure on standard output panics in the program and prints nothing, and that is not modelled.
- Printing the error message and the exit status for `anyhow` errors is out. A failed run is an `Err` with no output.
- No level range check and no "standard input is a terminal" error exist in the code. The level's doc comment (src/main.rs:13) says "Compression level [0-9]", but src/main.rs:80 passes `args.level` to `Compression::new` unchecked, and nothing inspects standard input before reading it. The model follows the code: any level is passed through, and an interactive standard input is read like any other stream.

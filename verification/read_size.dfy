/** `ReadSize<R>`: a reader decorator that forwards every read to its inner
    reader and adds the length of each delivered chunk to a counter. */
module ReadCounting {
  import opened Io

  datatype ReadSize = ReadSize(inner: Source, size: nat)

  /** `ReadSize::size`. */
  function Size(r: ReadSize): nat
  {
    r.size
  }

  /** The decorator's invariant relative to the data `data` its inner reader
      held when it was wrapped: the counter is the length of the prefix
      already delivered, and the inner reader still holds the rest. */
  predicate Tracks(r: ReadSize, data: seq<byte>)
  {
    && Size(r) + |r.inner.rest| == |data|
    && data[Size(r)..] == r.inner.rest
  }

  /** `ReadSize::new`: a fresh wrapper reports 0 and tracks its inner data. */
  function New(inner: Source): (r: ReadSize)
    ensures r.inner == inner
    ensures Size(r) == 0
    ensures Tracks(r, inner.rest)
  {
    ReadSize(inner, 0)
  }

  /** `Read::read` for `ReadSize`: the inner result is passed through
      unchanged; a delivered chunk of length k adds exactly k, an error
      adds nothing. */
  function Read(r: ReadSize, bufLen: nat): (out: Stepped<ReadSize, IoResult<seq<byte>>>)
    ensures out.state.inner == SourceRead(r.inner, bufLen).state
    ensures out.result == SourceRead(r.inner, bufLen).result
    ensures out.result.Ok? ==> Size(out.state) == Size(r) + |out.result.value|
    ensures out.result.Ok? ==> r.inner.rest == out.result.value + out.state.inner.rest
    ensures out.result.Err? ==> Size(out.state) == Size(r)
  {
    var got := SourceRead(r.inner, bufLen);
    if got.result.Err? then Stepped(ReadSize(got.state, r.size), got.result)
    else Stepped(ReadSize(got.state, r.size + |got.result.value|), got.result)
  }

  /** Every read keeps the counter equal to the length of the delivered prefix. */
  lemma ReadKeepsTracking(r: ReadSize, data: seq<byte>, bufLen: nat)
    requires Tracks(r, data)
    ensures Tracks(Read(r, bufLen).state, data)
    ensures Size(Read(r, bufLen).state) <= |data|
  {
  }

  /** A run of reads, one per buffer length, with the result of each. */
  function ReadMany(r: ReadSize, bufLens: seq<nat>): (out: Stepped<ReadSize, seq<IoResult<seq<byte>>>>)
    ensures |out.result| == |bufLens|
    decreases |bufLens|
  {
    if bufLens == [] then Stepped(r, [])
    else
      var first := Read(r, bufLens[0]);
      var more := ReadMany(first.state, bufLens[1..]);
      Stepped(more.state, [first.result] + more.result)
  }

  /** Total length of the chunks delivered among `results`; errors count 0. */
  function Delivered(results: seq<IoResult<seq<byte>>>): nat
  {
    if results == [] then 0
    else (if results[0].Ok? then |results[0].value| else 0) + Delivered(results[1..])
  }

  /** Over any run of reads the counter grows by exactly the total length of
      the chunks delivered. */
  lemma {:induction false} ReadManyCounts(r: ReadSize, bufLens: seq<nat>)
    ensures Size(ReadMany(r, bufLens).state) == Size(r) + Delivered(ReadMany(r, bufLens).result)
    decreases |bufLens|
  {
    if bufLens != [] {
      var first := Read(r, bufLens[0]);
      ReadManyCounts(first.state, bufLens[1..]);
      var results := ReadMany(first.state, bufLens[1..]).result;
      assert ([first.result] + results)[1..] == results;
    }
  }

  /** Stopping a run of reads early never leaves a larger counter. */
  lemma {:induction false} ReadManyPrefix(r: ReadSize, bufLens: seq<nat>, i: nat)
    requires i <= |bufLens|
    ensures Size(ReadMany(r, bufLens[..i]).state) <= Size(ReadMany(r, bufLens).state)
    decreases |bufLens|
  {
    if i == 0 {
      assert bufLens[..0] == [];
      ReadManyCounts(r, bufLens);
    } else {
      var first := Read(r, bufLens[0]);
      assert bufLens[..i][0] == bufLens[0];
      assert bufLens[..i][1..] == bufLens[1..][..i - 1];
      ReadManyPrefix(first.state, bufLens[1..], i - 1);
    }
  }

  /** The counter never decreases: it is no smaller after a longer prefix of
      the same run of reads. */
  lemma ReadCounterMonotone(r: ReadSize, bufLens: seq<nat>, i: nat, j: nat)
    requires i <= j <= |bufLens|
    ensures Size(ReadMany(r, bufLens[..i]).state) <= Size(ReadMany(r, bufLens[..j]).state)
  {
    assert bufLens[..j][..i] == bufLens[..i];
    ReadManyPrefix(r, bufLens[..j], i);
  }

  /** At every point of a run of reads the counter is at most the length of
      the wrapped data. */
  lemma {:induction false} ReadManyTracks(r: ReadSize, data: seq<byte>, bufLens: seq<nat>)
    requires Tracks(r, data)
    ensures Tracks(ReadMany(r, bufLens).state, data)
    ensures Size(ReadMany(r, bufLens).state) <= |data|
    decreases |bufLens|
  {
    if bufLens != [] {
      ReadKeepsTracking(r, data, bufLens[0]);
      ReadManyTracks(Read(r, bufLens[0]).state, data, bufLens[1..]);
    }
  }
}

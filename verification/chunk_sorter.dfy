/** `sort_each_chunk`: every chunk file is read, parsed into `i64` values,
    sorted with `internal_sort`, serialised and written back in place. The first
    failure ends the run; files sorted before it stay sorted. Files are visited
    in chunk-index order. */
module ChunkSorter {
  import opened Wrappers
  import opened Bytes
  import opened Decimal
  import opened Text
  import opened TokenCodec
  import opened BubbleSort
  import opened ChunkSplitter

  /** `i64` values are compared by value. */
  function I64Key(x: i64): int {
    x
  }

  /** What the sorter does to one chunk's content: the new content, or the
      first field that is not an `i64`. */
  function ProcessChunk(content: seq<u8>): Result<seq<u8>, seq<u8>>
  {
    match Parse(content)
    case Failure(e) => Failure(e)
    case Success(xs) => Success(Serialise(SortSpec(xs, I64Key)))
  }

  /** A chunk is processed exactly when its content parses. The new content
      parses to the old values in non-decreasing order: the same multiset, and
      equal values in their old relative order. */
  lemma ProcessChunkSorts(content: seq<u8>)
    ensures ProcessChunk(content).Success? <==> Parse(content).Success?
    ensures ProcessChunk(content).Failure? ==> ProcessChunk(content).error == Parse(content).error
    ensures ProcessChunk(content).Success? ==>
      var after := Parse(ProcessChunk(content).value);
      && after.Success?
      && SortedBy(after.value, I64Key)
      && multiset(after.value) == multiset(Parse(content).value)
      && SameGroups(Parse(content).value, after.value, I64Key)
  {
    if Parse(content).Success? {
      var xs := Parse(content).value;
      var ys := SortSpec(xs, I64Key);
      SortSpecSorts(xs, I64Key);
      SortSpecStable(xs, I64Key);
      ParseSerialise(ys, [], []);
      assert [] + Serialise(ys) + [] == Serialise(ys);
    }
  }

  /** The body of the `for_each` closure: parse, `internal_sort`, serialise. */
  method SortChunk(content: seq<u8>) returns (r: Result<seq<u8>, seq<u8>>)
    ensures r == ProcessChunk(content)
  {
    var parsed := Parse(content);
    if parsed.Failure? {
      return Failure(parsed.error);
    }
    var sorted, _, _ := InternalSort(parsed.value, I64Key);
    return Success(Serialise(sorted));
  }

  /** Processing a chunk twice gives byte-identical content. */
  lemma ProcessChunkIdempotent(content: seq<u8>)
    ensures ProcessChunk(content).Success? ==>
      ProcessChunk(ProcessChunk(content).value) == ProcessChunk(content)
  {
    if Parse(content).Failure? {
      return;
    }
    var xs := Parse(content).value;
    var ys := SortSpec(xs, I64Key);
    SortSpecSorts(xs, I64Key);
    ParseSerialise(ys, [], []);
    assert [] + Serialise(ys) + [] == Serialise(ys);
    SortSpecSorted(ys, I64Key);
  }

  /** A chunk holding one number is left as it is. */
  lemma SingleValueChunk(v: i64)
    ensures ProcessChunk(ToDecimal(v)) == Success(ToDecimal(v))
  {
    var one: seq<i64> := [v];
    ParseSerialise(one, [], []);
    assert Decimals(one) == [ToDecimal(v)];
    assert [] + Serialise(one) + [] == ToDecimal(v);
    SortSpecSorted(one, I64Key);
  }

  /** Empty or all-whitespace content cannot be processed. */
  lemma ProcessBlankFails(content: seq<u8>)
    requires AllWhitespace(content)
    ensures ProcessChunk(content) == Failure([])
  {
    ParseBlankFails(content);
  }

  /** The state of the chunk files after the sorter, and how it ended. */
  datatype Outcome =
    | Done(files: seq<seq<u8>>)
    | Aborted(files: seq<seq<u8>>, at: nat, field: seq<u8>)

  /** `done` files precede the ones an outcome describes. */
  function Prepend(done: seq<seq<u8>>, r: Outcome): Outcome
  {
    match r
    case Done(fs) => Done(done + fs)
    case Aborted(fs, at, e) => Aborted(done + fs, |done| + at, e)
  }

  /** Applies `process` to each chunk in index order and stops at the first failure. */
  function RunEach(chunks: seq<seq<u8>>, process: seq<u8> -> Result<seq<u8>, seq<u8>>): (r: Outcome)
    ensures |r.files| == |chunks|
  {
    if |chunks| == 0 then Done([])
    else
      match process(chunks[0])
      case Failure(e) => Aborted(chunks, 0, e)
      case Success(u) => Prepend([u], RunEach(chunks[1..], process))
  }

  /** The run finishes exactly when every chunk can be processed, and then
      every file holds its processed chunk. Otherwise it stops at the first
      chunk that cannot be: the files before it are processed and the files
      from it on are untouched. */
  lemma {:induction false} RunEachOutcome(chunks: seq<seq<u8>>, process: seq<u8> -> Result<seq<u8>, seq<u8>>)
    ensures RunEach(chunks, process).Done? <==> forall i :: 0 <= i < |chunks| ==> process(chunks[i]).Success?
    ensures RunEach(chunks, process).Done? ==>
      forall i :: 0 <= i < |chunks| ==> process(chunks[i]) == Success(RunEach(chunks, process).files[i])
    ensures RunEach(chunks, process).Aborted? ==>
      var r := RunEach(chunks, process);
      && r.at < |chunks|
      && process(chunks[r.at]) == Failure(r.field)
      && (forall i :: 0 <= i < r.at ==> process(chunks[i]) == Success(r.files[i]))
      && (forall i :: r.at <= i < |chunks| ==> r.files[i] == chunks[i])
    decreases |chunks|
  {
    if |chunks| > 0 && process(chunks[0]).Success? {
      var rest := RunEach(chunks[1..], process);
      RunEachOutcome(chunks[1..], process);
      var r := RunEach(chunks, process);
      assert r == Prepend([process(chunks[0]).value], rest);
      assert forall i :: 1 <= i < |chunks| ==> chunks[i] == chunks[1..][i - 1];
      assert forall i :: 1 <= i < |r.files| ==> r.files[i] == rest.files[i - 1];
    }
  }

  /** `sort_each_chunk` over the chunk files in index order. */
  function SortEachChunk(chunks: seq<seq<u8>>): Outcome
  {
    RunEach(chunks, ProcessChunk)
  }

  /** One step of the run after the files `done`: a failure stops it there,
      a success adds one more processed file. */
  lemma RunEachStep(done: seq<seq<u8>>, rest: seq<seq<u8>>, process: seq<u8> -> Result<seq<u8>, seq<u8>>)
    requires |rest| > 0
    ensures process(rest[0]).Failure? ==>
      Prepend(done, RunEach(rest, process)) == Aborted(done + rest, |done|, process(rest[0]).error)
    ensures process(rest[0]).Success? ==>
      Prepend(done, RunEach(rest, process)) == Prepend(done + [process(rest[0]).value], RunEach(rest[1..], process))
  {
    var r := RunEach(rest, process);
    match process(rest[0])
    case Failure(e) =>
      assert r == Aborted(rest, 0, e);
    case Success(u) =>
      var tail := RunEach(rest[1..], process);
      assert r == Prepend([u], tail);
      PrependPrepend(done, [u], tail);
  }

  lemma PrependPrepend(a: seq<seq<u8>>, b: seq<seq<u8>>, r: Outcome)
    ensures Prepend(a, Prepend(b, r)) == Prepend(a + b, r)
  {
    assert a + (b + r.files) == (a + b) + r.files;
  }

  /** The `for_each` loop of `sort_each_chunk` over the chunk folder `dir`
      holding `chunks`, visiting files in index order, reading each
      `chunk_<i>.txt` from the folder and rewriting it in place. */
  method SortChunks(chunks: seq<seq<u8>>, dir: map<seq<u8>, seq<u8>>) returns (r: Outcome, out: map<seq<u8>, seq<u8>>)
    requires dir == ChunkDirectory(chunks)
    ensures r == SortEachChunk(chunks)
    ensures out == ChunkDirectory(r.files)
  {
    var done := [];
    out := dir;
    var i := 0;
    assert done + chunks[i..] == chunks;
    while i < |chunks|
      invariant 0 <= i <= |chunks| && |done| == i
      invariant RunEach(chunks, ProcessChunk) == Prepend(done, RunEach(chunks[i..], ProcessChunk))
      invariant out == ChunkDirectory(done + chunks[i..])
    {
      // `read_to_string` of `chunk_<i>.txt`, which still holds chunk `i`
      ReadUnprocessed(done, chunks[i..]);
      var content := out[ChunkPath(i)];
      var processed := SortChunk(content);
      RunEachStep(done, chunks[i..], ProcessChunk);
      if processed.Failure? {
        return Aborted(done + chunks[i..], i, processed.error), out;
      }
      RewriteInPlace(done, chunks[i..], processed.value);
      out := out[ChunkPath(i) := processed.value];
      assert chunks[i..][1..] == chunks[i + 1..];
      done := done + [processed.value];
      i := i + 1;
    }
    assert done + [] == done;
    assert chunks[i..] == [];
    return Done(done), out;
  }

  /** Before it is rewritten, the file of the first not-yet-processed chunk
      still holds that chunk. */
  lemma ReadUnprocessed(done: seq<seq<u8>>, rest: seq<seq<u8>>)
    requires |rest| > 0
    ensures ChunkPath(|done|) in ChunkDirectory(done + rest)
    ensures ChunkDirectory(done + rest)[ChunkPath(|done|)] == rest[0]
  {
    DirectoryContents(done + rest);
    assert (done + rest)[|done|] == rest[0];
  }

  /** Rewriting the first not-yet-processed file in place. */
  lemma RewriteInPlace(done: seq<seq<u8>>, rest: seq<seq<u8>>, u: seq<u8>)
    requires |rest| > 0
    ensures ChunkDirectory(done + rest)[ChunkPath(|done|) := u] == ChunkDirectory(done + [u] + rest[1..])
  {
    DirectoryUpdate(done + rest, |done|, u);
    assert (done + rest)[|done| := u] == done + [u] + rest[1..];
  }

  /** The whole program: `as_chunks` followed by `sort_each_chunk`. */
  function ProcessHugeFile(src: seq<u8>): Outcome
  {
    SortEachChunk(Chunks(src, CAPACITY, CEILING))
  }

  /** `ProcessHugeFile(path).as_chunks().sort_each_chunk()`: the outcome, and
      the chunk folder as the sorter leaves it. */
  method RunPipeline(src: seq<u8>) returns (r: Outcome, dir: map<seq<u8>, seq<u8>>)
    ensures r == ProcessHugeFile(src)
    ensures dir == ChunkDirectory(r.files)
  {
    var chunks, written := AsChunks(src);
    r, dir := SortChunks(chunks, written);
  }

  /** The sorter finishes exactly when every chunk parses, and then every
      file parses to its chunk's numbers in non-decreasing order (the same
      multiset). Nothing orders one file against another. */
  lemma SortEachChunkSorts(chunks: seq<seq<u8>>)
    ensures SortEachChunk(chunks).Done? <==> forall i :: 0 <= i < |chunks| ==> Parse(chunks[i]).Success?
    ensures SortEachChunk(chunks).Done? ==>
      var files := SortEachChunk(chunks).files;
      && |files| == |chunks|
      && forall i :: 0 <= i < |files| ==>
        && Parse(files[i]).Success?
        && SortedBy(Parse(files[i]).value, I64Key)
        && multiset(Parse(files[i]).value) == multiset(Parse(chunks[i]).value)
  {
    RunEachOutcome(chunks, ProcessChunk);
    forall i | 0 <= i < |chunks| {
      ProcessChunkSorts(chunks[i]);
    }
  }

  /** Running the sorter again over the files it produced changes nothing. */
  lemma SortEachChunkIdempotent(chunks: seq<seq<u8>>)
    requires SortEachChunk(chunks).Done?
    ensures SortEachChunk(SortEachChunk(chunks).files) == SortEachChunk(chunks)
  {
    var files := SortEachChunk(chunks).files;
    RunEachOutcome(chunks, ProcessChunk);
    RunEachOutcome(files, ProcessChunk);
    forall i | 0 <= i < |files| ensures ProcessChunk(files[i]) == Success(files[i]) {
      ProcessChunkIdempotent(chunks[i]);
    }
    RunEachAllSucceed(files, ProcessChunk);
  }

  /** When every chunk succeeds the run's files are the processed chunks. */
  lemma {:induction false} RunEachAllSucceed(chunks: seq<seq<u8>>, process: seq<u8> -> Result<seq<u8>, seq<u8>>)
    requires forall i :: 0 <= i < |chunks| ==> process(chunks[i]) == Success(chunks[i])
    ensures RunEach(chunks, process) == Done(chunks)
    decreases |chunks|
  {
    if |chunks| > 0 {
      RunEachAllSucceed(chunks[1..], process);
      assert [chunks[0]] + chunks[1..] == chunks;
    }
  }

  /** An empty source gives one empty chunk, which cannot be parsed: the run
      aborts at `chunk_0`. */
  lemma EmptySourceAborts()
    ensures ProcessHugeFile([]) == Aborted([[]], 0, [])
  {
    EmptySourceOneEmptyChunk();
    ProcessBlankFails([]);
  }

  /** Below the ceiling, a source whose length is a multiple of the buffer
      capacity ends with an empty chunk, so the run never finishes. */
  lemma ExactMultipleAborts(src: seq<u8>)
    requires |src| % CAPACITY == 0 && |src| < CAPACITY * CEILING
    ensures ProcessHugeFile(src).Aborted?
    ensures var chunks := Chunks(src, CAPACITY, CEILING);
      (forall i :: 0 <= i < |chunks| - 1 ==> Parse(chunks[i]).Success?) ==>
      ProcessHugeFile(src).at == |chunks| - 1
  {
    var chunks := Chunks(src, CAPACITY, CEILING);
    ChunkCountBelowCeiling(src, CAPACITY, CEILING);
    var last := |src| / CAPACITY;
    assert chunks[last] == [];
    ProcessBlankFails([]);
    RunEachOutcome(chunks, ProcessChunk);
    var r := ProcessHugeFile(src);
    if forall i :: 0 <= i < |chunks| - 1 ==> Parse(chunks[i]).Success? {
      if r.at < last {
        ProcessChunkSorts(chunks[r.at]);
        assert false;
      }
    }
  }
}

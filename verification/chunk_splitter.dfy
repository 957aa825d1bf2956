/** `as_chunks`: the source is read through a buffer of `CAPACITY` bytes, at
    most `CEILING` times; every read is written to its own chunk file, and the
    loop stops after the first read that does not fill the buffer. A read
    returns `min(CAPACITY, bytes left)`. The chunk directory is a map from
    chunk path to chunk bytes. */
module ChunkSplitter {
  import opened Bytes
  import opened Decimal

  /** `BUFFER_CAPACITY`, `u16::MAX`. */
  const CAPACITY: nat := 65535
  /** The loop runs over `0..u16::MAX`, so at most 65535 chunks. */
  const CEILING: nat := 65535

  /** The chunks written by at most `budget` reads of `cap` bytes from `src`. */
  function Chunks(src: seq<u8>, cap: nat, budget: nat): (chunks: seq<seq<u8>>)
    ensures |chunks| <= budget
    ensures budget > 0 ==> |chunks| >= 1
    decreases budget
  {
    if budget == 0 then []
    else
      var n := Min(cap, |src|);
      if n < cap then [src[..n]]
      else [src[..n]] + Chunks(src[n..], cap, budget - 1)
  }

  /** No chunk exceeds the buffer, and every chunk but the last fills it: the
      loop stops at the first short read. */
  lemma {:induction false} ChunkLengths(src: seq<u8>, cap: nat, budget: nat)
    ensures forall i :: 0 <= i < |Chunks(src, cap, budget)| ==> |Chunks(src, cap, budget)[i]| <= cap
    ensures forall i :: 0 <= i < |Chunks(src, cap, budget)| - 1 ==> |Chunks(src, cap, budget)[i]| == cap
    decreases budget
  {
    if budget > 0 && Min(cap, |src|) == cap {
      ChunkLengths(src[cap..], cap, budget - 1);
      var chunks := Chunks(src, cap, budget);
      assert chunks[1..] == Chunks(src[cap..], cap, budget - 1);
      forall i | 1 <= i < |chunks| ensures chunks[i] == chunks[1..][i - 1] {
      }
    }
  }

  /** The chunks' bytes in index order. */
  function Concat(chunks: seq<seq<u8>>): seq<u8>
  {
    if |chunks| == 0 then [] else chunks[0] + Concat(chunks[1..])
  }

  /** The chunks hold exactly the first `min(|src|, cap * budget)` source bytes,
      in order: nothing duplicated, reordered or dropped before the ceiling. */
  lemma {:induction false} ChunksPreserveBytes(src: seq<u8>, cap: nat, budget: nat)
    ensures Concat(Chunks(src, cap, budget)) == src[..Min(|src|, cap * budget)]
    decreases budget
  {
    if budget > 0 {
      var n := Min(cap, |src|);
      if n < cap {
        assert Concat(Chunks(src, cap, budget)) == src[..n] + Concat([]);
      } else {
        var rest := Chunks(src[n..], cap, budget - 1);
        ChunksPreserveBytes(src[n..], cap, budget - 1);
        assert Chunks(src, cap, budget)[1..] == rest;
        var m := Min(|src| - n, cap * (budget - 1));
        ReadLimitStep(|src|, cap, budget);
        assert src[..n] + src[n..][..m] == src[..n + m];
      }
    }
  }

  /** Below the ceiling there are `|src| / cap + 1` chunks and the last one
      holds the `|src| % cap` leftover bytes, so an exact multiple of `cap`
      (the empty source included) ends with an empty chunk. */
  lemma {:induction false} ChunkCountBelowCeiling(src: seq<u8>, cap: nat, budget: nat)
    requires cap > 0 && |src| < cap * budget
    ensures |Chunks(src, cap, budget)| == |src| / cap + 1
    ensures |Chunks(src, cap, budget)[|src| / cap]| == |src| % cap
    decreases budget
  {
    if |src| >= cap {
      var rest := Chunks(src[cap..], cap, budget - 1);
      assert cap * budget == cap + cap * (budget - 1);
      ChunkCountBelowCeiling(src[cap..], cap, budget - 1);
      DivStep(|src|, cap);
      assert Chunks(src, cap, budget)[1..] == rest;
    }
  }

  /** After one full read of `cap` bytes, the limit on what the remaining
      reads can take shrinks by `cap`. */
  lemma ReadLimitStep(len: nat, cap: nat, budget: nat)
    requires 0 < budget && cap <= len
    ensures cap + Min(len - cap, cap * (budget - 1)) == Min(len, cap * budget)
  {
    assert cap * budget == cap + cap * (budget - 1);
  }

  lemma DivStep(x: nat, c: nat)
    requires 0 < c <= x
    ensures (x - c) / c + 1 == x / c && (x - c) % c == x % c
  {
    var q, r := (x - c) / c, (x - c) % c;
    assert x == (q + 1) * c + r;
    DivUnique(x, c, q + 1, r);
  }

  lemma DivUnique(x: nat, c: nat, q: nat, r: nat)
    requires 0 <= r < c && x == q * c + r
    ensures x / c == q && x % c == r
  {
    var q', r' := x / c, x % c;
    assert q' * c + r' == q * c + r;
    if q' > q {
      MulAtLeast(q' - q, c);
    } else if q' < q {
      MulAtLeast(q - q', c);
    }
  }

  lemma MulAtLeast(a: int, c: nat)
    requires a >= 1
    ensures a * c >= c
  {
  }

  /** At or above the ceiling there are exactly `budget` chunks, all full; the
      bytes after `cap * budget` are never read. */
  lemma {:induction false} ChunkCountAtCeiling(src: seq<u8>, cap: nat, budget: nat)
    requires cap > 0 && |src| >= cap * budget
    ensures |Chunks(src, cap, budget)| == budget
    ensures forall i :: 0 <= i < budget ==> |Chunks(src, cap, budget)[i]| == cap
    decreases budget
  {
    if budget > 0 {
      assert cap * budget == cap + cap * (budget - 1);
      ChunkCountAtCeiling(src[cap..], cap, budget - 1);
    }
  }

  /** An empty source yields exactly one chunk, and it is empty. */
  lemma EmptySourceOneEmptyChunk()
    ensures Chunks([], CAPACITY, CEILING) == [[]]
  {
  }

  /** `CHUNKS_FOLDER` followed by the file-name stem. */
  const PATH_PREFIX: seq<u8> := Ascii("chunks/chunk_")
  const PATH_SUFFIX: seq<u8> := Ascii(".txt")

  /** `get_path_to_chunk_by_idx`: `chunks/chunk_<idx>.txt`. */
  function ChunkPath(idx: nat): (path: seq<u8>)
  {
    PATH_PREFIX + Digits(idx) + PATH_SUFFIX
  }

  /** Distinct chunk indices name distinct chunk files. */
  lemma ChunkPathInjective(i: nat, j: nat)
    ensures ChunkPath(i) == ChunkPath(j) <==> i == j
  {
    if ChunkPath(i) == ChunkPath(j) {
      var di, dj := Digits(i), Digits(j);
      assert |di| == |dj|;
      assert di == ChunkPath(i)[|PATH_PREFIX|..|PATH_PREFIX| + |di|];
      assert dj == ChunkPath(j)[|PATH_PREFIX|..|PATH_PREFIX| + |dj|];
      DigitsInjective(i, j);
    }
  }

  /** The paths of the chunks with index below `n`. */
  function PathsBelow(n: nat): set<seq<u8>>
  {
    if n == 0 then {} else PathsBelow(n - 1) + {ChunkPath(n - 1)}
  }

  /** A chunk's path is not among the paths of the chunks before it. */
  lemma {:induction false} PathNotBelow(m: nat, k: nat)
    requires k <= m
    ensures ChunkPath(m) !in PathsBelow(k)
  {
    if k > 0 {
      ChunkPathInjective(k - 1, m);
      PathNotBelow(m, k - 1);
    }
  }

  /** The chunk directory after writing `chunks[i]` to `ChunkPath(i)` for each `i`. */
  function ChunkDirectory(chunks: seq<seq<u8>>): map<seq<u8>, seq<u8>>
  {
    if |chunks| == 0 then map[]
    else ChunkDirectory(chunks[..|chunks| - 1])[ChunkPath(|chunks| - 1) := chunks[|chunks| - 1]]
  }

  /** The directory holds one file per chunk, at the chunk's path, and nothing
      else: no chunk file is overwritten by a later one. */
  lemma {:induction false} DirectoryContents(chunks: seq<seq<u8>>)
    ensures forall i :: 0 <= i < |chunks| ==>
      ChunkPath(i) in ChunkDirectory(chunks) && ChunkDirectory(chunks)[ChunkPath(i)] == chunks[i]
    ensures ChunkDirectory(chunks).Keys == PathsBelow(|chunks|)
    ensures |ChunkDirectory(chunks)| == |chunks|
    decreases |chunks|
  {
    if |chunks| > 0 {
      var n := |chunks| - 1;
      DirectoryContents(chunks[..n]);
      PathNotBelow(n, n);
      forall i | 0 <= i < n ensures ChunkPath(i) != ChunkPath(n) {
        ChunkPathInjective(i, n);
      }
    }
  }

  /** Writing one more chunk adds one file and leaves the others alone. */
  lemma DirectoryAppend(chunks: seq<seq<u8>>, c: seq<u8>)
    ensures ChunkDirectory(chunks + [c]) == ChunkDirectory(chunks)[ChunkPath(|chunks|) := c]
  {
    var all := chunks + [c];
    assert |all| - 1 == |chunks| && all[|all| - 1] == c && all[..|all| - 1] == chunks;
  }

  /** Overwriting the file of chunk `i` is the directory of the chunks with
      chunk `i` replaced. */
  lemma {:induction false} DirectoryUpdate(chunks: seq<seq<u8>>, i: nat, c: seq<u8>)
    requires i < |chunks|
    ensures ChunkDirectory(chunks)[ChunkPath(i) := c] == ChunkDirectory(chunks[i := c])
    decreases |chunks|
  {
    var n := |chunks| - 1;
    var updated := chunks[i := c];
    assert updated[..n] == if i == n then chunks[..n] else chunks[..n][i := c];
    if i < n {
      DirectoryUpdate(chunks[..n], i, c);
      ChunkPathInjective(i, n);
    }
  }

  /** The loop of `as_chunks` for a buffer of `cap` bytes and at most
      `ceiling` iterations, writing each read into the chunk directory. */
  method SplitLoop(src: seq<u8>, cap: nat, ceiling: nat) returns (chunks: seq<seq<u8>>, dir: map<seq<u8>, seq<u8>>)
    ensures chunks == Chunks(src, cap, ceiling)
    ensures dir == ChunkDirectory(chunks)
  {
    ghost var whole := Chunks(src, cap, ceiling);
    chunks, dir := [], map[];
    var pos: nat := 0;
    var left := ceiling;
    assert src[pos..] == src;
    while left > 0
      invariant pos <= |src|
      invariant chunks + Chunks(src[pos..], cap, left) == whole
      invariant dir == ChunkDirectory(chunks)
    {
      var read := Min(cap, |src| - pos);
      var chunk := src[pos..pos + read];
      ReadStep(chunks, src, pos, cap, left, whole);
      DirectoryAppend(chunks, chunk);
      dir := dir[ChunkPath(|chunks|) := chunk];
      chunks := chunks + [chunk];
      // the loop ends after the first read that does not fill the buffer
      if read < cap {
        return;
      }
      pos := pos + read;
      left := left - 1;
    }
    assert chunks + [] == chunks;
  }

  /** One read at offset `pos`, after the chunks `written`, of a run that
      writes `whole`: a short read writes the last chunk, a full one leaves
      the remaining reads to write the rest. */
  lemma ReadStep(written: seq<seq<u8>>, src: seq<u8>, pos: nat, cap: nat, budget: nat, whole: seq<seq<u8>>)
    requires pos <= |src| && budget > 0
    requires written + Chunks(src[pos..], cap, budget) == whole
    ensures var read := Min(cap, |src| - pos);
      (read < cap ==> written + [src[pos..pos + read]] == whole)
      && (read == cap ==> (written + [src[pos..pos + read]]) + Chunks(src[pos + read..], cap, budget - 1) == whole)
  {
    var rest := src[pos..];
    assert rest[..Min(cap, |rest|)] == src[pos..pos + Min(cap, |src| - pos)];
    if Min(cap, |rest|) == cap {
      assert rest[cap..] == src[pos + cap..];
      assert Chunks(rest, cap, budget) == [src[pos..pos + cap]] + Chunks(src[pos + cap..], cap, budget - 1);
    }
  }

  /** `as_chunks` with its constants. */
  method AsChunks(src: seq<u8>) returns (chunks: seq<seq<u8>>, dir: map<seq<u8>, seq<u8>>)
    ensures chunks == Chunks(src, CAPACITY, CEILING)
    ensures dir == ChunkDirectory(chunks)
  {
    chunks, dir := SplitLoop(src, CAPACITY, CEILING);
  }
}

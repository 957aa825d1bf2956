# External chunk sorter — a Dafny model

This project models the core of `ProcessHugeFile`, the program's external-sorting step. It has two
passes over a large file of space-separated signed 64-bit integers.

- `as_chunks` copies the file into numbered chunk files, `chunks/chunk_<i>.txt`. It reads one
  65535-byte buffer at a time, writes each read as its own file, and stops after the first short
  read or after 65535 reads.
- `sort_each_chunk` rewrites every chunk file in place with its own numbers in non-decreasing
  order. For each file it trims the content, splits it on single spaces and parses every field as
  an `i64`. It then sorts the vector with the generic bubble sort `internal_sort`, prints the
  numbers in decimal and joins them with single spaces. The first file that does not parse ends
  the run; files sorted before it stay sorted.

The chunks are never merged, so the files are sorted one by one and not against each other.

Files and modules:

- `wrappers.dfy`: `Option` and `Result`.
- `bytes.dfy`: bytes, the `i64` range, and ASCII whitespace and digits.
- `decimal.dfy`: `i64::to_string` and `str::parse::<i64>`.
- `text.dfy`: `trim`, `split(" ")` and `join(" ")`.
- `token_codec.dfy`: the chunk-content codec.
- `bubble_sort.dfy`: `internal_sort` and a reference stable sort it is proved equal to.
- `chunk_splitter.dfy`: `as_chunks` and the chunk paths.
- `chunk_sorter.dfy`: `sort_each_chunk` and the whole pipeline.
- `scenarios.dfy`: concrete runs.

How effects are modelled:

- The file system is a value. The source file is a byte sequence, and the chunk folder is a map
  from path bytes to content bytes.
- A field that does not parse, where the program's `.expect` panics, is modelled as a `Failure` or
  an `Aborted` outcome carrying that field. The `.expect`s on I/O are left out (see "Left out").

Behaviour of the code worth knowing:

- **Chunk count.** Below the 65535-read ceiling, a source of `S` bytes gives `S / 65535 + 1`
  chunk files, not `ceil(S / 65535)`. When `S` is an exact multiple of 65535, the last read
  returns 0 bytes and still writes an empty chunk file.
- **Empty chunks.** An empty chunk fails to parse, because `"".split(" ")` yields one empty field.
  So an empty source aborts at chunk 0 (`ChunkSorter.EmptySourceAborts`), and an exact multiple
  of 65535 below the 65535-read ceiling never finishes (`ChunkSorter.ExactMultipleAborts`). When
  every earlier chunk parses, the abort is at the trailing empty chunk; which earlier files are
  rewritten before that depends on the listing order (see "Left out").
- **Numbers cut at a boundary.** A number cut by a chunk boundary is usually not reported: both
  pieces are valid numbers, and each is sorted into its own file (`Scenarios.CutTokenGoesUnnoticed`).
  The exception is a cut right after a `-`. The first piece then ends in a lone sign, which does not
  parse, and the run aborts at that chunk (`Scenarios.CutAfterSignFails`).
- **Field separator.** Fields are separated by exactly one space. Two adjacent spaces, or a
  newline between numbers, make an unparseable field and abort the run.

## Model

| member | source | states |
|---|---|---|
| ChunkSplitter.Chunks | src/external_sorting.rs:34-51 | at most one chunk per allowed read (65535 reads), and at least one chunk whenever one read is allowed, even for an empty source |
| ChunkSplitter.ChunkLengths | src/external_sorting.rs:36-50 | every chunk is at most one buffer long; every chunk but the last is exactly one buffer long, because a short read ends the loop |
| ChunkSplitter.ChunksPreserveBytes | src/external_sorting.rs:34-51 | concatenating the chunk files in index order gives back the source, cut off after `capacity * reads` bytes |
| ChunkSplitter.ChunkCountBelowCeiling | src/external_sorting.rs:34-50 | below the ceiling there are `|src| / cap + 1` chunks and the last holds `|src| % cap` bytes, so an exact multiple leaves an empty last chunk |
| ChunkSplitter.ChunkCountAtCeiling | src/external_sorting.rs:34 | a source of at least `cap * reads` bytes gives exactly `reads` full chunks, and the rest is never read |
| ChunkSplitter.EmptySourceOneEmptyChunk | src/external_sorting.rs:34-50 | an empty source still produces one empty chunk file |
| ChunkSplitter.ChunkPathInjective | src/external_sorting.rs:12-14 | two chunk indices give the same path exactly when they are equal, so no chunk file overwrites another |
| ChunkSplitter.PathNotBelow | src/external_sorting.rs:12-14 | the path of chunk `m` is not the path of any smaller index |
| ChunkSplitter.DirectoryContents | src/external_sorting.rs:41-45 | the chunk folder holds exactly one file per chunk, at `chunk_<i>.txt` for `i` below the chunk count, with chunk `i` as its content |
| ChunkSplitter.DirectoryAppend | src/external_sorting.rs:41-45 | writing one more chunk adds exactly its path and leaves the other files unchanged |
| ChunkSplitter.DirectoryUpdate | src/external_sorting.rs:114-120 | overwriting the file of chunk `i` gives the folder of the chunks with chunk `i` replaced, and no other file changes |
| ChunkSplitter.ReadStep | src/external_sorting.rs:36-50 | a short read writes the last chunk of the run, and a full read leaves the remaining reads to write the rest |
| ChunkSplitter.SplitLoop | src/external_sorting.rs:34-51 | the read/write loop with any buffer size and read limit writes exactly the chunks `Chunks` describes, each at its indexed path |
| ChunkSplitter.AsChunks | src/external_sorting.rs:16-54 | `as_chunks` with a 65535-byte buffer and 65535 reads gives those chunks and that folder |
| Decimal.Digits | src/external_sorting.rs:109 | the decimal digits of a natural number are non-empty, all ASCII digits, and have no leading zero unless the number is 0 |
| Decimal.DigitsValueOfDigits | src/external_sorting.rs:109 | reading the printed digits back gives the number printed |
| Decimal.DigitsInjective | src/external_sorting.rs:109 | two natural numbers print the same exactly when they are equal |
| Decimal.ToDecimalShape | src/external_sorting.rs:109 | a printed `i64` is non-empty, has no whitespace, ends in a digit, and starts with `-` exactly when the value is negative |
| Decimal.ParseI64 | src/external_sorting.rs:98 | a field that parses as `i64` is non-empty and contains no space or other whitespace |
| Decimal.ParseToDecimal | src/external_sorting.rs:98 | `parse::<i64>` accepts every `to_string` output and returns the value printed |
| Decimal.ToDecimalInjective | src/external_sorting.rs:109 | two `i64` values print the same exactly when they are equal |
| Text.TrimStart | src/external_sorting.rs:95 | removes a prefix made only of whitespace, and the rest, if any, starts with a non-whitespace byte |
| Text.TrimEnd | src/external_sorting.rs:95 | removes a suffix made only of whitespace, and the rest, if any, ends with a non-whitespace byte |
| Text.Trim | src/external_sorting.rs:95 | the trimmed content is a contiguous part of the content with only whitespace before and after it; it is empty exactly when the content is all whitespace, and otherwise neither of its ends is whitespace |
| Text.WhitespaceAround | src/external_sorting.rs:95 | stripping a whitespace prefix and then a whitespace suffix leaves a contiguous part of the content with only whitespace around it |
| Text.TrimPadded | src/external_sorting.rs:95 | trimming content that is whitespace, then a text without whitespace ends, then whitespace, gives back that text |
| Text.TrimTrimmed | src/external_sorting.rs:95 | trimming text without whitespace at either end changes nothing |
| Text.Split | src/external_sorting.rs:96 | splitting on `" "` yields at least one field, and no field contains a space |
| Text.JoinSplit | src/external_sorting.rs:96 | joining the split fields with single spaces gives back the input |
| Text.SplitJoin | src/external_sorting.rs:111 | splitting space-joined fields that have no spaces gives back those fields |
| Text.SplitAfterField | src/external_sorting.rs:96 | a field followed by a space splits off as the first field |
| Text.NoSpaceSplit | src/external_sorting.rs:96 | text without a space splits into itself alone |
| Text.DoubleSpaceEmptyField | src/external_sorting.rs:96 | two adjacent spaces produce an empty field |
| TokenCodec.ParseFields | src/external_sorting.rs:97-101 | all fields parse exactly when each one does, and then value `i` is field `i`'s number; otherwise the error is the first field that does not parse, and every field before it parses |
| TokenCodec.Parse | src/external_sorting.rs:94-101 | content that parses holds at least one number |
| TokenCodec.Decimals | src/external_sorting.rs:109 | one printed field per value, field `i` printing value `i` |
| TokenCodec.JoinEnds | src/external_sorting.rs:111 | joining non-empty fields starts with the first field's first byte and ends with the last field's last byte |
| TokenCodec.SerialiseShape | src/external_sorting.rs:107-111 | serialising at least one value gives non-empty content with no whitespace at either end, which splits back into the printed values |
| TokenCodec.SerialiseEmpty | src/external_sorting.rs:107-111 | an empty vector serialises to empty content |
| TokenCodec.ParseDecimals | src/external_sorting.rs:97-101 | the printed values parse back to the values |
| TokenCodec.ParseSerialise | src/external_sorting.rs:94-111 | parsing serialised values, even surrounded by whitespace, gives back exactly those values |
| TokenCodec.ParseBlankFails | src/external_sorting.rs:94-100 | empty or all-whitespace content fails on the empty field |
| TokenCodec.ParseDoubleSpaceFails | src/external_sorting.rs:94-100 | content whose trimmed text has two adjacent spaces fails to parse |
| TokenCodec.ParseNewlineFails | src/external_sorting.rs:94-100 | content whose trimmed text has a newline inside it fails to parse |
| TokenCodec.JoinNoByte | src/external_sorting.rs:111 | joining with spaces adds no byte other than the space |
| BubbleSort.BubblePass | src/external_sorting.rs:60-65 | one inner pass permutes the vector by swapping out-of-order neighbours, keeps equal elements in order, and moves the largest of the unsorted prefix to its last slot; it makes no swap exactly when the vector is already sorted |
| BubbleSort.InternalSort | src/external_sorting.rs:56-71 | the vector ends sorted, as a permutation of its input, with equal elements in their input order, and equal to the reference stable sort; there are no swaps exactly when the input was sorted, and sorted input takes one pass and stays unchanged; at most `len` passes |
| BubbleSort.SwapKeepsGroups | src/external_sorting.rs:61-62 | swapping two neighbours with different keys keeps the multiset and the order within every key |
| BubbleSort.SwapStep | src/external_sorting.rs:61-63 | a swap carries the running maximum one slot right and keeps the sorted suffix |
| BubbleSort.InOrderStep | src/external_sorting.rs:61 | an in-order pair carries the running maximum one slot right |
| BubbleSort.PassEnd | src/external_sorting.rs:60-65 | after a pass the sorted suffix is one longer, and a pass without swaps leaves the vector sorted |
| BubbleSort.SortedGroupsUnique | src/external_sorting.rs:56-71 | two sorted arrangements that keep the order within every key are equal, so a stable sort has one result |
| BubbleSort.SortSpecSorts | src/external_sorting.rs:56-71 | the reference insertion sort sorts |
| BubbleSort.SortSpecStable | src/external_sorting.rs:56-71 | the reference insertion sort keeps the order within every key |
| BubbleSort.SortSpecSorted | src/external_sorting.rs:67-69 | sorted input is left unchanged |
| ChunkSorter.ProcessChunkSorts | src/external_sorting.rs:94-111 | a chunk is rewritten exactly when its content parses, and otherwise the error is the parse error; the new content parses to the old values in non-decreasing order, with the same multiset and equal values in their old order |
| ChunkSorter.SortChunk | src/external_sorting.rs:90-111 | parsing, sorting with the bubble sort and serialising gives the chunk result the reference sort describes |
| ChunkSorter.ProcessChunkIdempotent | src/external_sorting.rs:94-111 | when a chunk can be rewritten, rewriting the result gives the same bytes again |
| ChunkSorter.SingleValueChunk | src/external_sorting.rs:94-111 | a chunk holding one printed number is rewritten unchanged |
| ChunkSorter.ProcessBlankFails | src/external_sorting.rs:94-100 | an empty or all-whitespace chunk aborts on the empty field |
| ChunkSorter.RunEach | src/external_sorting.rs:78-123 | the run leaves one file per chunk |
| ChunkSorter.RunEachOutcome | src/external_sorting.rs:78-123 | the run finishes exactly when every chunk can be processed, and then every file holds its processed chunk; otherwise it stops at the first failing chunk, with the earlier files processed and the rest untouched |
| ChunkSorter.RunEachStep | src/external_sorting.rs:78-123 | one closure call either stops the run at the current file or adds one processed file |
| ChunkSorter.SortChunks | src/external_sorting.rs:73-126 | the `for_each` loop over the files in index order gives the outcome `RunEach` describes, and rewriting each file in place turns the folder `as_chunks` wrote into the folder of the outcome's files |
| ChunkSorter.ReadUnprocessed | src/external_sorting.rs:84-91 | before it is rewritten, the file of the next chunk to process still holds that chunk, so reading it gives the chunk `as_chunks` wrote |
| ChunkSorter.RewriteInPlace | src/external_sorting.rs:114-120 | truncating and rewriting file `i` with its sorted content replaces exactly chunk `i` in the folder |
| ChunkSorter.RunPipeline | src/main.rs:4-6 | `as_chunks` followed by `sort_each_chunk` on the folder it wrote gives the pipeline's outcome, and that folder ends up holding the outcome's files |
| ChunkSorter.SortEachChunkSorts | src/external_sorting.rs:73-126 | the run finishes exactly when every chunk parses, and then each file parses to its chunk's numbers, sorted, with the same multiset |
| ChunkSorter.SortEachChunkIdempotent | src/external_sorting.rs:73-126 | sorting the chunk files a second time changes nothing |
| ChunkSorter.RunEachAllSucceed | src/external_sorting.rs:78-123 | when every file maps to itself, the run finishes with the files unchanged |
| ChunkSorter.EmptySourceAborts | src/external_sorting.rs:94-100 | an empty source aborts at chunk 0 on the empty field, leaving one empty file |
| ChunkSorter.ExactMultipleAborts | src/external_sorting.rs:48-50 | a source whose length is a multiple of the buffer, the empty source included, below the ceiling, never finishes: its last chunk is empty and cannot be parsed, so when every earlier chunk parses the run aborts at that last chunk |
| Scenarios.ShortSourceOneChunk | src/external_sorting.rs:48-50 | a source shorter than one buffer becomes one chunk equal to the source |
| Scenarios.SplitThreeTrimmed | src/external_sorting.rs:95-96 | a trimmed text of three digits separated by single spaces splits into those three digits |
| Scenarios.SortThree | src/external_sorting.rs:56-71 | the reference sort of three descending values reverses them |
| Scenarios.SmallSourceSorted | src/external_sorting.rs:73-126 | the file `5 3 1` becomes one chunk file `1 3 5` |
| Scenarios.NoMergeAcrossChunks | src/external_sorting.rs:78-123 | chunk files `2` and `1` are left as they are, because nothing orders one file against another |
| Scenarios.CutTokenGoesUnnoticed | src/external_sorting.rs:40-50 | with a two-byte buffer, `123` is cut into `12` and `3`, and both pieces are sorted without any error |
| Scenarios.CutAfterSignFails | src/external_sorting.rs:40-50 | with a three-byte buffer, a digit, a space, `-` and a digit are cut right after the sign, and the run aborts at the first chunk on the field `-` |
| Scenarios.SignChunkFails | src/external_sorting.rs:94-101 | a chunk holding a digit, a space and a lone `-` fails to parse, on the field `-` |

## Left out

- File-system effects: removing and creating the chunk folder, opening, writing, truncating and flushing files. These are modelled as values. Their I/O error paths, which panic in the source through every `.expect` other than the one on `parse::<i64>`, are not modelled.
- Directory listing order: `read_dir` returns files in an order the operating system chooses. The model visits them in chunk-index order. For a run that aborts, both the file it aborts at and the set of files already rewritten depend on this order; a run that finishes ends the same in any order.
- Short reads: a `read` on a regular file is assumed to return `min(buffer, remaining)` bytes. A short read before the end of the file would end `as_chunks` early. The model does not cover that.
- UTF-8: `read_to_string` rejects invalid UTF-8 with a panic. The model works on bytes and does not model this check.
- Text.Trim: trims only the ASCII whitespace bytes 0x09-0x0D and 0x20. Rust's `trim` also removes Unicode whitespace. Non-ASCII bytes are treated as part of a field, and then fail to parse.
- BubbleSort.InternalSort: the element order is an integer key, a total preorder. The source accepts any `PartialOrd`, but it only sorts `i64`.
- Panic messages: the text passed to `expect` is not modelled. The failing field is kept.
- Test-data generator: the `do_dirt` generator is not part of this model.

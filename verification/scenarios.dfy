/** Concrete runs of the model on small inputs. */
module Scenarios {
  import opened Wrappers
  import opened Bytes
  import opened Decimal
  import opened Text
  import opened TokenCodec
  import opened BubbleSort
  import opened ChunkSplitter
  import opened ChunkSorter

  const FIVE_THREE_ONE: seq<u8> := [0x35, 0x20, 0x33, 0x20, 0x31]
  const ONE_THREE_FIVE: seq<u8> := [0x31, 0x20, 0x33, 0x20, 0x35]

  lemma ShortSourceOneChunk(src: seq<u8>)
    requires |src| < CAPACITY
    ensures Chunks(src, CAPACITY, CEILING) == [src]
  {
    assert src[..|src|] == src;
  }

  const VALUES: seq<i64> := [5, 3, 1]
  const SORTED_VALUES: seq<i64> := [1, 3, 5]
  const FIELDS: seq<seq<u8>> := [[0x35], [0x33], [0x31]]

  lemma SplitFiveThreeOne()
    ensures Split(Trim(FIVE_THREE_ONE)) == FIELDS
  {
    SplitThreeTrimmed(0x35, 0x33, 0x31);
  }

  /** Three digits separated by single spaces are already trimmed and split
      into one field each. */
  lemma SplitThreeTrimmed(a: u8, b: u8, c: u8)
    requires IsDigit(a) && IsDigit(b) && IsDigit(c)
    ensures Split(Trim([a, SPACE, b, SPACE, c])) == [[a], [b], [c]]
  {
    TrimTrimmed([a, SPACE, b, SPACE, c]);
    SplitThree(a, b, c);
  }

  /** Three one-byte fields separated by single spaces. */
  lemma SplitThree(a: u8, b: u8, c: u8)
    requires a != SPACE && b != SPACE && c != SPACE
    ensures Split([a, SPACE, b, SPACE, c]) == [[a], [b], [c]]
  {
    NoSpaceSplit([c]);
    SplitAfterField([b], [c]);
    assert [b] + [SPACE] + [c] == [b, SPACE, c];
    SplitAfterField([a], [b, SPACE, c]);
    assert [a] + [SPACE] + [b, SPACE, c] == [a, SPACE, b, SPACE, c];
  }

  lemma ParseDigit(d: nat)
    requires d < 10
    ensures ParseI64([ZERO + d]) == Some(d)
  {
    ParseToDecimal(d);
    assert ToDecimal(d) == [ZERO + d];
  }

  lemma ParseFieldsConsOk(fields: seq<seq<u8>>, v: i64, vs: seq<i64>)
    requires |fields| > 0 && ParseI64(fields[0]) == Some(v) && ParseFields(fields[1..]) == Success(vs)
    ensures ParseFields(fields) == Success([v] + vs)
  {
  }

  lemma ParseFiveThreeOne()
    ensures Parse(FIVE_THREE_ONE) == Success(VALUES)
  {
    SplitFiveThreeOne();
    ParseThreeFields();
  }

  lemma ParseThreeFields()
    ensures ParseFields(FIELDS) == Success(VALUES)
  {
    ParseDigit(5);
    ParseDigit(3);
    ParseDigit(1);
    var none: seq<seq<u8>> := [];
    assert ParseFields(none) == Success([]);
    var last: seq<i64>, lastTwo: seq<i64> := [1], [3, 1];
    assert FIELDS[2..][1..] == none && FIELDS[1..][1..] == FIELDS[2..];
    ParseFieldsConsOk(FIELDS[2..], 1, []);
    assert [1 as i64] + [] == last;
    ParseFieldsConsOk(FIELDS[1..], 3, last);
    assert [3 as i64] + last == lastTwo;
    ParseFieldsConsOk(FIELDS, 5, lastTwo);
    assert [5 as i64] + lastTwo == VALUES;
  }

  lemma SortFiveThreeOne()
    ensures SortSpec(VALUES, I64Key) == SORTED_VALUES
  {
    SortThree(5, 3, 1);
  }

  /** The reference sort of `[c0, b, a]` with `a < b < c0`, one insertion at a time. */
  lemma SortThree(c0: i64, b: i64, a: i64)
    requires a < b < c0
    ensures SortSpec([c0, b, a], I64Key) == [a, b, c0]
  {
    SortTwo(b, a);
    InsertAfterTwo(c0, a, b);
    SortCons(c0, [b, a]);
    assert [c0] + [b, a] == [c0, b, a];
  }

  lemma SortTwo(b: i64, a: i64)
    requires a < b
    ensures SortSpec([b, a], I64Key) == [a, b]
  {
    var e: seq<i64> := [];
    SortCons(a, e);
    InsertFront(a, e);
    assert [a] + e == [a];
    SortCons(b, [a]);
    assert [b] + [a] == [b, a];
    InsertPast(b, a, e);
    InsertFront(b, e);
  }

  lemma InsertAfterTwo(c0: i64, a: i64, b: i64)
    requires a < b < c0
    ensures Insert(c0, [a, b], I64Key) == [a, b, c0]
  {
    var e: seq<i64> := [];
    InsertPast(c0, a, [b]);
    assert [a] + [b] == [a, b];
    InsertPast(c0, b, e);
    assert [b] + e == [b];
    InsertFront(c0, e);
    assert [a] + ([b] + ([c0] + e)) == [a, b, c0];
  }

  lemma SortCons(x: i64, t: seq<i64>)
    ensures SortSpec([x] + t, I64Key) == Insert(x, SortSpec(t, I64Key), I64Key)
  {
    assert ([x] + t)[1..] == t;
  }

  lemma InsertFront(x: i64, t: seq<i64>)
    requires |t| == 0 || x <= t[0]
    ensures Insert(x, t, I64Key) == [x] + t
  {
  }

  lemma InsertPast(x: i64, y: i64, t: seq<i64>)
    requires x > y
    ensures Insert(x, [y] + t, I64Key) == [y] + Insert(x, t, I64Key)
  {
    assert ([y] + t)[1..] == t;
  }

  lemma SerialiseOneThreeFive()
    ensures Serialise(SORTED_VALUES) == ONE_THREE_FIVE
  {
    assert ToDecimal(1) == [0x31];
    assert ToDecimal(3) == [0x33];
    assert ToDecimal(5) == [0x35];
    assert Decimals(SORTED_VALUES) == [[0x31], [0x33], [0x35]];
  }

  /** A source `5 3 1` fits in one chunk, which the sorter rewrites as `1 3 5`. */
  lemma SmallSourceSorted()
    ensures ProcessHugeFile(FIVE_THREE_ONE) == Done([ONE_THREE_FIVE])
  {
    ShortSourceOneChunk(FIVE_THREE_ONE);
    ParseFiveThreeOne();
    SortFiveThreeOne();
    SerialiseOneThreeFive();
    assert ProcessChunk(FIVE_THREE_ONE) == Success(ONE_THREE_FIVE);
    RunEachOne(FIVE_THREE_ONE, ONE_THREE_FIVE, ProcessChunk);
  }

  lemma RunEachOne(c: seq<u8>, u: seq<u8>, process: seq<u8> -> Result<seq<u8>, seq<u8>>)
    requires process(c) == Success(u)
    ensures RunEach([c], process) == Done([u])
  {
    assert [c][1..] == [];
    assert RunEach([], process) == Done([]);
  }

  lemma RunEachTwo(c: seq<u8>, d: seq<u8>, process: seq<u8> -> Result<seq<u8>, seq<u8>>)
    requires process(c) == Success(c) && process(d) == Success(d)
    ensures RunEach([c, d], process) == Done([c, d])
  {
    var chunks := [c, d];
    assert forall i :: 0 <= i < |chunks| ==> process(chunks[i]) == Success(chunks[i]);
    RunEachAllSucceed(chunks, process);
  }

  /** Chunks are sorted one by one and never merged: chunk files `2` and `1`
      stay as they are although `2 > 1`. */
  lemma NoMergeAcrossChunks()
    ensures SortEachChunk([ToDecimal(2), ToDecimal(1)]) == Done([ToDecimal(2), ToDecimal(1)])
  {
    SingleValueChunk(2);
    SingleValueChunk(1);
    RunEachTwo(ToDecimal(2), ToDecimal(1), ProcessChunk);
  }

  /** A cut inside a token goes unnoticed: with a 2-byte buffer the source
      `123` becomes chunks `12` and `3`, and both are processed as numbers. */
  lemma CutTokenGoesUnnoticed()
    ensures Chunks(ToDecimal(123), 2, CEILING) == [ToDecimal(12), ToDecimal(3)]
    ensures SortEachChunk(Chunks(ToDecimal(123), 2, CEILING)) == Done([ToDecimal(12), ToDecimal(3)])
  {
    DecimalsOfCut();
    ChunksOfThree(0x31, 0x32, 0x33, CEILING);
    SingleValueChunk(12);
    SingleValueChunk(3);
    RunEachTwo(ToDecimal(12), ToDecimal(3), ProcessChunk);
  }

  lemma DecimalsOfCut()
    ensures ToDecimal(123) == [0x31, 0x32, 0x33]
    ensures ToDecimal(12) == [0x31, 0x32]
    ensures ToDecimal(3) == [0x33]
  {
  }

  /** Three bytes read through a two-byte buffer: one full read, then a short one. */
  lemma ChunksOfThree(x: u8, y: u8, z: u8, budget: nat)
    requires budget >= 2
    ensures Chunks([x, y, z], 2, budget) == [[x, y], [z]]
  {
    var src: seq<u8> := [x, y, z];
    var tail: seq<u8> := [z];
    assert src[..2] == [x, y] && src[2..] == tail;
    assert tail[..1] == tail;
    assert Chunks(tail, 2, budget - 1) == [tail];
  }

  /** A boundary right after a minus sign: with a three-byte buffer, `d -e`
      is cut into `d -` and `e`, and the run aborts at the first chunk on the
      lone sign. */
  lemma CutAfterSignFails(d: u8, e: u8, budget: nat)
    requires IsDigit(d) && IsDigit(e) && budget >= 2
    ensures Chunks([d, SPACE, MINUS, e], 3, budget) == [[d, SPACE, MINUS], [e]]
    ensures SortEachChunk([[d, SPACE, MINUS], [e]]) == Aborted([[d, SPACE, MINUS], [e]], 0, [MINUS])
  {
    ChunksOfFour(d, SPACE, MINUS, e, budget);
    SignChunkFails(d);
  }

  lemma ChunksOfFour(w: u8, x: u8, y: u8, z: u8, budget: nat)
    requires budget >= 2
    ensures Chunks([w, x, y, z], 3, budget) == [[w, x, y], [z]]
  {
    var src: seq<u8> := [w, x, y, z];
    var tail: seq<u8> := [z];
    assert src[..3] == [w, x, y] && src[3..] == tail;
    assert tail[..1] == tail;
    assert Chunks(tail, 3, budget - 1) == [tail];
  }

  /** A chunk that ends in a lone `-` fails on that field. */
  lemma SignChunkFails(d: u8)
    requires IsDigit(d)
    ensures Parse([d, SPACE, MINUS]) == Failure([MINUS])
  {
    SplitSignChunk(d);
    SignFieldFails(d);
  }

  lemma SignFieldFails(d: u8)
    requires IsDigit(d)
    ensures ParseFields([[d], [MINUS]]) == Failure([MINUS])
  {
    var sign: seq<u8> := [MINUS];
    assert ParseI64(sign) == None;
    ParseFieldsOneFails(sign);
    ParseDigit(d - ZERO);
    assert [ZERO + (d - ZERO)] == [d];
    ParseFieldsConsFails([[d], sign], d - ZERO, sign);
  }

  lemma ParseFieldsOneFails(f: seq<u8>)
    requires ParseI64(f).None?
    ensures ParseFields([f]) == Failure(f)
  {
  }

  lemma ParseFieldsConsFails(fields: seq<seq<u8>>, v: i64, e: seq<u8>)
    requires |fields| > 0 && ParseI64(fields[0]) == Some(v) && ParseFields(fields[1..]) == Failure(e)
    ensures ParseFields(fields) == Failure(e)
  {
  }

  lemma SplitSignChunk(d: u8)
    requires IsDigit(d)
    ensures Split(Trim([d, SPACE, MINUS])) == [[d], [MINUS]]
  {
    TrimTrimmed([d, SPACE, MINUS]);
    NoSpaceSplit([MINUS]);
    SplitAfterField([d], [MINUS]);
    assert [d] + [SPACE] + [MINUS] == [d, SPACE, MINUS];
  }
}

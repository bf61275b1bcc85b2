/** The chunker: overlapping, character-aligned slices of the canonical text for the search index. */
module ArtifactChunks {
  import opened Basics
  import opened Utf8
  import opened ArtifactModel
  import opened ArtifactWriter

  /** The two sizes the writer is constructed with. */
  datatype Config = Config(chunk: nat, overlap: nat)

  /** What the constructor accepts. */
  predicate Accepted(c: Config) {
    256 <= c.chunk && c.overlap < c.chunk
  }

  /** The overlap leaves room for the chunk to advance past any character. */
  predicate Paced(c: Config) {
    c.overlap + 3 <= c.chunk / 2
  }

  /** The last position of `b` in `data[lo..hi]`, as `bytes.rfind` finds it. */
  function RFind(data: bytes, b: byte, lo: nat, hi: nat): (r: Option<nat>)
    requires lo <= hi <= |data|
    ensures r.None? ==> forall k :: lo <= k < hi ==> data[k] != b
    ensures r.Some? ==> lo <= r.value < hi && data[r.value] == b && forall k :: r.value < k < hi ==> data[k] != b
    decreases hi
  {
    if lo == hi then None
    else if data[hi - 1] == b then Some(hi - 1)
    else RFind(data, b, lo, hi - 1)
  }

  /** Where the chunk that begins at `start` ends. */
  function ChunkEnd(c: Config, data: bytes, start: nat): (end: nat)
    requires Accepted(c) && start < |data|
    ensures end <= |data| && end <= start + c.chunk
    ensures end == |data| <== start + c.chunk >= |data|
  {
    var hardEnd := Min(|data|, start + c.chunk);
    if hardEnd == |data| then hardEnd
    else
      var minimum := Min(hardEnd, start + c.chunk / 2);
      var newline := RFind(data, NEWLINE, minimum, hardEnd);
      if newline.Some? then newline.value + 1
      else
        var space := RFind(data, SPACE, minimum, hardEnd);
        if space.Some? then space.value + 1
        else Snap(data, hardEnd)
  }

  /** Where the next chunk begins. */
  function NextStart(c: Config, data: bytes, start: nat): nat
    requires Accepted(c) && start < |data|
    requires ChunkEnd(c, data, start) < |data| && start < |data| - 1
  {
    Snap(data, Max(start + 1, ChunkEnd(c, data, start) - c.overlap))
  }

  /** The loop goes on from `start` to `next`. */
  predicate Leads(c: Config, data: bytes, start: nat, next: nat)
    requires Accepted(c)
  {
    start < |data| - 1 && ChunkEnd(c, data, start) < |data| && next == NextStart(c, data, start)
  }

  /** The chunk at `start` reaches the end of the text, where the loop is left. */
  predicate Ends(c: Config, data: bytes, start: nat)
    requires Accepted(c)
  {
    start < |data| && ChunkEnd(c, data, start) == |data|
  }

  /** The starts of the chunks of one run of the loop, from `from` to the end of the text. */
  ghost predicate IsRun(c: Config, data: bytes, from: nat, starts: seq<nat>)
    requires Accepted(c)
  {
    && |starts| > 0 && starts[0] == from && Ends(c, data, starts[|starts| - 1])
    && forall k :: 0 < k < |starts| ==> Leads(c, data, starts[k - 1], starts[k])
  }

  ghost predicate Terminates(c: Config, data: bytes)
    requires Accepted(c)
  {
    data == [] || exists starts: seq<nat> :: IsRun(c, data, 0, starts)
  }

  // ----- One chunk -----

  /** The greatest boundary up to `limit`. */
  ghost predicate LastBoundary(data: bytes, limit: nat, at: nat)
    requires limit <= |data|
  {
    at <= limit && IsBoundary(data, at) && forall k :: at < k <= limit ==> !IsBoundary(data, k)
  }

  lemma {:induction false} SnapIsLast(data: bytes, limit: nat)
    requires limit <= |data|
    ensures LastBoundary(data, limit, Snap(data, limit))
  {
  }

  /** A chunk that is not the last spans more than half the chunk size and ends on a boundary. */
  lemma {:induction false} ChunkEndFacts(c: Config, data: bytes, start: nat)
    requires Accepted(c) && start < |data| && Aligned(data)
    ensures
      var end := ChunkEnd(c, data, start);
      && start < end && IsBoundary(data, end)
      && (end < |data| ==> start + c.chunk / 2 < end)
  {
    var hardEnd := start + c.chunk;
    if hardEnd < |data| {
      var end := ChunkEnd(c, data, start);
      if end != Snap(data, hardEnd) {
        assert data[end - 1] < 0x80;
      }
    }
  }

  /** The same end, told apart by what the second half of the chunk holds. */
  lemma {:induction false} ChunkEndChoice(c: Config, data: bytes, start: nat)
    requires Accepted(c) && start + c.chunk < |data|
    ensures
      var end, lo, hi := ChunkEnd(c, data, start), start + c.chunk / 2, start + c.chunk;
      if exists k :: lo <= k < hi && data[k] == 0x0A then
        lo < end && data[end - 1] == 0x0A && forall k :: end <= k < hi ==> data[k] != 0x0A
      else if exists k :: lo <= k < hi && data[k] == 0x20 then
        lo < end && data[end - 1] == 0x20 && forall k :: end <= k < hi ==> data[k] != 0x20
      else
        end == Snap(data, hi) && LastBoundary(data, hi, end)
  {
    SnapIsLast(data, start + c.chunk);
  }

  /** The next start is a boundary no later than this chunk's end, so no text is skipped. */
  lemma {:induction false} NextStartFacts(c: Config, data: bytes, start: nat)
    requires Accepted(c) && start < |data| && Aligned(data) && IsBoundary(data, start)
    requires ChunkEnd(c, data, start) < |data|
    ensures start < |data| - 1
    ensures
      var end, next := ChunkEnd(c, data, start), NextStart(c, data, start);
      && start <= next <= end && IsBoundary(data, next)
      && (Paced(c) ==> start < next && c.overlap <= end - next <= c.overlap + 3)
      && LastBoundary(data, if start + c.overlap < end then end - c.overlap else start + 1, next)
  {
    ChunkEndFacts(c, data, start);
    var end := ChunkEnd(c, data, start);
    var wanted := Max(start + 1, end - c.overlap);
    var next := Snap(data, wanted);
    SnapIsLast(data, wanted);
    assert wanted <= next + 3;
  }

  // ----- Termination -----

  /** With a paced overlap every round advances, so from any boundary the loop reaches the end. */
  lemma {:induction false} PacedRun(c: Config, data: bytes, from: nat) returns (starts: seq<nat>)
    requires Accepted(c) && Paced(c) && Aligned(data)
    requires from < |data| && IsBoundary(data, from)
    ensures IsRun(c, data, from, starts)
    decreases |data| - from
  {
    if Ends(c, data, from) {
      starts := [from];
    } else {
      NextStartFacts(c, data, from);
      var next := NextStart(c, data, from);
      var rest := PacedRun(c, data, next);
      assert Leads(c, data, from, next);
      starts := PrependRun(c, data, from, next, rest);
    }
  }

  lemma {:induction false} PrependRun(c: Config, data: bytes, from: nat, next: nat, rest: seq<nat>)
    returns (starts: seq<nat>)
    requires Accepted(c) && IsRun(c, data, next, rest) && Leads(c, data, from, next)
    ensures IsRun(c, data, from, starts)
  {
    starts := [from] + rest;
    forall k | 0 < k < |starts| ensures Leads(c, data, starts[k - 1], starts[k]) {
      if k > 1 {
        assert Leads(c, data, rest[k - 2], rest[k - 1]);
      }
    }
  }

  function Filler(n: nat): (s: bytes)
    ensures |s| == n && forall k :: 0 <= k < n ==> s[k] == 97
  {
    if n == 0 then [] else [97] + Filler(n - 1)
  }

  lemma {:induction false} FillerDecodes(n: nat)
    ensures Decode(Filler(n)).Some?
  {
    if n > 0 {
      FillerDecodes(n - 1);
      assert Filler(n)[1..] == Filler(n - 1);
    }
  }

  /** A four-byte character, then letters, with one newline right where the second half begins. */
  function StuckText(c: Config): (s: bytes)
    requires Accepted(c)
    ensures |s| == c.chunk / 2 + 1 + c.chunk
    ensures forall k :: 1 <= k < 4 ==> IsContinuation(s[k])
    ensures s[c.chunk / 2] == NEWLINE
    ensures forall k :: c.chunk / 2 < k < |s| ==> s[k] == 97
  {
    [0xF0, 0x90, 0x80, 0x80] + Filler(c.chunk / 2 - 4) + [NEWLINE] + Filler(c.chunk)
  }

  lemma {:induction false} StuckTextDecodes(c: Config)
    requires Accepted(c)
    ensures Decode(StuckText(c)).Some?
  {
    var first: bytes := [0xF0, 0x90, 0x80, 0x80];
    FillerDecodes(c.chunk / 2 - 4);
    FillerDecodes(c.chunk);
    assert Decode(first).Some? by { assert first[4..] == []; }
    assert Decode([NEWLINE]).Some?;
    DecodesConcat(first, Filler(c.chunk / 2 - 4));
    DecodesConcat(first + Filler(c.chunk / 2 - 4), [NEWLINE]);
    DecodesConcat(first + Filler(c.chunk / 2 - 4) + [NEWLINE], Filler(c.chunk));
  }

  /** Without pace the first round on that text leads back to where it began. */
  lemma {:induction false} StuckRound(c: Config, data: bytes)
    requires Accepted(c) && !Paced(c)
    requires |data| == c.chunk / 2 + 1 + c.chunk && data[c.chunk / 2] == NEWLINE
    requires forall k :: 1 <= k < 4 ==> IsContinuation(data[k])
    requires forall k :: c.chunk / 2 < k < |data| ==> data[k] == 97
    ensures !Ends(c, data, 0) && forall next: nat :: Leads(c, data, 0, next) ==> next == 0
  {
    assert ChunkEnd(c, data, 0) == c.chunk / 2 + 1;
    var wanted := Max(1, c.chunk / 2 + 1 - c.overlap);
    assert forall k :: 0 < k <= wanted ==> !IsBoundary(data, k);
  }

  lemma {:induction false} StuckForEver(c: Config, data: bytes, starts: seq<nat>, k: nat)
    requires Accepted(c) && IsRun(c, data, 0, starts) && k < |starts|
    requires forall next: nat :: Leads(c, data, 0, next) ==> next == 0
    ensures starts[k] == 0
  {
    if k > 0 {
      StuckForEver(c, data, starts, k - 1);
      assert Leads(c, data, starts[k - 1], starts[k]);
    }
  }

  /** Without pace there is a well-formed text on which the loop never ends. */
  lemma {:induction false} NeverEnds(c: Config)
    requires Accepted(c) && !Paced(c)
    ensures Decode(StuckText(c)).Some? && !Terminates(c, StuckText(c))
  {
    var data := StuckText(c);
    StuckTextDecodes(c);
    StuckRound(c, data);
    if Terminates(c, data) {
      var starts: seq<nat> :| IsRun(c, data, 0, starts);
      StuckForEver(c, data, starts, |starts| - 1);
      assert false;
    }
  }

  /** The chunk loop ends on every text exactly when the overlap is at most half the chunk less three. */
  lemma {:induction false} EndsOnEveryTextIffPaced(c: Config)
    requires Accepted(c)
    ensures (forall data: bytes | Decode(data).Some? :: Terminates(c, data)) <==> Paced(c)
  {
    if Paced(c) {
      forall data: bytes | Decode(data).Some? ensures Terminates(c, data) {
        if data != [] {
          DecodableIsAligned(data);
          var starts := PacedRun(c, data, 0);
        }
      }
    } else {
      NeverEnds(c);
    }
  }

  /** The sizes the writer uses unless told otherwise. */
  const DEFAULT_CONFIG := Config(6_000, 600)

  /** With them the loop ends on every text. */
  lemma {:induction false} DefaultEnds(data: bytes)
    requires Decode(data).Some?
    ensures Accepted(DEFAULT_CONFIG) && Paced(DEFAULT_CONFIG) && Terminates(DEFAULT_CONFIG, data)
  {
    EndsOnEveryTextIffPaced(DEFAULT_CONFIG);
  }

  // ----- The containers of a chunk -----

  /** The container rows as the writer has just produced them: numbered, and apart from each other. */
  predicate Ordered(rows: seq<ContainerRow>, n: nat)
    requires n <= |rows|
  {
    n == 0 || (
      && Ordered(rows, n - 1)
      && rows[n - 1].number == n - 1 && rows[n - 1].start <= rows[n - 1].end
      && (n > 1 ==> rows[n - 2].end < rows[n - 1].start))
  }

  lemma {:induction false} OrderedPairs(rows: seq<ContainerRow>, n: nat)
    requires n <= |rows| && Ordered(rows, n)
    ensures forall i :: 0 <= i < n ==> rows[i].number == i && rows[i].start <= rows[i].end
    ensures forall i, j :: 0 <= i < j < n ==> rows[i].end < rows[j].start
  {
    if n > 0 {
      OrderedPairs(rows, n - 1);
    }
  }

  predicate Overlaps(row: ContainerRow, start: nat, end: nat) {
    row.start < end && row.end > start
  }

  predicate IsByteOf(start: nat, end: nat, k: nat) {
    start <= k < end
  }

  /** A container is overlapped when it shares a byte with the chunk, or is empty and inside it, off its edges. */
  lemma {:induction false} OverlapsIff(row: ContainerRow, start: nat, end: nat)
    requires row.start <= row.end && start < end
    ensures Overlaps(row, start, end) <==>
      || (exists k :: IsByteOf(row.start, row.end, k) && IsByteOf(start, end, k))
      || (row.start == row.end && start < row.start < end)
  {
    var k: nat := Max(row.start, start);
    if Overlaps(row, start, end) && row.start < row.end {
      assert IsByteOf(row.start, row.end, k) && IsByteOf(start, end, k);
    }
  }

  /**
   The interval stored for a chunk: exactly the containers its range overlaps, or the
   last one that starts at or before the chunk when it overlaps none.
   */
  ghost predicate IsContainerInterval(rows: seq<ContainerRow>, start: nat, end: nat, lo: nat, hi: nat) {
    && lo <= hi < |rows|
    && if exists i :: 0 <= i < |rows| && Overlaps(rows[i], start, end) then
        forall i :: 0 <= i < |rows| ==> (lo <= i <= hi <==> Overlaps(rows[i], start, end))
      else
        lo == hi && rows[lo].start <= start && forall i :: lo < i < |rows| ==> start < rows[i].start
  }

  /** The comprehension over the overlapped containers with its `min` and `max`, and the fallback. */
  method ContainerInterval(rows: seq<ContainerRow>, start: nat, end: nat) returns (lo: nat, hi: nat)
    requires Ordered(rows, |rows|) && |rows| > 0 && rows[0].start <= start < end
    ensures IsContainerInterval(rows, start, end, lo, hi)
  {
    OrderedPairs(rows, |rows|);
    var found := false;
    lo, hi := 0, 0;
    var i := 0;
    while i < |rows|
      invariant i <= |rows|
      invariant !found ==> forall k :: 0 <= k < i ==> !Overlaps(rows[k], start, end)
      invariant found ==> lo <= hi < i && Overlaps(rows[lo], start, end) && Overlaps(rows[hi], start, end)
      invariant found ==> forall k :: 0 <= k < i && Overlaps(rows[k], start, end) ==> lo <= k <= hi
    {
      if Overlaps(rows[i], start, end) {
        lo := if found then Min(lo, rows[i].number) else rows[i].number;
        hi := if found then Max(hi, rows[i].number) else rows[i].number;
        found := true;
      }
      i := i + 1;
    }
    if found {
      OverlapsContiguous(rows, start, end, lo, hi);
    } else {
      ghost var nearest := SomeNearest(rows, start, 0);
      lo := NearestContainer(rows, start);
      hi := lo;
    }
  }

  /** Between two overlapped containers every container is overlapped. */
  lemma {:induction false} OverlapsContiguous(rows: seq<ContainerRow>, start: nat, end: nat, lo: nat, hi: nat)
    requires Ordered(rows, |rows|) && lo <= hi < |rows|
    requires Overlaps(rows[lo], start, end) && Overlaps(rows[hi], start, end)
    ensures forall i :: lo <= i <= hi ==> Overlaps(rows[i], start, end)
  {
    OrderedPairs(rows, |rows|);
  }

  /** Row `k` is the last of the list that starts at or before `offset`. */
  ghost predicate IsNearest(rows: seq<ContainerRow>, offset: nat, k: nat) {
    && k < |rows| && rows[k].start <= offset
    && forall i :: k < i < |rows| ==> offset < rows[i].start
  }

  lemma {:induction false} SomeNearest(rows: seq<ContainerRow>, offset: nat, k: nat) returns (n: nat)
    requires k < |rows| && rows[k].start <= offset
    ensures IsNearest(rows, offset, n)
    decreases |rows| - k
  {
    if i :| k < i < |rows| && rows[i].start <= offset {
      n := SomeNearest(rows, offset, i);
    } else {
      n := k;
    }
  }

  /**
   The last container in the list that starts at or before `offset`. When there is none, the
   first of the list, and 0 for an empty one.
   */
  method NearestContainer(rows: seq<ContainerRow>, offset: nat) returns (number: nat)
    ensures forall k: nat :: IsNearest(rows, offset, k) ==> number == rows[k].number
    ensures (forall i :: 0 <= i < |rows| ==> offset < rows[i].start) ==>
      number == if rows == [] then 0 else rows[0].number
  {
    if rows == [] {
      return 0;
    }
    number := rows[0].number;
    ghost var at := -1;
    var i := 0;
    while i < |rows|
      invariant 0 <= i <= |rows| && -1 <= at < i && (at >= 0 ==> rows[at].start <= offset)
      invariant number == rows[Max(0, at)].number
      invariant forall k :: at < k < i ==> offset < rows[k].start
    {
      if rows[i].start <= offset {
        number, at := rows[i].number, i;
      }
      i := i + 1;
    }
  }

  // ----- The chunk table -----

  /** The loop that steps back to a character boundary. */
  method Utf8Boundary(data: bytes, from: nat) returns (offset: nat)
    requires from <= |data|
    ensures offset == Snap(data, from)
  {
    offset := from;
    while offset > 0 && offset < |data| && IsContinuation(data[offset])
      invariant offset <= from && Snap(data, from) == Snap(data, offset)
    {
      offset := offset - 1;
    }
  }

  /** Row `k` of the chunk table: one round of the loop. */
  predicate IsChunk(c: Config, data: bytes, k: nat, chunk: ChunkRow)
    requires Accepted(c)
  {
    && chunk.start < chunk.end <= |data| && chunk.end == ChunkEnd(c, data, chunk.start)
    && chunk.ordinal == k && chunk.id == k + 1
  }

  /** The container interval stored with every chunk is the right one. */
  ghost predicate HasIntervals(rows: seq<ContainerRow>, chunks: seq<ChunkRow>) {
    forall k :: 0 <= k < |chunks| ==>
      IsContainerInterval(rows, chunks[k].start, chunks[k].end, chunks[k].containerStart, chunks[k].containerEnd)
  }

  /** The row of the search index for a chunk holds that chunk's own text. */
  ghost predicate IsIndexed(data: bytes, chunk: ChunkRow, fts: FtsRow) {
    && fts.rowid == chunk.id
    && chunk.start <= chunk.end <= |data|
    && Encode(fts.text) == data[chunk.start..chunk.end]
  }

  /** The rounds so far: each row a chunk, each chunk leading to the next. */
  ghost predicate AreChunks(c: Config, data: bytes, chunks: seq<ChunkRow>)
    requires Accepted(c)
  {
    && (forall k :: 0 <= k < |chunks| ==> IsChunk(c, data, k, chunks[k]))
    && (|chunks| > 0 ==> chunks[0].start == 0)
    && forall k :: 0 < k < |chunks| ==> Leads(c, data, chunks[k - 1].start, chunks[k].start)
  }

  /** The whole table: a row for every round of the loop. */
  ghost predicate IsChunkTable(c: Config, data: bytes, chunks: seq<ChunkRow>)
    requires Accepted(c)
  {
    && AreChunks(c, data, chunks)
    && if data == [] then chunks == [] else chunks != [] && chunks[|chunks| - 1].end == |data|
  }

  ghost predicate IsIndex(data: bytes, chunks: seq<ChunkRow>, fts: seq<FtsRow>) {
    |fts| == |chunks| && forall k :: 0 <= k < |chunks| ==> IsIndexed(data, chunks[k], fts[k])
  }

  /** The slice of a well-formed text between two boundaries, decoded. */
  function DecodeSlice(data: bytes, start: nat, end: nat): (text: string)
    requires Decode(data).Some? && start <= end <= |data|
    requires IsBoundary(data, start) && IsBoundary(data, end)
    ensures Encode(text) == data[start..end]
  {
    SliceDecodes(data, start, end);
    EncodeDecoded(data[start..end]);
    Decode(data[start..end]).value
  }

  /** One round of the loop: inserts the chunk row and its index row. */
  method InsertChunk(connection: Connection, canonical: bytes, rows: seq<ContainerRow>,
    start: nat, end: nat, ordinal: nat) returns (row: ChunkRow, fts: FtsRow)
    requires Decode(canonical).Some? && Ordered(rows, |rows|) && |rows| > 0 && rows[0].start <= start
    requires start < end <= |canonical| && IsBoundary(canonical, start) && IsBoundary(canonical, end)
    modifies connection`chunks, connection`chunkFts
    ensures connection.chunks == old(connection.chunks) + [row]
    ensures connection.chunkFts == old(connection.chunkFts) + [fts]
    ensures row.start == start && row.end == end && row.ordinal == ordinal && row.id == ordinal + 1
    ensures IsContainerInterval(rows, start, end, row.containerStart, row.containerEnd)
    ensures IsIndexed(canonical, row, fts)
  {
    var lo, hi := ContainerInterval(rows, start, end);
    var chunkId := ordinal + 1;
    row := ChunkRow(chunkId, ordinal, start, end, lo, hi);
    connection.chunks := connection.chunks + [row];
    fts := FtsRow(chunkId, DecodeSlice(canonical, start, end));
    connection.chunkFts := connection.chunkFts + [fts];
  }

  lemma {:induction false} ChunksExtend(c: Config, data: bytes, chunks: seq<ChunkRow>, row: ChunkRow)
    requires Accepted(c) && AreChunks(c, data, chunks) && IsChunk(c, data, |chunks|, row)
    requires if chunks == [] then row.start == 0 else Leads(c, data, chunks[|chunks| - 1].start, row.start)
    ensures AreChunks(c, data, chunks + [row])
  {
    var more := chunks + [row];
    forall k | 0 < k < |more| ensures Leads(c, data, more[k - 1].start, more[k].start) {
      if k < |chunks| {
        assert Leads(c, data, chunks[k - 1].start, chunks[k].start);
      }
    }
  }

  lemma {:induction false} IntervalsExtend(rows: seq<ContainerRow>, chunks: seq<ChunkRow>, row: ChunkRow)
    requires HasIntervals(rows, chunks)
    requires IsContainerInterval(rows, row.start, row.end, row.containerStart, row.containerEnd)
    ensures HasIntervals(rows, chunks + [row])
  {
  }

  lemma {:induction false} IndexExtends(data: bytes, chunks: seq<ChunkRow>, fts: seq<FtsRow>, row: ChunkRow, f: FtsRow)
    requires IsIndex(data, chunks, fts) && IsIndexed(data, row, f)
    ensures IsIndex(data, chunks + [row], fts + [f])
  {
    forall k | 0 <= k < |chunks| + 1 ensures IsIndexed(data, (chunks + [row])[k], (fts + [f])[k]) {
      if k < |chunks| {
        assert IsIndexed(data, chunks[k], fts[k]);
      }
    }
  }

  /** The tables after some rounds of the loop, which goes on at `start`. */
  ghost predicate Chunked(c: Config, data: bytes, rows: seq<ContainerRow>, chunks: seq<ChunkRow>, fts: seq<FtsRow>,
      start: nat)
    requires Accepted(c)
  {
    && AreChunks(c, data, chunks) && HasIntervals(rows, chunks) && IsIndex(data, chunks, fts)
    && if chunks == [] then start == 0 else Leads(c, data, chunks[|chunks| - 1].start, start)
  }

  lemma {:induction false} ChunkedExtends(c: Config, data: bytes, rows: seq<ContainerRow>,
      chunks: seq<ChunkRow>, fts: seq<FtsRow>, row: ChunkRow, f: FtsRow)
    requires Accepted(c) && Chunked(c, data, rows, chunks, fts, row.start)
    requires IsChunk(c, data, |chunks|, row) && IsIndexed(data, row, f)
    requires IsContainerInterval(rows, row.start, row.end, row.containerStart, row.containerEnd)
    ensures AreChunks(c, data, chunks + [row]) && HasIntervals(rows, chunks + [row])
    ensures IsIndex(data, chunks + [row], fts + [f])
  {
    ChunksExtend(c, data, chunks, row);
    IntervalsExtend(rows, chunks, row);
    IndexExtends(data, chunks, fts, row, f);
  }

  /** One round: a chunk from `start`, which some run of the loop reaches in its round `ordinal`. */
  method WriteChunk(connection: Connection, c: Config, canonical: bytes, rows: seq<ContainerRow>, start: nat,
      ordinal: nat, ghost starts: seq<nat>) returns (end: nat)
    requires Accepted(c) && Decode(canonical).Some? && IsRun(c, canonical, 0, starts)
    requires Ordered(rows, |rows|) && |rows| > 0 && rows[0].start == 0
    requires ordinal == |connection.chunks| < |starts| && start == starts[ordinal]
    requires start < |canonical| && IsBoundary(canonical, start)
    requires Chunked(c, canonical, rows, connection.chunks, connection.chunkFts, start)
    modifies connection`chunks, connection`chunkFts
    ensures |connection.chunks| == ordinal + 1 && start < end <= |canonical|
    ensures end == |canonical| ==>
      && IsChunkTable(c, canonical, connection.chunks) && HasIntervals(rows, connection.chunks)
      && IsIndex(canonical, connection.chunks, connection.chunkFts)
    ensures end < |canonical| ==>
      && Max(start + 1, end - c.overlap) <= |canonical| && ordinal + 1 < |starts|
      && starts[ordinal + 1] == Snap(canonical, Max(start + 1, end - c.overlap))
      && IsBoundary(canonical, starts[ordinal + 1])
      && Chunked(c, canonical, rows, connection.chunks, connection.chunkFts, starts[ordinal + 1])
  {
    Round(c, canonical, starts, ordinal);
    end := ChunkEnd(c, canonical, start);
    ghost var chunks, indexed := connection.chunks, connection.chunkFts;
    var row, fts := InsertChunk(connection, canonical, rows, start, end, ordinal);
    ChunkedExtends(c, canonical, rows, chunks, indexed, row, fts);
  }

  /**
   The chunk loop. Any text on which it ends is allowed; every slice it takes decodes.
   */
  method WriteChunks(connection: Connection, c: Config, canonical: bytes, rows: seq<ContainerRow>)
    requires Accepted(c) && Terminates(c, canonical) && Decode(canonical).Some?
    requires Ordered(rows, |rows|) && (canonical != [] ==> |rows| > 0 && rows[0].start == 0)
    requires connection.chunks == [] && connection.chunkFts == []
    modifies connection`chunks, connection`chunkFts
    ensures IsChunkTable(c, canonical, connection.chunks)
    ensures HasIntervals(rows, connection.chunks)
    ensures IsIndex(canonical, connection.chunks, connection.chunkFts)
  {
    if canonical == [] {
      return;
    }
    ghost var starts: seq<nat> :| IsRun(c, canonical, 0, starts);
    var start := 0;
    var ordinal := 0;
    while start < |canonical|
      invariant ordinal == |connection.chunks| < |starts| && start == starts[ordinal]
      invariant IsBoundary(canonical, start)
      invariant Chunked(c, canonical, rows, connection.chunks, connection.chunkFts, start)
      decreases |starts| - ordinal
    {
      var end := WriteChunk(connection, c, canonical, rows, start, ordinal, starts);
      if end == |canonical| {
        return;
      }
      start := Utf8Boundary(canonical, Max(start + 1, end - c.overlap));
      ordinal := ordinal + 1;
    }
  }

  /** One round of a run: the chunk is a slice between characters, and the next start is where the run goes on. */
  lemma {:induction false} Round(c: Config, data: bytes, starts: seq<nat>, k: nat)
    requires Accepted(c) && Decode(data).Some? && IsRun(c, data, 0, starts) && k < |starts|
    requires starts[k] < |data| && IsBoundary(data, starts[k])
    ensures
      var start := starts[k];
      var end := ChunkEnd(c, data, start);
      var wanted := Max(start + 1, end - c.overlap);
      && start < end && IsBoundary(data, end)
      && (end < |data| ==>
        && wanted <= |data| && k + 1 < |starts| && starts[k + 1] == Snap(data, wanted)
        && Leads(c, data, start, starts[k + 1]) && IsBoundary(data, starts[k + 1]))
  {
    DecodableIsAligned(data);
    ChunkEndFacts(c, data, starts[k]);
    if ChunkEnd(c, data, starts[k]) < |data| {
      RunGoesOn(c, data, starts, k);
      NextStartFacts(c, data, starts[k]);
    }
  }

  /** A chunk that does not reach the end of the text is not the last of the run. */
  lemma {:induction false} RunGoesOn(c: Config, data: bytes, starts: seq<nat>, k: nat)
    requires Accepted(c) && IsRun(c, data, 0, starts) && k < |starts|
    requires !Ends(c, data, starts[k])
    ensures k + 1 < |starts| && Leads(c, data, starts[k], starts[k + 1])
  {
    if k + 1 < |starts| {
      assert Leads(c, data, starts[k + 1 - 1], starts[k + 1]);
    }
  }

  // ----- What the chunks cover -----

  lemma {:induction false} LeadsToBoundary(c: Config, data: bytes, start: nat, next: nat)
    requires Accepted(c) && Leads(c, data, start, next)
    ensures IsBoundary(data, next)
  {
  }

  lemma {:induction false} StartIsBoundary(c: Config, data: bytes, chunks: seq<ChunkRow>, k: nat)
    requires Accepted(c) && AreChunks(c, data, chunks) && k < |chunks|
    ensures IsBoundary(data, chunks[k].start)
  {
    if k > 0 {
      LeadsToBoundary(c, data, chunks[k - 1].start, chunks[k].start);
    }
  }

  /** Every chunk starts and ends between characters and is at most the chunk size long; only the last ends the text. */
  lemma {:induction false} ChunksAligned(c: Config, data: bytes, chunks: seq<ChunkRow>, k: nat)
    requires Accepted(c) && Aligned(data) && IsChunkTable(c, data, chunks) && k < |chunks|
    ensures IsBoundary(data, chunks[k].start) && IsBoundary(data, chunks[k].end)
    ensures 0 < chunks[k].end - chunks[k].start <= c.chunk
    ensures k == 0 ==> chunks[k].start == 0
    ensures k + 1 == |chunks| <==> chunks[k].end == |data|
  {
    assert IsChunk(c, data, k, chunks[k]);
    StartIsBoundary(c, data, chunks, k);
    ChunkEndFacts(c, data, chunks[k].start);
    if k + 1 < |chunks| {
      assert Leads(c, data, chunks[k + 1 - 1].start, chunks[k + 1].start);
    }
  }

  /** The chunks reach from end to end, each beginning `overlap` bytes or more before the last one's end. */
  ghost predicate Chained(chunks: seq<ChunkRow>, length: nat, overlap: nat) {
    && |chunks| > 0 && chunks[0].start == 0 && chunks[|chunks| - 1].end == length
    && forall k :: 0 < k < |chunks| ==> chunks[k].start + overlap <= chunks[k - 1].end
  }

  lemma {:induction false} TableChained(c: Config, data: bytes, chunks: seq<ChunkRow>)
    requires Accepted(c) && Aligned(data) && IsChunkTable(c, data, chunks) && data != []
    ensures Chained(chunks, |data|, if Paced(c) then c.overlap else 0)
  {
    ChunksAligned(c, data, chunks, 0);
    ChunksAligned(c, data, chunks, |chunks| - 1);
    forall k | 0 < k < |chunks|
      ensures chunks[k].start + (if Paced(c) then c.overlap else 0) <= chunks[k - 1].end
    {
      NextChunk(c, data, chunks, k - 1);
    }
  }

  lemma {:induction false} NextChunk(c: Config, data: bytes, chunks: seq<ChunkRow>, k: nat)
    requires Accepted(c) && Aligned(data) && IsChunkTable(c, data, chunks) && k + 1 < |chunks|
    ensures chunks[k].start <= chunks[k + 1].start <= chunks[k].end
    ensures Paced(c) ==> chunks[k].start < chunks[k + 1].start
    ensures Paced(c) ==> c.overlap <= chunks[k].end - chunks[k + 1].start <= c.overlap + 3
  {
    assert IsChunk(c, data, k, chunks[k]);
    assert Leads(c, data, chunks[k + 1 - 1].start, chunks[k + 1].start);
    StartIsBoundary(c, data, chunks, k);
    NextStartFacts(c, data, chunks[k].start);
  }

  /** Consecutive chunks: starts and ends advance, and the shared bytes are the overlap, give or take a character. */
  lemma {:induction false} ChunksOverlap(c: Config, data: bytes, chunks: seq<ChunkRow>, k: nat)
    requires Accepted(c) && Paced(c) && Aligned(data)
    requires IsChunkTable(c, data, chunks) && k + 1 < |chunks|
    ensures chunks[k].start < chunks[k + 1].start <= chunks[k].end < chunks[k + 1].end
    ensures c.overlap <= chunks[k].end - chunks[k + 1].start <= c.overlap + 3
  {
    NextChunk(c, data, chunks, k);
    assert IsChunk(c, data, k + 1, chunks[k + 1]);
    ChunkEndFacts(c, data, chunks[k + 1].start);
  }

  lemma {:induction false} FindInChain(chunks: seq<ChunkRow>, length: nat, overlap: nat, a: nat, b: nat, n: nat)
    returns (k: nat)
    requires Chained(chunks, length, overlap) && a <= b <= length && b - a <= overlap
    requires n < |chunks| && (n + 1 < |chunks| ==> a < chunks[n + 1].start)
    ensures k <= n && chunks[k].start <= a && (b <= chunks[k].end)
  {
    if chunks[n].start <= a {
      k := n;
    } else {
      k := FindInChain(chunks, length, overlap, a, b, n - 1);
    }
  }

  /** No text is lost at a cut: any stretch no longer than the overlap lies whole in some chunk. */
  lemma {:induction false} ShortStretchInSomeChunk(c: Config, data: bytes, chunks: seq<ChunkRow>, a: nat, b: nat)
    returns (k: nat)
    requires Accepted(c) && Paced(c) && Aligned(data) && data != [] && IsChunkTable(c, data, chunks)
    requires a <= b <= |data| && b - a <= c.overlap
    ensures k < |chunks| && chunks[k].start <= a && b <= chunks[k].end
  {
    TableChained(c, data, chunks);
    k := FindInChain(chunks, |data|, c.overlap, a, b, |chunks| - 1);
  }

  /** Whatever the overlap, the chunks together cover the whole text. */
  lemma {:induction false} EveryByteInSomeChunk(c: Config, data: bytes, chunks: seq<ChunkRow>, a: nat) returns (k: nat)
    requires Accepted(c) && Aligned(data) && IsChunkTable(c, data, chunks) && a < |data|
    ensures k < |chunks| && chunks[k].start <= a < chunks[k].end
  {
    TableChained(c, data, chunks);
    k := LastStartingBy(chunks, |data|, if Paced(c) then c.overlap else 0, a, |chunks| - 1);
  }

  lemma {:induction false} LastStartingBy(chunks: seq<ChunkRow>, length: nat, overlap: nat, a: nat, n: nat)
    returns (k: nat)
    requires Chained(chunks, length, overlap) && a < length
    requires n < |chunks| && (n + 1 < |chunks| ==> a < chunks[n + 1].start)
    ensures k <= n && chunks[k].start <= a < chunks[k].end
  {
    if chunks[n].start <= a {
      k := n;
    } else {
      k := LastStartingBy(chunks, length, overlap, a, n - 1);
    }
  }

  // ----- The whole artifact -----

  /** The rows the content writer stores are ordered as the chunker expects. */
  lemma {:induction false} StoredRowsOrdered(cs: seq<Container>, rows: seq<ContainerRow>, n: nat)
    requires n <= |rows| == |cs| && forall i | 0 <= i < |cs| :: rows[i] == ContainerRowOf(cs, i)
    ensures Ordered(rows, n)
    ensures n > 0 ==> rows[0].start == 0
  {
    if n > 0 {
      StoredRowsOrdered(cs, rows, n - 1);
    }
  }

  /** `write`: content, chunks, the whole text and the metadata, on a fresh database. */
  method Write(c: Config, cs: seq<Container>, outline: seq<OutlineEntry>, pdf: bool)
    returns (r: Result<(bytes, Connection), WriteError>, ghost origin: map<string, (nat, nat)>)
    requires Accepted(c) && Terminates(c, Canonical(cs)) && Numbered(cs)
    ensures r.Ok? <==> DistinctRegionIds(cs)
    ensures r.Ok? ==>
      var (text, connection) := r.value;
      && fresh(connection)
      && text == Canonical(cs)
      && ContentStored(cs, connection.blocks, connection.containers, connection.regions, origin, |cs|)
      && OutlineStored(outline, connection.outline)
      && IsChunkTable(c, text, connection.chunks)
      && HasIntervals(connection.containers, connection.chunks)
      && IsIndex(text, connection.chunks, connection.chunkFts)
      && connection.documentText == Some(text)
      && connection.metadata == Some(Metadata(|text|, |cs|, |outline|, if pdf then Some(|cs|) else None))
  {
    var connection := new Connection();
    var content;
    content, origin := WriteContent(connection, cs, outline);
    if content.Err? {
      return Err(content.error), origin;
    }
    var canonical := content.value.0;
    TextDecodes(cs, |cs|);
    StoredRowsOrdered(cs, connection.containers, |cs|);
    WriteChunks(connection, c, canonical, content.value.1);
    connection.documentText := Some(canonical);
    connection.metadata := Some(Metadata(|canonical|, |cs|, |outline|, if pdf then Some(|cs|) else None));
    r := Ok((canonical, connection));
  }
}

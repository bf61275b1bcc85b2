/** Reading a stored artifact back: container windows and the regions they show. */
module ArtifactReader {
  import opened Basics
  import opened Utf8
  import opened ArtifactModel
  import opened ArtifactWriter
  import opened ArtifactChunks

  datatype ReadError = InvalidNumber | InvalidCount | UnknownContainer | InvalidRange

  /** The text windows the reader returns; `regions` holds the selected ids. */
  datatype Window = Window(
    containerStart: nat, containerEnd: nat, totalContainers: nat, text: string, regions: set<string>, truncated: bool)

  /** The tables of an artifact as the reader sees them: nothing changes them any more. */
  datatype Artifact = Artifact(text: bytes, containers: seq<ContainerRow>, regions: map<string, RegionRow>)

  /** The text and container rows are the ones the writer stored for `cs`. */
  ghost predicate StoresText(a: Artifact, cs: seq<Container>) {
    && a.text == Canonical(cs) && Ordered(a.containers, |a.containers|)
    && |a.containers| == |cs| && (forall i | 0 <= i < |cs| :: a.containers[i] == ContainerRowOf(cs, i))
  }

  // ----- Windows -----

  /** The texts of containers `lo` to `hi`, joined by the separator. */
  function Joined(cs: seq<Container>, lo: nat, hi: nat): bytes
    requires lo <= hi < |cs|
  {
    if lo == hi then ContainerText(cs[lo])
    else Joined(cs, lo, hi - 1) + CONTAINER_SEPARATOR + ContainerText(cs[hi])
  }

  /** Container `i` is where its offsets say, right after a separator unless it is the first. */
  predicate SlicedAt(cs: seq<Container>, text: bytes, i: nat)
    requires i < |cs|
  {
    && StartOf(cs, i) <= EndOf(cs, i) <= |text|
    && text[StartOf(cs, i)..EndOf(cs, i)] == ContainerText(cs[i])
    && (i > 0 ==>
      EndOf(cs, i - 1) <= StartOf(cs, i) && text[EndOf(cs, i - 1)..StartOf(cs, i)] == CONTAINER_SEPARATOR)
  }

  lemma {:induction false} SeparatorBefore(cs: seq<Container>, i: nat)
    requires 0 < i < |cs|
    ensures EndOf(cs, i - 1) <= StartOf(cs, i) <= |Canonical(cs)|
    ensures Canonical(cs)[EndOf(cs, i - 1)..StartOf(cs, i)] == CONTAINER_SEPARATOR
  {
    ContainerRangesApart(cs, i - 1);
  }

  lemma {:induction false} CanonicalIsSliced(cs: seq<Container>, i: nat)
    requires i < |cs|
    ensures SlicedAt(cs, Canonical(cs), i)
  {
    ContainerRangesSlice(cs, i);
    if i > 0 {
      SeparatorBefore(cs, i);
    }
  }

  /** The offsets of a run of containers slice the canonical text to the join of their texts. */
  lemma {:induction false} WindowSlice(cs: seq<Container>, lo: nat, hi: nat)
    requires lo <= hi < |cs|
    ensures StartOf(cs, lo) <= EndOf(cs, hi) <= |Canonical(cs)|
    ensures Canonical(cs)[StartOf(cs, lo)..EndOf(cs, hi)] == Joined(cs, lo, hi)
  {
    CanonicalIsSliced(cs, lo);
    if lo < hi {
      WindowSlice(cs, lo, hi - 1);
      CanonicalIsSliced(cs, hi);
      ThreeSlices(Canonical(cs), StartOf(cs, lo), EndOf(cs, hi - 1), StartOf(cs, hi), EndOf(cs, hi),
                  Joined(cs, lo, hi - 1), ContainerText(cs[hi]));
    }
  }

  lemma {:induction false} ThreeSlices(s: bytes, a: nat, b: nat, c: nat, d: nat, front: bytes, back: bytes)
    requires a <= b <= c <= d <= |s|
    requires s[a..b] == front && s[b..c] == CONTAINER_SEPARATOR && s[c..d] == back
    ensures s[a..d] == front + CONTAINER_SEPARATOR + back
  {
    assert s[a..d] == s[a..b] + s[b..c] + s[c..d];
  }

  /** The rows from `lo` to `hi` fit a window of `maxBytes`. */
  predicate Fits(rows: seq<ContainerRow>, lo: nat, hi: nat, maxBytes: int)
    requires lo <= hi < |rows|
  {
    rows[hi].end - rows[lo].start <= maxBytes
  }

  /** The last container of the longest run of at most `count` that fits, growing from `hi`. */
  function LongestRun(rows: seq<ContainerRow>, lo: nat, hi: nat, count: nat, maxBytes: int): (last: nat)
    requires lo <= hi < |rows| && hi < lo + count
    ensures hi <= last < |rows| && last < lo + count
    ensures Fits(rows, lo, hi, maxBytes) ==> Fits(rows, lo, last, maxBytes)
    ensures last + 1 < |rows| && last + 1 < lo + count ==> !Fits(rows, lo, last + 1, maxBytes)
    decreases |rows| - hi
  {
    if hi + 1 < |rows| && hi + 1 < lo + count && Fits(rows, lo, hi + 1, maxBytes)
    then LongestRun(rows, lo, hi + 1, count, maxBytes)
    else hi
  }

  /**
   The rows that fit: the comprehension tests each row by itself, yet keeps a run
   without holes, the longest one.
   */
  method FittingRows(rows: seq<ContainerRow>, lo: nat, count: nat, maxBytes: int)
    returns (fitting: seq<ContainerRow>)
    requires Ordered(rows, |rows|) && lo < |rows| && count > 0
    ensures fitting ==
      if Fits(rows, lo, lo, maxBytes) then rows[lo..LongestRun(rows, lo, lo, count, maxBytes) + 1] else []
  {
    var total := Min(|rows|, lo + count);
    var start := rows[lo].start;
    ghost var last := LongestRun(rows, lo, lo, count, maxBytes);
    ghost var some := Fits(rows, lo, lo, maxBytes);
    fitting := [];
    var i := lo;
    while i < total
      invariant lo <= i <= total
      invariant fitting == if some then rows[lo..Min(i, last + 1)] else []
    {
      RowFits(rows, lo, count, maxBytes, i);
      if rows[i].end - start <= maxBytes {
        fitting := fitting + [rows[i]];
      }
      i := i + 1;
    }
  }

  /** One row fits exactly when it belongs to the run. */
  lemma {:induction false} RowFits(rows: seq<ContainerRow>, lo: nat, count: nat, maxBytes: int, i: nat)
    requires Ordered(rows, |rows|) && lo <= i < |rows| && i < lo + count
    ensures
      rows[i].end - rows[lo].start <= maxBytes
      <==> Fits(rows, lo, lo, maxBytes) && i <= LongestRun(rows, lo, lo, count, maxBytes)
  {
    OrderedPairs(rows, |rows|);
  }

  // ----- Regions -----

  /** The condition of the region query. */
  predicate Selected(row: RegionRow, start: nat, end: nat, lo: nat, hi: nat) {
    match row.span
    case None => lo <= row.container <= hi
    case Some(r) => r.start < end && r.end > start
  }

  /** The ids the region query selects, before its order and limit. */
  function Regions(a: Artifact, start: nat, end: nat, lo: nat, hi: nat): set<string> {
    set id | id in a.regions && Selected(a.regions[id], start, end, lo, hi)
  }

  /** Region `k` of container `i` meets only empty blocks, all at one edge of the window. */
  predicate AtEdge(span: Option<Range>, start: nat, end: nat) {
    span.Some? && span.value.start == span.value.end && (span.value.start == start || span.value.start == end)
  }

  /** A region's extent lies inside its container. */
  lemma {:induction false} SpanInside(cs: seq<Container>, i: nat, k: nat, span: Range)
    requires i < |cs| && k < |cs[i].regions| && IsSpan(cs, i, k, Some(span))
    ensures ContainerRange(cs, i).start <= span.start <= span.end <= ContainerRange(cs, i).end
  {
    var j :| 0 <= j < |cs[i].blocks| && Meets(cs, i, k, j) && BlockRange(cs, i, j).start == span.start;
    var m :| 0 <= m < |cs[i].blocks| && Meets(cs, i, k, m) && BlockRange(cs, i, m).end == span.end;
    BlockRangesSlice(cs, i, j);
    BlockRangesSlice(cs, i, m);
    assert span.start <= BlockRange(cs, i, m).start;
  }

  /**
   The region query answers from offsets alone, yet selects exactly the regions of the
   window's containers, save a region whose blocks are all empty at the window's edge.
   */
  lemma {:induction false} RegionSelectedIff(rows: seq<ContainerRow>, row: RegionRow, lo: nat, hi: nat)
    requires Ordered(rows, |rows|) && lo <= hi < |rows| && row.container < |rows|
    requires row.span.Some? ==>
      rows[row.container].start <= row.span.value.start <= row.span.value.end <= rows[row.container].end
    ensures Selected(row, rows[lo].start, rows[hi].end, lo, hi)
      <==> lo <= row.container <= hi && !AtEdge(row.span, rows[lo].start, rows[hi].end)
  {
    OrderedPairs(rows, |rows|);
  }

  /** A region that meets a block with text is never at an edge. */
  lemma {:induction false} TextKeepsRegions(cs: seq<Container>, i: nat, k: nat, j: nat, span: Option<Range>,
      start: nat, end: nat)
    requires i < |cs| && k < |cs[i].regions| && IsSpan(cs, i, k, span)
    requires j < |cs[i].blocks| && Meets(cs, i, k, j) && cs[i].blocks[j].text != []
    ensures !AtEdge(span, start, end)
  {
    if span.Some? {
      BlockRangesSlice(cs, i, j);
      TextHasBytes(cs[i].blocks[j].text);
    }
  }

  lemma {:induction false} TextHasBytes(text: string)
    requires text != []
    ensures Encode(text) != []
  {
  }

  /** The ids of all regions of containers `lo` to `hi`. */
  ghost predicate AreRegionsOf(cs: seq<Container>, ids: set<string>, lo: nat, hi: nat)
    requires lo <= hi < |cs|
  {
    && (forall i, k | lo <= i <= hi && 0 <= k < |cs[i].regions| :: cs[i].regions[k].id in ids)
    && forall id | id in ids :: exists i, k :: lo <= i <= hi && 0 <= k < |cs[i].regions| && cs[i].regions[k].id == id
  }

  /** With text in every block a window of whole containers shows exactly their regions. */
  lemma {:induction false} RegionsOfWindow(a: Artifact, cs: seq<Container>, origin: map<string, (nat, nat)>, lo: nat,
      hi: nat)
    requires StoresText(a, cs) && Numbered(cs) && RegionsStored(cs, a.regions, origin, |cs|, 0)
    requires AllBlocksHaveText(cs) && lo <= hi < |cs|
    ensures AreRegionsOf(cs, Regions(a, a.containers[lo].start, a.containers[hi].end, lo, hi), lo, hi)
  {
    var start, end := a.containers[lo].start, a.containers[hi].end;
    var ids := Regions(a, start, end, lo, hi);
    forall i, k | lo <= i <= hi && 0 <= k < |cs[i].regions| ensures cs[i].regions[k].id in ids {
      StoredRegion(cs, a.regions, origin, i, k);
      RegionShown(a, cs, i, k, a.regions[cs[i].regions[k].id], lo, hi);
    }
    forall id | id in ids
      ensures exists i, k :: lo <= i <= hi && 0 <= k < |cs[i].regions| && cs[i].regions[k].id == id
    {
      var p := origin[id];
      RegionShown(a, cs, p.0, p.1, a.regions[id], lo, hi);
    }
  }

  lemma {:induction false} RegionShown(a: Artifact, cs: seq<Container>, i: nat, k: nat, row: RegionRow, lo: nat,
      hi: nat)
    requires |a.containers| == |cs| && Ordered(a.containers, |a.containers|)
    requires AllBlocksHaveText(cs) && lo <= hi < |cs| && i < |cs| && k < |cs[i].regions|
    requires a.containers[i] == ContainerRowOf(cs, i) && row.container == i && IsSpan(cs, i, k, row.span)
    ensures Selected(row, a.containers[lo].start, a.containers[hi].end, lo, hi) <==> lo <= i <= hi
  {
    if row.span.Some? {
      SpanInside(cs, i, k, row.span.value);
    }
    NeverAtEdge(cs, i, k, row.span, a.containers[lo].start, a.containers[hi].end);
    RegionSelectedIff(a.containers, row, lo, hi);
  }

  lemma {:induction false} StoredRegion(
    cs: seq<Container>, regions: map<string, RegionRow>, origin: map<string, (nat, nat)>, i: nat, k: nat)
    requires Numbered(cs) && RegionsStored(cs, regions, origin, |cs|, 0) && i < |cs| && k < |cs[i].regions|
    ensures
      var id := cs[i].regions[k].id;
      id in regions && regions[id].container == i && IsSpan(cs, i, k, regions[id].span)
  {
    var p: (nat, nat) := (i, k);
    assert Before(p, |cs|, 0);
    assert origin[cs[p.0].regions[p.1].id] == p;
  }

  lemma {:induction false} NeverAtEdge(cs: seq<Container>, i: nat, k: nat, span: Option<Range>, start: nat, end: nat)
    requires AllBlocksHaveText(cs) && i < |cs| && k < |cs[i].regions| && IsSpan(cs, i, k, span)
    ensures !AtEdge(span, start, end)
  {
    if span.Some? {
      var j :| 0 <= j < |cs[i].blocks| && Meets(cs, i, k, j) && BlockRange(cs, i, j).start == span.value.start;
      assert cs[i].blocks[j].text != [];
      TextKeepsRegions(cs, i, k, j, span, start, end);
    }
  }

  /** An empty block at the start of its container: its region is stored, and no window shows it. */
  lemma {:induction false} EmptyBlockLosesRegion()
    ensures
      var bounds := Bounds(0.0, 0.0, 1.0, 1.0);
      var cs := [Container(0, [TextBlock("", bounds)], [VisualRegion("r", bounds)])];
      forall row: RegionRow | row.container == 0 && IsSpan(cs, 0, 0, row.span) ::
        !Selected(row, ContainerRange(cs, 0).start, ContainerRange(cs, 0).end, 0, 0)
  {
    var bounds := Bounds(0.0, 0.0, 1.0, 1.0);
    var cs := [Container(0, [TextBlock("", bounds)], [VisualRegion("r", bounds)])];
    assert BlocksText(cs[0].blocks, 0) == [] && Glued(cs[0].blocks, 0) == [];
    assert BlocksText(cs[0].blocks, 1) == [];
    assert Base(cs, 0) == [] && TextUpTo(cs, 1) == [];
    forall row: RegionRow | row.container == 0 && IsSpan(cs, 0, 0, row.span)
      ensures !Selected(row, ContainerRange(cs, 0).start, ContainerRange(cs, 0).end, 0, 0)
    {
      assert Meets(cs, 0, 0, 0);
      if row.span.Some? {
        SpanInside(cs, 0, 0, row.span.value);
      }
    }
  }

  // ----- The regions of a search hit -----

  /** A row's extent, if it has one, lies inside its container. */
  predicate SpanLies(rows: seq<ContainerRow>, row: RegionRow) {
    && row.container < |rows|
    && (row.span.Some? ==>
      rows[row.container].start <= row.span.value.start <= row.span.value.end <= rows[row.container].end)
  }

  /** The query for a chunk, with the interval stored for it, finds regions of that interval only. */
  lemma {:induction false} HitRegionInside(rows: seq<ContainerRow>, row: RegionRow, start: nat, end: nat, lo: nat,
      hi: nat)
    requires start < end && IsContainerInterval(rows, start, end, lo, hi) && SpanLies(rows, row)
    ensures Selected(row, start, end, lo, hi) ==> lo <= row.container <= hi
  {
    if row.span.Some? && Selected(row, start, end, lo, hi) {
      assert Overlaps(rows[row.container], start, end);
    }
  }

  lemma {:induction false} StoredSpanLies(cs: seq<Container>, a: Artifact, origin: map<string, (nat, nat)>, id: string)
    requires StoresText(a, cs) && Numbered(cs) && RegionsStored(cs, a.regions, origin, |cs|, 0) && id in a.regions
    ensures SpanLies(a.containers, a.regions[id])
  {
    var p := origin[id];
    if a.regions[id].span.Some? {
      SpanInside(cs, p.0, p.1, a.regions[id].span.value);
    }
  }

  /**
   The regions of a hit on chunk `k` of a stored document belong to the containers that the
   chunk overlaps, and every one whose extent shares a byte with the chunk is among them.
   */
  lemma {:induction false} RegionsOfHit(a: Artifact, cs: seq<Container>, origin: map<string, (nat, nat)>,
      chunks: seq<ChunkRow>, k: nat,
      id: string)
    requires StoresText(a, cs) && Numbered(cs) && RegionsStored(cs, a.regions, origin, |cs|, 0)
    requires HasIntervals(a.containers, chunks) && k < |chunks| && chunks[k].start < chunks[k].end && id in a.regions
    ensures
      var hit := chunks[k];
      var shown := Regions(a, hit.start, hit.end, hit.containerStart, hit.containerEnd);
      && (id in shown ==> hit.containerStart <= a.regions[id].container <= hit.containerEnd)
      && (a.regions[id].span.Some? ==>
        var span := a.regions[id].span.value;
        span.start < span.end ==> (id in shown <==> Max(span.start, hit.start) < Min(span.end, hit.end)))
  {
    var hit := chunks[k];
    StoredSpanLies(cs, a, origin, id);
    HitRegionInside(a.containers, a.regions[id], hit.start, hit.end, hit.containerStart, hit.containerEnd);
  }

  /** What the writer stores is what the reader relies on. */
  lemma {:induction false} WrittenIsReadable(cs: seq<Container>, connection: Connection, text: bytes,
      origin: map<string, (nat, nat)>)
    requires text == Canonical(cs)
    requires ContentStored(cs, connection.blocks, connection.containers, connection.regions, origin, |cs|)
    ensures
      var a := Artifact(text, connection.containers, connection.regions);
      StoresText(a, cs) && RegionsStored(cs, a.regions, origin, |cs|, 0)
  {
    StoredRowsOrdered(cs, connection.containers, |cs|);
  }

  // ----- read_containers -----

  lemma {:induction false} StartIsEdge(cs: seq<Container>, i: nat)
    requires i < |cs|
    ensures IsBoundary(Canonical(cs), StartOf(cs, i))
  {
    if i > 0 {
      SeparatorBefore(cs, i);
      TextDecodes(cs, |cs|);
      AfterSeparator(Canonical(cs), EndOf(cs, i - 1), StartOf(cs, i));
    }
  }

  lemma {:induction false} EndIsEdge(cs: seq<Container>, i: nat)
    requires i < |cs|
    ensures IsBoundary(Canonical(cs), EndOf(cs, i))
  {
    ContainerRangesSlice(cs, i);
    if i + 1 < |cs| {
      ContainerRangesApart(cs, i);
      BeforeSeparator(Canonical(cs), EndOf(cs, i));
    }
  }

  lemma {:induction false} AfterSeparator(data: bytes, end: nat, start: nat)
    requires end <= start <= |data| && data[end..start] == CONTAINER_SEPARATOR && Decode(data).Some?
    ensures IsBoundary(data, start)
  {
    assert data[start - 1] == data[end..start][2];
    DecodableIsAligned(data);
  }

  lemma {:induction false} BeforeSeparator(data: bytes, end: nat)
    requires end + 3 <= |data| && data[end..end + 3] == CONTAINER_SEPARATOR
    ensures IsBoundary(data, end)
  {
    assert data[end] == data[end..end + 3][0];
  }

  /** The cut of a window smaller than its first container: the whole characters before the limit. */
  lemma {:induction false} TruncatedCut(data: bytes, start: nat, end: nat)
    requires Decode(data).Some? && start <= end <= |data| && IsBoundary(data, start)
    ensures start <= Snap(data, end) <= end
    ensures Encode(DecodeIgnore(data[start..end])) == data[start..Snap(data, end)]
  {
    EncodeDecoded(data);
    var k := BoundaryCutsText(Decode(data).value, start);
    CutAt(data, Decode(data).value[k..], start, end);
  }

  lemma {:induction false} CutAt(data: bytes, rest: string, start: nat, end: nat)
    requires start <= end <= |data| && data[start..] == Encode(rest)
    ensures start <= Snap(data, end) <= end
    ensures Encode(DecodeIgnore(data[start..end])) == data[start..Snap(data, end)]
  {
    SplitAt(data, start);
    CutFront(data, data[..start], rest, start, end);
  }

  lemma {:induction false} CutFront(data: bytes, front: bytes, rest: string, start: nat, end: nat)
    requires start <= end <= |data| && |front| == start && data == front + Encode(rest)
    ensures start <= Snap(data, end) <= end
    ensures Encode(DecodeIgnore(data[start..end])) == data[start..Snap(data, end)]
  {
    var back, p := Encode(rest), end - start;
    StartsAtBoundary(rest);
    SnapAfter(front, back, p);
    var q := Snap(back, p);
    CutAfter(front, back, p, q);
    assert data[start..end] == back[..p] && data[start..start + q] == back[..q];
    CutKeeps(rest, p);
  }

  lemma {:induction false} CutKeeps(rest: string, p: nat)
    requires p <= |Encode(rest)|
    ensures Encode(DecodeIgnore(Encode(rest)[..p])) == Encode(rest)[..Snap(Encode(rest), p)]
  {
    IgnoreKeepsWholeChars(rest, p);
  }

  lemma {:induction false} SnapAfter(front: bytes, rest: bytes, p: nat)
    requires p <= |rest| && (rest == [] || !IsContinuation(rest[0]))
    ensures Snap(front + rest, |front| + p) == |front| + Snap(rest, p)
  {
    if front == [] {
      assert front + rest == rest;
    } else {
      SnapShift(front, rest, p);
    }
  }

  lemma {:induction false} CutAfter(front: bytes, rest: bytes, p: nat, q: nat)
    requires p <= |rest| && q <= |rest|
    ensures (front + rest)[|front|..|front| + p] == rest[..p]
    ensures (front + rest)[|front|..|front| + q] == rest[..q]
  {
  }

  /** `_text`: a range of the canonical text, or an error when it is not one. */
  function Text(a: Artifact, start: int, end: int): (r: Result<bytes, ReadError>)
    ensures r.Ok? <==> 0 <= start <= end <= |a.text|
    ensures r.Ok? ==> r.value == a.text[start..end]
  {
    if start < 0 || end < start || end > |a.text| then Err(InvalidRange) else Ok(a.text[start..end])
  }

  /** A window of whole containers: the longest run that fits, with the join of their texts. */
  ghost predicate IsWholeWindow(a: Artifact, cs: seq<Container>, lo: nat, count: nat, maxBytes: int, w: Window)
    requires lo < |cs| == |a.containers| && count > 0
  {
    && Fits(a.containers, lo, lo, maxBytes)
    && w.containerEnd == LongestRun(a.containers, lo, lo, count, maxBytes)
    && Encode(w.text) == Joined(cs, lo, w.containerEnd)
    && w.regions == Regions(a, a.containers[lo].start, a.containers[w.containerEnd].end, lo, w.containerEnd)
  }

  /** A window cut short: the whole characters of one container's text within the limit. */
  ghost predicate IsCutWindow(a: Artifact, lo: nat, maxBytes: int, w: Window)
    requires lo < |a.containers|
  {
    var start := a.containers[lo].start;
    && !Fits(a.containers, lo, lo, maxBytes)
    && w.containerEnd == lo
    && 0 <= start + maxBytes < |a.text|
    && start <= Snap(a.text, start + maxBytes)
    && Encode(w.text) == a.text[start..Snap(a.text, start + maxBytes)]
    && w.regions == Regions(a, start, Snap(a.text, start + maxBytes), lo, lo)
  }

  /** `read_containers`: errors for requests out of range, otherwise the promised window with its regions. */
  method ReadContainers(a: Artifact, ghost cs: seq<Container>, number: int, count: int,
      maxBytes: int) returns (r: Result<Window, ReadError>)
    requires StoresText(a, cs)
    ensures r == Err(InvalidNumber) <==> number < 0
    ensures r == Err(InvalidCount) <==> number >= 0 && (count < 1 || count > 20)
    ensures r == Err(UnknownContainer) <==> 1 <= count <= 20 && number >= |cs|
    ensures r == Err(InvalidRange) <==> 0 <= number < |cs| && 1 <= count <= 20 && maxBytes < 0
    ensures r.Ok? ==>
      && r.value.containerStart == number && r.value.totalContainers == |cs|
      && if r.value.truncated then IsCutWindow(a, number, maxBytes, r.value)
        else IsWholeWindow(a, cs, number, count, maxBytes, r.value)
  {
    if number < 0 {
      return Err(InvalidNumber);
    }
    if count < 1 || count > 20 {
      return Err(InvalidCount);
    }
    var total := |a.containers|;
    if number >= total {
      return Err(UnknownContainer);
    }
    r := ReadFrom(a, cs, number, count, maxBytes);
  }

  /** The windows of a request within range. */
  method ReadFrom(a: Artifact, ghost cs: seq<Container>, number: nat, count: nat, maxBytes: int)
    returns (r: Result<Window, ReadError>)
    requires StoresText(a, cs) && number < |cs| && count > 0
    ensures r.Err? <==> maxBytes < 0
    ensures r.Err? ==> r.error == InvalidRange
    ensures r.Ok? ==>
      && r.value.containerStart == number && r.value.totalContainers == |cs|
      && if r.value.truncated then IsCutWindow(a, number, maxBytes, r.value)
        else IsWholeWindow(a, cs, number, count, maxBytes, r.value)
  {
    var fitting := FittingRows(a.containers, number, count, maxBytes);
    if fitting == [] {
      r := TruncatedWindow(a, cs, number, maxBytes);
    } else {
      var w := WholeWindow(a, cs, number, fitting[|fitting| - 1]);
      r := Ok(w);
    }
  }

  /** The window from container `lo` to the one of row `row`. */
  method WholeWindow(a: Artifact, ghost cs: seq<Container>, lo: nat, row: ContainerRow) returns (w: Window)
    requires StoresText(a, cs) && lo < |cs| && row in a.containers[lo..]
    ensures lo <= row.number < |cs| && row == a.containers[row.number]
    ensures w == Window(lo, row.number, |cs|, w.text, w.regions, false)
    ensures Encode(w.text) == Joined(cs, lo, row.number)
    ensures w.regions == Regions(a, a.containers[lo].start, row.end, lo, row.number)
  {
    ghost var k :| 0 <= k < |a.containers[lo..]| && a.containers[lo..][k] == row;
    assert row == a.containers[lo + k];
    OrderedPairs(a.containers, |a.containers|);
    var text := WindowText(a, cs, lo, row.number);
    var regions := Regions(a, a.containers[lo].start, row.end, lo, row.number);
    w := Window(lo, row.number, |a.containers|, text, regions, false);
  }

  method WindowText(a: Artifact, ghost cs: seq<Container>, lo: nat, hi: nat) returns (text: string)
    requires StoresText(a, cs) && lo <= hi < |cs|
    ensures Encode(text) == Joined(cs, lo, hi)
  {
    TextDecodes(cs, |cs|);
    WindowSlice(cs, lo, hi);
    StartIsEdge(cs, lo);
    EndIsEdge(cs, hi);
    text := DecodeSlice(a.text, a.containers[lo].start, a.containers[hi].end);
  }

  method TruncatedWindow(a: Artifact, ghost cs: seq<Container>, number: nat, maxBytes: int)
    returns (r: Result<Window, ReadError>)
    requires StoresText(a, cs) && number < |cs| && !Fits(a.containers, number, number, maxBytes)
    ensures r.Err? <==> maxBytes < 0
    ensures r.Err? ==> r.error == InvalidRange
    ensures r.Ok? ==>
      && r.value.truncated && r.value.containerStart == number && r.value.totalContainers == |cs|
      && IsCutWindow(a, number, maxBytes, r.value)
  {
    CutInRange(a, cs, number, maxBytes);
    r := CutWindow(a, number, maxBytes);
  }

  method CutWindow(a: Artifact, number: nat, maxBytes: int) returns (r: Result<Window, ReadError>)
    requires number < |a.containers| && !Fits(a.containers, number, number, maxBytes)
    requires a.containers[number].start + maxBytes < |a.text| && a.containers[number].start <= |a.text|
    requires Decode(a.text).Some? && IsBoundary(a.text, a.containers[number].start)
    ensures r.Err? <==> maxBytes < 0
    ensures r.Err? ==> r.error == InvalidRange
    ensures r.Ok? ==>
      && r.value.truncated && r.value.containerStart == number && r.value.totalContainers == |a.containers|
      && IsCutWindow(a, number, maxBytes, r.value)
  {
    var start := a.containers[number].start;
    var text :- CutText(a, start, start + maxBytes);
    ghost var snap := Snap(a.text, start + maxBytes);
    CutEnd(a.text, start, snap, Encode(text));
    var end := start + |Encode(text)|;
    var regions := Regions(a, start, end, number, number);
    IsCut(a, number, maxBytes, text, snap);
    r := Ok(Window(number, number, |a.containers|, text, regions, true));
  }

  lemma {:induction false} IsCut(a: Artifact, number: nat, maxBytes: nat, text: string, end: nat)
    requires number < |a.containers| && !Fits(a.containers, number, number, maxBytes)
    requires a.containers[number].start + maxBytes < |a.text|
    requires a.containers[number].start <= end == Snap(a.text, a.containers[number].start + maxBytes)
    requires Encode(text) == a.text[a.containers[number].start..end]
    ensures
      var regions := Regions(a, a.containers[number].start, end, number, number);
      IsCutWindow(a, number, maxBytes, Window(number, number, |a.containers|, text, regions, true))
  {
  }

  lemma {:induction false} CutEnd(data: bytes, start: nat, end: nat, cut: bytes)
    requires start <= end <= |data| && cut == data[start..end]
    ensures start + |cut| == end
  {
  }

  /** The range of the text, or the error of `_text`, with incomplete characters dropped. */
  method CutText(a: Artifact, start: nat, end: int) returns (r: Result<string, ReadError>)
    requires end <= |a.text| && Decode(a.text).Some? && start <= |a.text| && IsBoundary(a.text, start)
    ensures r.Ok? <==> start <= end
    ensures r.Err? ==> r.error == InvalidRange
    ensures r.Ok? ==> start <= Snap(a.text, end) <= |a.text| && Encode(r.value) == a.text[start..Snap(a.text, end)]
  {
    var cut := Text(a, start, end);
    if cut.Err? {
      return Err(cut.error);
    }
    TruncatedCut(a.text, start, end);
    r := Ok(DecodeIgnore(cut.value));
  }

  /** A window smaller than its first container stays within the text and begins between characters. */
  lemma {:induction false} CutInRange(a: Artifact, cs: seq<Container>, number: nat, maxBytes: int)
    requires StoresText(a, cs) && number < |cs| && !Fits(a.containers, number, number, maxBytes)
    ensures a.containers[number].start + maxBytes < |a.text| && a.containers[number].start <= |a.text|
    ensures Decode(a.text).Some? && IsBoundary(a.text, a.containers[number].start)
  {
    ContainerRangesSlice(cs, number);
    TextDecodes(cs, |cs|);
    StartIsEdge(cs, number);
  }

  // ----- Reading a document window by window -----

  /** What `ReadContainers` promises of the window it returns. */
  ghost predicate Promised(a: Artifact, cs: seq<Container>, count: int, maxBytes: int, w: Window)
    requires |a.containers| == |cs| && count > 0
  {
    && w.containerStart < |cs| && w.totalContainers == |cs|
    && if w.truncated then IsCutWindow(a, w.containerStart, maxBytes, w)
      else IsWholeWindow(a, cs, w.containerStart, count, maxBytes, w)
  }

  /** Windows that begin at the first container and follow one another up to container `next`, exclusively. */
  ghost predicate Successive(ws: seq<Window>, next: nat) {
    if ws == [] then next == 0
    else
      var w := ws[|ws| - 1];
      w.containerStart <= w.containerEnd && next == w.containerEnd + 1 && Successive(ws[..|ws| - 1], w.containerStart)
  }

  /** The texts of the windows, joined by the separator. */
  function WindowsText(ws: seq<Window>): bytes
    requires ws != []
  {
    var text := Encode(ws[|ws| - 1].text);
    if |ws| == 1 then text else WindowsText(ws[..|ws| - 1]) + CONTAINER_SEPARATOR + text
  }

  predicate AllWhole(ws: seq<Window>) {
    forall k :: 0 <= k < |ws| ==> !ws[k].truncated
  }

  predicate TextFits(cs: seq<Container>, i: nat, maxBytes: int)
    requires i < |cs|
  {
    |ContainerText(cs[i])| <= maxBytes
  }

  /** The first `n` containers fit a window each. */
  predicate TextsFit(cs: seq<Container>, n: nat, maxBytes: int)
    requires n <= |cs|
  {
    forall i :: 0 <= i < n ==> TextFits(cs, i, maxBytes)
  }

  /** Whole windows give back the text of their containers; with a cut one something is missing. */
  ghost predicate Rebuilt(cs: seq<Container>, ws: seq<Window>, next: nat) {
    && ws != [] && 0 < next <= |cs|
    && (AllWhole(ws) ==> WindowsText(ws) == Joined(cs, 0, next - 1))
    && (!AllWhole(ws) ==> |WindowsText(ws)| < |Joined(cs, 0, next - 1)|)
  }

  /**
   A caller who steps to `containerEnd + 1` until the last container gets every container in
   exactly one window, and the joined windows are the canonical text if and only if none of
   them is truncated, which is when every container fits a window by itself.
   */
  method ReadThrough(a: Artifact, ghost cs: seq<Container>, count: int, maxBytes: int)
    returns (windows: seq<Window>, error: Option<ReadError>)
    requires StoresText(a, cs)
    ensures error.Some? <==> cs != [] && (count < 1 || count > 20 || maxBytes < 0)
    ensures error.Some? ==> windows == [] && error.value == if 1 <= count <= 20 then InvalidRange else InvalidCount
    ensures error.None? ==>
      && Successive(windows, |cs|) && (windows == [] <==> cs == [])
      && (forall w :: w in windows ==> Promised(a, cs, count, maxBytes, w))
      && (AllWhole(windows) <==> TextsFit(cs, |cs|, maxBytes))
      && (cs != [] ==> (WindowsText(windows) == Canonical(cs) <==> TextsFit(cs, |cs|, maxBytes)))
  {
    windows := [];
    var number := 0;
    if |a.containers| == 0 {
      return windows, None;
    }
    while number < |a.containers|
      invariant 0 <= number <= |cs| && (windows == [] <==> number == 0)
      invariant number > 0 ==> ReadSoFar(a, cs, windows, number, count, maxBytes)
    {
      var r := NextWindow(a, cs, number, count, maxBytes);
      if r.Err? {
        return [], Some(r.error);
      }
      WindowAdds(a, cs, windows, r.value, count, maxBytes);
      windows, number := windows + [r.value], r.value.containerEnd + 1;
    }
    AllRead(a, cs, windows, count, maxBytes);
    error := None;
  }

  /** The windows cover the containers before `next`, which is past the first. */
  ghost predicate ReadSoFar(a: Artifact, cs: seq<Container>, ws: seq<Window>, next: nat, count: int, maxBytes: int)
    requires |a.containers| == |cs|
  {
    && 1 <= count <= 20 && maxBytes >= 0 && Successive(ws, next) && Rebuilt(cs, ws, next)
    && (forall w :: w in ws ==> Promised(a, cs, count, maxBytes, w))
    && (AllWhole(ws) <==> TextsFit(cs, next, maxBytes))
  }

  lemma {:induction false} AllRead(a: Artifact, cs: seq<Container>, ws: seq<Window>, count: int, maxBytes: int)
    requires StoresText(a, cs) && cs != [] && ReadSoFar(a, cs, ws, |cs|, count, maxBytes)
    ensures WindowsText(ws) == Canonical(cs) <==> TextsFit(cs, |cs|, maxBytes)
  {
    WholeIsJoined(cs);
  }

  /** One step, with the error that no later step can meet for the first time. */
  method NextWindow(a: Artifact, ghost cs: seq<Container>, number: nat, count: int, maxBytes: int)
    returns (r: Result<Window, ReadError>)
    requires StoresText(a, cs) && number < |cs|
    ensures r.Err? <==> count < 1 || count > 20 || maxBytes < 0
    ensures r.Err? ==> r.error == if 1 <= count <= 20 then InvalidRange else InvalidCount
    ensures r.Ok? ==> r.value.containerStart == number && Promised(a, cs, count, maxBytes, r.value)
  {
    r := ReadContainers(a, cs, number, count, maxBytes);
    match r
    case Err(InvalidNumber) =>
    case Err(InvalidCount) =>
    case Err(UnknownContainer) =>
    case Err(InvalidRange) =>
    case Ok(_) =>
  }

  lemma {:induction false} WindowAdds(a: Artifact, cs: seq<Container>, ws: seq<Window>, w: Window, count: int,
      maxBytes: int)
    requires StoresText(a, cs) && 1 <= count <= 20 && maxBytes >= 0 && Promised(a, cs, count, maxBytes, w)
    requires if ws == [] then w.containerStart == 0 else ReadSoFar(a, cs, ws, w.containerStart, count, maxBytes)
    ensures w.containerEnd < |cs| && ReadSoFar(a, cs, ws + [w], w.containerEnd + 1, count, maxBytes)
  {
    WindowIsPart(a, cs, w, count, maxBytes);
    WindowFits(a, cs, w, count, maxBytes);
    SuccessiveMore(ws, w);
    PromisedMore(a, cs, ws, w, count, maxBytes);
    WholeMore(ws, w);
    FitMore(cs, w.containerStart, w.containerEnd, maxBytes, w.truncated);
    RebuildsMore(cs, ws, w);
  }

  lemma {:induction false} SuccessiveMore(ws: seq<Window>, w: Window)
    requires w.containerStart <= w.containerEnd && Successive(ws, w.containerStart)
    ensures Successive(ws + [w], w.containerEnd + 1)
  {
    assert (ws + [w])[..|ws|] == ws;
  }

  lemma {:induction false} PromisedMore(a: Artifact, cs: seq<Container>, ws: seq<Window>, w: Window, count: int,
      maxBytes: int)
    requires |a.containers| == |cs| && count > 0 && Promised(a, cs, count, maxBytes, w)
    requires forall v :: v in ws ==> Promised(a, cs, count, maxBytes, v)
    ensures forall v :: v in ws + [w] ==> Promised(a, cs, count, maxBytes, v)
  {
  }

  lemma {:induction false} FitMore(cs: seq<Container>, lo: nat, hi: nat, maxBytes: int, cut: bool)
    requires lo <= hi < |cs|
    requires !cut ==> forall i :: lo <= i <= hi ==> TextFits(cs, i, maxBytes)
    requires cut ==> !TextFits(cs, lo, maxBytes)
    ensures TextsFit(cs, hi + 1, maxBytes) <==> TextsFit(cs, lo, maxBytes) && !cut
  {
  }

  lemma {:induction false} RebuildsMore(cs: seq<Container>, ws: seq<Window>, w: Window)
    requires w.containerStart <= w.containerEnd < |cs|
    requires if ws == [] then w.containerStart == 0 else Rebuilt(cs, ws, w.containerStart)
    requires !w.truncated ==> Encode(w.text) == Joined(cs, w.containerStart, w.containerEnd)
    requires w.truncated ==> |Encode(w.text)| < |Joined(cs, w.containerStart, w.containerEnd)|
    ensures Rebuilt(cs, ws + [w], w.containerEnd + 1)
  {
    WholeMore(ws, w);
    assert (ws + [w])[..|ws|] == ws;
    if ws != [] {
      JoinedSplits(cs, 0, w.containerStart - 1, w.containerEnd);
    }
  }

  lemma {:induction false} WholeMore(ws: seq<Window>, w: Window)
    ensures AllWhole(ws + [w]) <==> AllWhole(ws) && !w.truncated
  {
    if AllWhole(ws + [w]) {
      assert (ws + [w])[|ws|] == w;
      forall k | 0 <= k < |ws| ensures !ws[k].truncated {
        assert (ws + [w])[k] == ws[k];
      }
    }
  }

  /** A window is the join of its containers, or a strictly shorter text when it is cut. */
  lemma {:induction false} WindowIsPart(a: Artifact, cs: seq<Container>, w: Window, count: int, maxBytes: int)
    requires StoresText(a, cs) && count > 0 && Promised(a, cs, count, maxBytes, w)
    ensures w.containerStart <= w.containerEnd < |cs|
    ensures !w.truncated ==> Encode(w.text) == Joined(cs, w.containerStart, w.containerEnd)
    ensures w.truncated ==> |Encode(w.text)| < |Joined(cs, w.containerStart, w.containerEnd)|
  {
    if w.truncated {
      ContainerRangesSlice(cs, w.containerStart);
    }
  }

  /** A window is whole exactly when its containers fit one by one. */
  lemma {:induction false} WindowFits(a: Artifact, cs: seq<Container>, w: Window, count: int, maxBytes: int)
    requires StoresText(a, cs) && count > 0 && Promised(a, cs, count, maxBytes, w)
    ensures w.containerStart <= w.containerEnd < |cs|
    ensures !w.truncated ==> forall i :: w.containerStart <= i <= w.containerEnd ==> TextFits(cs, i, maxBytes)
    ensures w.truncated ==> !TextFits(cs, w.containerStart, maxBytes)
  {
    RowFitsText(a, cs, w.containerStart, maxBytes);
    if !w.truncated {
      RunFitsEach(a.containers, w.containerStart, w.containerEnd, maxBytes);
      forall i | w.containerStart <= i <= w.containerEnd ensures TextFits(cs, i, maxBytes) {
        RowFitsText(a, cs, i, maxBytes);
      }
    }
  }

  lemma {:induction false} RowFitsText(a: Artifact, cs: seq<Container>, i: nat, maxBytes: int)
    requires StoresText(a, cs) && i < |cs|
    ensures Fits(a.containers, i, i, maxBytes) <==> TextFits(cs, i, maxBytes)
  {
    ContainerRangesSlice(cs, i);
  }

  lemma {:induction false} JoinedSplits(cs: seq<Container>, lo: nat, mid: nat, hi: nat)
    requires lo <= mid < hi < |cs|
    ensures Joined(cs, lo, hi) == Joined(cs, lo, mid) + CONTAINER_SEPARATOR + Joined(cs, mid + 1, hi)
  {
    if mid + 1 < hi {
      JoinedSplits(cs, lo, mid, hi - 1);
      Reassociate(Joined(cs, lo, mid), CONTAINER_SEPARATOR, Joined(cs, mid + 1, hi - 1), ContainerText(cs[hi]));
    }
  }

  lemma {:induction false} Reassociate(a: bytes, sep: bytes, b: bytes, c: bytes)
    ensures a + sep + b + sep + c == a + sep + (b + sep + c)
  {
  }

  lemma {:induction false} WholeIsJoined(cs: seq<Container>)
    requires cs != []
    ensures Joined(cs, 0, |cs| - 1) == Canonical(cs)
  {
    WindowSlice(cs, 0, |cs| - 1);
    ContainerRangesSlice(cs, 0);
    ContainerRangesSlice(cs, |cs| - 1);
  }

  lemma {:induction false} RunFitsEach(rows: seq<ContainerRow>, lo: nat, hi: nat, maxBytes: int)
    requires Ordered(rows, |rows|) && lo <= hi < |rows| && Fits(rows, lo, hi, maxBytes)
    ensures forall i | lo <= i <= hi :: Fits(rows, i, i, maxBytes)
  {
    OrderedPairs(rows, |rows|);
  }

  /** Writing a document and paging through it: the same text comes back when every container fits a window. */
  method WriteThenRead(c: Config, cs: seq<Container>, outline: seq<OutlineEntry>, pdf: bool, count: int, maxBytes: int)
    returns (r: Result<seq<Window>, WriteError>, error: Option<ReadError>)
    requires Accepted(c) && Terminates(c, Canonical(cs)) && Numbered(cs)
    ensures r.Ok? <==> DistinctRegionIds(cs)
    ensures r.Ok? && 1 <= count <= 20 && maxBytes >= 0 ==>
      && error.None? && Successive(r.value, |cs|)
      && (r.value == [] <==> cs == [])
      && (cs != [] ==> (WindowsText(r.value) == Canonical(cs) <==> TextsFit(cs, |cs|, maxBytes)))
  {
    var written;
    ghost var origin;
    written, origin := Write(c, cs, outline, pdf);
    if written.Err? {
      return Err(written.error), None;
    }
    var (text, connection) := written.value;
    WrittenIsReadable(cs, connection, text, origin);
    var windows;
    windows, error := ReadThrough(Artifact(text, connection.containers, connection.regions), cs, count, maxBytes);
    r := Ok(windows);
  }
}

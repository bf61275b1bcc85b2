/** The part of the writer that flattens containers into text and rows. */
module ArtifactWriter {
  import opened Basics
  import opened Utf8
  import opened ArtifactModel

  datatype WriteError = DuplicateRegion

  /** The tables of the database connection, each by its primary key. */
  class Connection {
    var blocks: map<(nat, nat), Range>
    var containers: seq<ContainerRow>
    var regions: map<string, RegionRow>
    var outline: seq<OutlineRow>
    var chunks: seq<ChunkRow>
    var chunkFts: seq<FtsRow>
    var documentText: Option<bytes>
    var metadata: Option<Metadata>

    constructor ()
      ensures blocks == map[] && containers == [] && regions == map[] && outline == []
      ensures chunks == [] && chunkFts == [] && documentText == None && metadata == None
    {
      blocks, containers, regions, outline := map[], [], map[], [];
      chunks, chunkFts, documentText, metadata := [], [], None, None;
    }
  }

  /** Row `p` has been stored once `i` containers and `j` rows of the next are done. */
  predicate Before(p: (nat, nat), i: nat, j: nat) {
    p.0 < i || (p.0 == i && p.1 < j)
  }

  /** The blocks table holds exactly the ranges of the blocks before block `j` of container `i`. */
  ghost predicate BlocksStored(cs: seq<Container>, blocks: map<(nat, nat), Range>, i: nat, j: nat) {
    && (forall p: (nat, nat) ::
      p in blocks <==> p.0 < |cs| && p.1 < |cs[p.0].blocks| && Before(p, i, j))
    && forall p: (nat, nat) :: p in blocks ==> blocks[p] == BlockRange(cs, p.0, p.1)
  }

  /**
   The regions table holds exactly the regions before region `k` of container `i`, each
   with its extent; `origin` tells which region of the document a row came from.
   */
  ghost predicate RegionsStored(
    cs: seq<Container>, regions: map<string, RegionRow>, origin: map<string, (nat, nat)>, i: nat, k: nat)
  {
    && origin.Keys == regions.Keys
    && (forall id :: id in regions ==>
      var p := origin[id];
      && p.0 < |cs| && p.1 < |cs[p.0].regions| && Before(p, i, k) && cs[p.0].regions[p.1].id == id
      && regions[id].container == cs[p.0].number && IsSpan(cs, p.0, p.1, regions[id].span))
    && forall p: (nat, nat) :: p.0 < |cs| && p.1 < |cs[p.0].regions| && Before(p, i, k) ==>
      cs[p.0].regions[p.1].id in origin && origin[cs[p.0].regions[p.1].id] == p
  }

  /** The list of one container's ranges, as far as it has grown, is what the table holds for it. */
  ghost predicate SameBlocks(
    cs: seq<Container>, blocks: map<(nat, nat), Range>, containerBlocks: seq<Range>, i: nat)
  {
    forall j :: 0 <= j < |containerBlocks| ==> (i, j) in blocks && blocks[(i, j)] == containerBlocks[j]
  }

  /** One block: the newline rule, its text, its row. */
  method WriteBlock(connection: Connection, cs: seq<Container>, i: nat, j: nat, before: bytes)
    returns (canonical: bytes, range: Range)
    requires Numbered(cs) && i < |cs| && j < |cs[i].blocks|
    requires before == Base(cs, i) + BlocksText(cs[i].blocks, j)
    modifies connection`blocks
    ensures canonical == Base(cs, i) + BlocksText(cs[i].blocks, j + 1)
    ensures range == BlockRange(cs, i, j)
    ensures connection.blocks == old(connection.blocks)[(i, j) := range]
  {
    canonical := before;
    if j != 0 && canonical != [] && canonical[|canonical| - 1] != NEWLINE {
      canonical := canonical + [NEWLINE];
    }
    var start := |canonical|;
    BlockStep(cs, i, j, before, canonical);
    canonical := canonical + Encode(cs[i].blocks[j].text);
    range := Range(start, |canonical|);
    connection.blocks := connection.blocks[(cs[i].number, j) := range];
  }

  /** The inner loop over one container's blocks: appends their text and stores their rows. */
  method WriteBlocks(connection: Connection, cs: seq<Container>, i: nat, base: bytes)
    returns (canonical: bytes, containerBlocks: seq<Range>)
    requires Numbered(cs) && i < |cs| && base == Base(cs, i)
    requires BlocksStored(cs, connection.blocks, i, 0)
    modifies connection`blocks
    ensures canonical == TextUpTo(cs, i + 1)
    ensures |containerBlocks| == |cs[i].blocks|
    ensures forall j :: 0 <= j < |containerBlocks| ==> containerBlocks[j] == BlockRange(cs, i, j)
    ensures BlocksStored(cs, connection.blocks, i + 1, 0)
  {
    canonical := base;
    containerBlocks := [];
    var j := 0;
    while j < |cs[i].blocks|
      invariant j == |containerBlocks| <= |cs[i].blocks|
      invariant canonical == Base(cs, i) + BlocksText(cs[i].blocks, j)
      invariant BlocksStored(cs, connection.blocks, i, j) && SameBlocks(cs, connection.blocks, containerBlocks, i)
    {
      BlockStored(cs, connection.blocks, containerBlocks, i, j);
      var range;
      canonical, range := WriteBlock(connection, cs, i, j, canonical);
      containerBlocks := containerBlocks + [range];
      j := j + 1;
    }
    ContainerStored(cs, connection.blocks, containerBlocks, i);
  }

  /** One round of the loop over blocks, with `glued` the text after the newline rule. */
  lemma {:induction false} BlockStep(cs: seq<Container>, i: nat, j: nat, before: bytes, glued: bytes)
    requires i < |cs| && j < |cs[i].blocks|
    requires before == Base(cs, i) + BlocksText(cs[i].blocks, j)
    requires glued ==
      if j != 0 && before != [] && before[|before| - 1] != NEWLINE then before + [NEWLINE] else before
    ensures
      var after := glued + Encode(cs[i].blocks[j].text);
      && after == Base(cs, i) + BlocksText(cs[i].blocks, j + 1)
      && Range(|glued|, |after|) == BlockRange(cs, i, j)
  {
    OffsetsAreLengths(cs, i);
    BaseEndsInNewline(cs, i);
    GlobalNewlineRuleIsLocal(Base(cs, i), cs[i].blocks, j);
    Associate(Base(cs, i), Glued(cs[i].blocks, j), Encode(cs[i].blocks[j].text));
  }

  lemma {:induction false} BlockStored(
    cs: seq<Container>, blocks: map<(nat, nat), Range>, containerBlocks: seq<Range>, i: nat, j: nat)
    requires i < |cs| && j < |cs[i].blocks| && j == |containerBlocks|
    requires BlocksStored(cs, blocks, i, j) && SameBlocks(cs, blocks, containerBlocks, i)
    ensures
      var range := BlockRange(cs, i, j);
      && BlocksStored(cs, blocks[(i, j) := range], i, j + 1)
      && SameBlocks(cs, blocks[(i, j) := range], containerBlocks + [range], i)
  {
  }

  lemma {:induction false} ContainerStored(
    cs: seq<Container>, blocks: map<(nat, nat), Range>, containerBlocks: seq<Range>, i: nat)
    requires i < |cs| && |containerBlocks| == |cs[i].blocks|
    requires BlocksStored(cs, blocks, i, |cs[i].blocks|) && SameBlocks(cs, blocks, containerBlocks, i)
    ensures BlocksStored(cs, blocks, i + 1, 0)
    ensures forall j :: 0 <= j < |containerBlocks| ==> containerBlocks[j] == BlockRange(cs, i, j)
  {
  }

  lemma {:induction false} BaseEndsInNewline(cs: seq<Container>, i: nat)
    requires i <= |cs|
    ensures Base(cs, i) == [] || Base(cs, i)[|Base(cs, i)| - 1] == NEWLINE
  {
  }

  /**
   The rule reads the last byte of the whole text, yet decides as if only this
   container's text existed: what precedes a container is empty or ends in a newline.
   */
  lemma {:induction false} GlobalNewlineRuleIsLocal(base: bytes, blocks: seq<TextBlock>, j: nat)
    requires j <= |blocks|
    ensures (base == [] || base[|base| - 1] == NEWLINE) ==>
      var whole := base + BlocksText(blocks, j);
      base + Glued(blocks, j)
        == if j != 0 && whole != [] && whole[|whole| - 1] != NEWLINE then whole + [NEWLINE] else whole
  {
    var local := BlocksText(blocks, j);
    if local != [] {
      assert (base + local)[|base + local| - 1] == local[|local| - 1];
      assert base + local + [NEWLINE] == base + (local + [NEWLINE]);
    } else {
      assert base + local == base;
    }
  }

  /** The extent of region `k`: the comprehension over the blocks it meets and its `min` and `max`. */
  method RegionExtent(cs: seq<Container>, i: nat, k: nat, containerBlocks: seq<Range>)
    returns (span: Option<Range>)
    requires i < |cs| && k < |cs[i].regions|
    requires |containerBlocks| == |cs[i].blocks|
    requires forall j :: 0 <= j < |containerBlocks| ==> containerBlocks[j] == BlockRange(cs, i, j)
    ensures IsSpan(cs, i, k, span)
  {
    span := None;
    ghost var first, last := 0, 0;
    var j := 0;
    while j < |containerBlocks|
      invariant j <= |containerBlocks|
      invariant span.None? ==> forall m :: 0 <= m < j ==> !Meets(cs, i, k, m)
      invariant span.Some? ==> first < j && Meets(cs, i, k, first) && containerBlocks[first].start == span.value.start
      invariant span.Some? ==> last < j && Meets(cs, i, k, last) && containerBlocks[last].end == span.value.end
      invariant span.Some? ==> forall m :: 0 <= m < j && Meets(cs, i, k, m) ==>
        span.value.start <= containerBlocks[m].start && containerBlocks[m].end <= span.value.end
    {
      if cs[i].blocks[j].bounds.Intersects(cs[i].regions[k].bounds) {
        var r := containerBlocks[j];
        if span.None? || r.start < span.value.start {
          first := j;
        }
        if span.None? || r.end > span.value.end {
          last := j;
        }
        span := Some(
          if span.None? then r
          else Range(Min(span.value.start, r.start), Max(span.value.end, r.end)));
      }
      j := j + 1;
    }
  }

  /** The inner loop over one container's regions: stores each with its extent. */
  method WriteRegions(connection: Connection, cs: seq<Container>, i: nat, containerBlocks: seq<Range>,
    ghost before: map<string, (nat, nat)>) returns (r: Result<(), WriteError>, ghost origin: map<string, (nat, nat)>)
    requires Numbered(cs) && i < |cs|
    requires |containerBlocks| == |cs[i].blocks|
    requires forall j :: 0 <= j < |containerBlocks| ==> containerBlocks[j] == BlockRange(cs, i, j)
    requires RegionsStored(cs, connection.regions, before, i, 0)
    modifies connection`regions
    ensures r.Ok? ==> RegionsStored(cs, connection.regions, origin, i + 1, 0)
    ensures r.Err? ==> !DistinctRegionIds(cs)
  {
    origin := before;
    var k := 0;
    while k < |cs[i].regions|
      invariant k <= |cs[i].regions|
      invariant RegionsStored(cs, connection.regions, origin, i, k)
    {
      var id := cs[i].regions[k].id;
      var span := RegionExtent(cs, i, k, containerBlocks);
      if id in connection.regions {
        IdStored(cs, connection.regions, origin, i, k);
        return Err(DuplicateRegion), origin;
      }
      var row := RegionRow(cs[i].number, span);
      RegionStored(cs, connection.regions, origin, i, k, row);
      connection.regions := connection.regions[id := row];
      origin := origin[id := (i, k)];
      k := k + 1;
    }
    RegionsOfContainerStored(cs, connection.regions, origin, i);
    r := Ok(());
  }

  lemma {:induction false} RegionStored(
    cs: seq<Container>, regions: map<string, RegionRow>, origin: map<string, (nat, nat)>, i: nat, k: nat,
    row: RegionRow)
    requires i < |cs| && k < |cs[i].regions|
    requires RegionsStored(cs, regions, origin, i, k)
    requires cs[i].regions[k].id !in regions
    requires row.container == cs[i].number && IsSpan(cs, i, k, row.span)
    ensures
      var id := cs[i].regions[k].id;
      RegionsStored(cs, regions[id := row], origin[id := (i, k)], i, k + 1)
  {
    OriginStored(cs, origin, i, k);
  }

  /** Every region up to region `k` of container `i` is the origin of the row with its id. */
  lemma {:induction false} OriginStored(cs: seq<Container>, origin: map<string, (nat, nat)>, i: nat, k: nat)
    requires i < |cs| && k < |cs[i].regions| && cs[i].regions[k].id !in origin
    requires forall p: (nat, nat) :: p.0 < |cs| && p.1 < |cs[p.0].regions| && Before(p, i, k) ==>
      cs[p.0].regions[p.1].id in origin && origin[cs[p.0].regions[p.1].id] == p
    ensures
      var more := origin[cs[i].regions[k].id := (i, k)];
      forall p: (nat, nat) :: p.0 < |cs| && p.1 < |cs[p.0].regions| && Before(p, i, k + 1) ==>
        cs[p.0].regions[p.1].id in more && more[cs[p.0].regions[p.1].id] == p
  {
  }

  lemma {:induction false} RegionsOfContainerStored(
    cs: seq<Container>, regions: map<string, RegionRow>, origin: map<string, (nat, nat)>, i: nat)
    requires i < |cs| && RegionsStored(cs, regions, origin, i, |cs[i].regions|)
    ensures RegionsStored(cs, regions, origin, i + 1, 0)
  {
  }

  lemma {:induction false} IdStored(
    cs: seq<Container>, regions: map<string, RegionRow>, origin: map<string, (nat, nat)>, i: nat, k: nat)
    requires i < |cs| && k < |cs[i].regions|
    requires RegionsStored(cs, regions, origin, i, k) && cs[i].regions[k].id in regions
    ensures !DistinctRegionIds(cs)
  {
    var p := origin[cs[i].regions[k].id];
    assert cs[p.0].regions[p.1].id == cs[i].regions[k].id && p != (i, k);
  }

  /** What is stored after `i` containers. */
  ghost predicate ContentStored(cs: seq<Container>, blocks: map<(nat, nat), Range>, containers: seq<ContainerRow>,
      regions: map<string, RegionRow>, origin: map<string, (nat, nat)>, i: nat)
  {
    && i == |containers| <= |cs|
    && (forall c | 0 <= c < i :: containers[c] == ContainerRowOf(cs, c))
    && BlocksStored(cs, blocks, i, 0) && RegionsStored(cs, regions, origin, i, 0)
  }

  /** One turn of the loop over the containers. */
  method WriteContainer(connection: Connection, cs: seq<Container>, i: nat, before: bytes,
      ghost origins: map<string, (nat, nat)>)
    returns (canonical: bytes, range: ContainerRow, r: Result<(), WriteError>, ghost origin: map<string, (nat, nat)>)
    requires Numbered(cs) && i < |cs| && before == TextUpTo(cs, i)
    requires ContentStored(cs, connection.blocks, connection.containers, connection.regions, origins, i)
    modifies connection`blocks, connection`containers, connection`regions
    ensures canonical == TextUpTo(cs, i + 1) && connection.containers == old(connection.containers) + [range]
    ensures r.Err? ==> !DistinctRegionIds(cs)
    ensures r.Ok? ==>
      ContentStored(cs, connection.blocks, connection.containers, connection.regions, origin, i + 1)
  {
    canonical := if i != 0 then before + CONTAINER_SEPARATOR else before;
    var containerStart := |canonical|;
    var containerBlocks;
    canonical, containerBlocks := WriteBlocks(connection, cs, i, canonical);
    range := ContainerRow(cs[i].number, containerStart, |canonical|);
    RangeIsRow(cs, i, range);
    connection.containers := connection.containers + [range];
    r, origin := WriteRegions(connection, cs, i, containerBlocks, origins);
    if r.Ok? {
      RangesStored(cs, connection.containers[..i], range);
    }
  }

  lemma {:induction false} RangesStored(cs: seq<Container>, containers: seq<ContainerRow>, range: ContainerRow)
    requires |containers| < |cs| && range == ContainerRowOf(cs, |containers|)
    requires forall c | 0 <= c < |containers| :: containers[c] == ContainerRowOf(cs, c)
    ensures forall c | 0 <= c <= |containers| :: (containers + [range])[c] == ContainerRowOf(cs, c)
  {
  }

  lemma {:induction false} RangeIsRow(cs: seq<Container>, i: nat, range: ContainerRow)
    requires i < |cs| && cs[i].number == i && range == ContainerRow(i, |Base(cs, i)|, |TextUpTo(cs, i + 1)|)
    ensures range == ContainerRowOf(cs, i)
  {
    OffsetsAreLengths(cs, i);
  }

  /** The outline is stored in its own order. */
  ghost predicate OutlineStored(entries: seq<OutlineEntry>, rows: seq<OutlineRow>) {
    |rows| == |entries| && forall k :: 0 <= k < |rows| ==> rows[k] == OutlineRow(k, entries[k])
  }

  method WriteOutline(connection: Connection, outline: seq<OutlineEntry>)
    requires connection.outline == []
    modifies connection`outline
    ensures OutlineStored(outline, connection.outline)
  {
    var ordinal := 0;
    while ordinal < |outline|
      invariant 0 <= ordinal <= |outline| && OutlineStored(outline[..ordinal], connection.outline)
    {
      connection.outline := connection.outline + [OutlineRow(ordinal, outline[ordinal])];
      ordinal := ordinal + 1;
    }
    assert outline[..ordinal] == outline;
  }

  /**
   Flattens the containers: the text becomes the separator-join of the container
   texts, and the rows carry the offsets that slice it again. Storing fails exactly
   when a region id is used twice.
   */
  method WriteContent(connection: Connection, cs: seq<Container>, outline: seq<OutlineEntry>)
    returns (r: Result<(bytes, seq<ContainerRow>), WriteError>, ghost origin: map<string, (nat, nat)>)
    requires Numbered(cs)
    requires connection.blocks == map[] && connection.containers == [] && connection.regions == map[]
    requires connection.outline == []
    modifies connection`blocks, connection`containers, connection`regions, connection`outline
    ensures r.Ok? <==> DistinctRegionIds(cs)
    ensures r.Ok? ==>
      && r.value == (Canonical(cs), connection.containers)
      && ContentStored(cs, connection.blocks, connection.containers, connection.regions, origin, |cs|)
      && OutlineStored(outline, connection.outline)
  {
    var canonical: bytes := [];
    var containerRanges: seq<ContainerRow> := [];
    origin := map[];
    var i := 0;
    while i < |cs|
      invariant i <= |cs| && connection.outline == [] && canonical == TextUpTo(cs, i)
      invariant containerRanges == connection.containers
      invariant ContentStored(cs, connection.blocks, connection.containers, connection.regions, origin, i)
    {
      var range, stored;
      canonical, range, stored, origin := WriteContainer(connection, cs, i, canonical, origin);
      if stored.Err? {
        return Err(stored.error), origin;
      }
      containerRanges := containerRanges + [range];
      i := i + 1;
    }
    StoredMeansDistinct(cs, connection.regions, origin);
    WriteOutline(connection, outline);
    r := Ok((canonical, containerRanges));
  }

  lemma {:induction false} StoredMeansDistinct(
    cs: seq<Container>, regions: map<string, RegionRow>, origin: map<string, (nat, nat)>)
    requires RegionsStored(cs, regions, origin, |cs|, 0)
    ensures DistinctRegionIds(cs)
  {
    forall i, k, i', k' |
      0 <= i < |cs| && 0 <= k < |cs[i].regions| && 0 <= i' < |cs| && 0 <= k' < |cs[i'].regions|
      && cs[i].regions[k].id == cs[i'].regions[k'].id
      ensures i == i' && k == k'
    {
      var p: (nat, nat), q: (nat, nat) := (i, k), (i', k');
      assert Before(p, |cs|, 0) && Before(q, |cs|, 0);
      assert origin[cs[p.0].regions[p.1].id] == p && origin[cs[q.0].regions[q.1].id] == q;
    }
  }
}

/** The document handed to the artifact writer and the rows the writer stores. */
module ArtifactModel {
  import opened Basics
  import opened Utf8

  datatype Bounds = Bounds(x0: real, y0: real, x1: real, y1: real) {
    predicate Intersects(other: Bounds) {
      x0 < other.x1 && x1 > other.x0 && y0 < other.y1 && y1 > other.y0
    }

    /** What the constructor checks: the corners form a rectangle in the first quadrant. */
    predicate Valid() {
      0.0 <= x0 <= x1 && 0.0 <= y0 <= y1
    }

    /** The point lies inside, off the edges; a box of no width or height holds the points on its line. */
    predicate Holds(x: real, y: real) {
      Within(x0, x1, x) && Within(y0, y1, y)
    }
  }

  predicate Within(low: real, high: real, at: real) {
    low < at < high || low == at == high
  }

  /** Some number lies within both segments, when at least one of them is no single point. */
  lemma {:induction false} SegmentsMeet(a0: real, a1: real, b0: real, b1: real) returns (at: real)
    requires a0 <= a1 && b0 <= b1 && (a0 < a1 || b0 < b1)
    ensures a0 < b1 && a1 > b0 ==> Within(a0, a1, at) && Within(b0, b1, at)
  {
    var low, high := if a0 >= b0 then a0 else b0, if a1 <= b1 then a1 else b1;
    at := (low + high) / 2.0;
  }

  /**
   Two boxes meet exactly when some point lies inside both of them; two boxes of no width, or
   of no height, never do.
   */
  lemma {:induction false} IntersectsIff(a: Bounds, b: Bounds)
    requires a.Valid() && b.Valid()
    ensures a.Intersects(b) <==>
      && (a.x0 < a.x1 || b.x0 < b.x1) && (a.y0 < a.y1 || b.y0 < b.y1)
      && exists x, y :: a.Holds(x, y) && b.Holds(x, y)
  {
    if (a.x0 < a.x1 || b.x0 < b.x1) && (a.y0 < a.y1 || b.y0 < b.y1) {
      var x := SegmentsMeet(a.x0, a.x1, b.x0, b.x1);
      var y := SegmentsMeet(a.y0, a.y1, b.y0, b.y1);
      assert a.Intersects(b) ==> a.Holds(x, y) && b.Holds(x, y);
    }
  }

  /** Boxes beside or on top of each other that share no more than an edge do not meet. */
  lemma {:induction false} EdgesDoNotMeet(a: Bounds, b: Bounds)
    requires a.Valid() && b.Valid()
    requires a.x1 <= b.x0 || b.x1 <= a.x0 || a.y1 <= b.y0 || b.y1 <= a.y0
    ensures !a.Intersects(b) && !b.Intersects(a)
  {
    IntersectsIff(a, b);
    IntersectsIff(b, a);
  }

  datatype TextBlock = TextBlock(text: string, bounds: Bounds)

  datatype VisualRegion = VisualRegion(id: string, bounds: Bounds)

  datatype Container = Container(number: nat, blocks: seq<TextBlock>, regions: seq<VisualRegion>)

  /** What `DocumentContent` checks of its containers: zero-based and contiguous. */
  predicate Numbered(cs: seq<Container>) {
    forall i :: 0 <= i < |cs| ==> cs[i].number == i
  }

  /** `regions.id` is a primary key, so a document may use each id once. */
  predicate DistinctRegionIds(cs: seq<Container>) {
    forall i, k, i', k' |
      0 <= i < |cs| && 0 <= k < |cs[i].regions| && 0 <= i' < |cs| && 0 <= k' < |cs[i'].regions|
      && cs[i].regions[k].id == cs[i'].regions[k'].id ::
      i == i' && k == k'
  }

  /** Every block holds some text. */
  predicate AllBlocksHaveText(cs: seq<Container>) {
    forall i, j | 0 <= i < |cs| && 0 <= j < |cs[i].blocks| :: cs[i].blocks[j].text != []
  }

  /** A half-open byte range of the canonical text. */
  datatype Range = Range(start: nat, end: nat)

  datatype ContainerRow = ContainerRow(number: nat, start: nat, end: nat)

  /** `span` is `None` where the row's two offsets are NULL. */
  datatype RegionRow = RegionRow(container: nat, span: Option<Range>)

  datatype ChunkRow =
    ChunkRow(id: nat, ordinal: nat, start: nat, end: nat, containerStart: nat, containerEnd: nat)

  datatype FtsRow = FtsRow(rowid: nat, text: string)

  datatype OutlineEntry = OutlineEntry(level: int, title: string, container: nat)

  datatype OutlineRow = OutlineRow(ordinal: nat, entry: OutlineEntry)

  /** The rows of `metadata` that hold numbers; `pages` is the row of a PDF document only. */
  datatype Metadata = Metadata(textBytes: nat, containers: nat, outline: nat, pages: Option<nat>)

  const NEWLINE: byte := 10
  const SPACE: byte := 32
  const CONTAINER_SEPARATOR: bytes := [10, 12, 10]

  // ----- The canonical text, container by container -----

  /** The text of the first `n` blocks of a container. */
  function BlocksText(blocks: seq<TextBlock>, n: nat): bytes
    requires n <= |blocks|
    decreases n, 0
  {
    if n == 0 then [] else Glued(blocks, n - 1) + Encode(blocks[n - 1].text)
  }

  /** What precedes block `n` of a container: blocks are kept on separate lines. */
  function Glued(blocks: seq<TextBlock>, n: nat): bytes
    requires n <= |blocks|
    decreases n, 1
  {
    var before := BlocksText(blocks, n);
    if before != [] && before[|before| - 1] != NEWLINE then before + [NEWLINE] else before
  }

  /** The text of one container, from its own blocks alone. */
  function ContainerText(c: Container): bytes {
    BlocksText(c.blocks, |c.blocks|)
  }

  /** The texts of the first `n` containers, joined by the separator. */
  function TextUpTo(cs: seq<Container>, n: nat): bytes
    requires n <= |cs|
    decreases n, 0
  {
    if n == 0 then [] else Base(cs, n - 1) + ContainerText(cs[n - 1])
  }

  /** What precedes container `n`. */
  function Base(cs: seq<Container>, n: nat): bytes
    requires n <= |cs|
    decreases n, 1
  {
    if n == 0 then [] else TextUpTo(cs, n) + CONTAINER_SEPARATOR
  }

  function Canonical(cs: seq<Container>): bytes {
    TextUpTo(cs, |cs|)
  }

  /** Where container `i` begins and ends in the canonical text. */
  function StartOf(cs: seq<Container>, i: nat): nat
    requires i < |cs|
    decreases i, 0
  {
    if i == 0 then 0 else EndOf(cs, i - 1) + |CONTAINER_SEPARATOR|
  }

  function EndOf(cs: seq<Container>, i: nat): nat
    requires i < |cs|
    decreases i, 1
  {
    StartOf(cs, i) + |ContainerText(cs[i])|
  }

  lemma {:induction false} OffsetsAreLengths(cs: seq<Container>, i: nat)
    requires i < |cs|
    ensures |Base(cs, i)| == StartOf(cs, i) && |TextUpTo(cs, i + 1)| == EndOf(cs, i)
  {
    if i > 0 {
      OffsetsAreLengths(cs, i - 1);
    }
  }

  function ContainerRange(cs: seq<Container>, i: nat): Range
    requires i < |cs|
  {
    Range(StartOf(cs, i), EndOf(cs, i))
  }

  function ContainerRowOf(cs: seq<Container>, i: nat): ContainerRow
    requires i < |cs|
  {
    ContainerRow(i, ContainerRange(cs, i).start, ContainerRange(cs, i).end)
  }

  /** Where block `j` of container `i` lies in the canonical text. */
  function BlockRange(cs: seq<Container>, i: nat, j: nat): Range
    requires i < |cs| && j < |cs[i].blocks|
  {
    Range(StartOf(cs, i) + |Glued(cs[i].blocks, j)|, StartOf(cs, i) + |BlocksText(cs[i].blocks, j + 1)|)
  }

  // ----- Regions -----

  /** Block `j` of container `i` meets region `k`. */
  predicate Meets(cs: seq<Container>, i: nat, k: nat, j: nat)
    requires i < |cs| && k < |cs[i].regions| && j < |cs[i].blocks|
  {
    cs[i].blocks[j].bounds.Intersects(cs[i].regions[k].bounds)
  }

  /**
   The extent of a region: from the least start to the greatest end among the
   blocks that meet it, or nothing when none does.
   */
  ghost predicate IsSpan(cs: seq<Container>, i: nat, k: nat, span: Option<Range>)
    requires i < |cs| && k < |cs[i].regions|
  {
    match span
    case None => forall j :: 0 <= j < |cs[i].blocks| ==> !Meets(cs, i, k, j)
    case Some(r) =>
      && (exists j :: 0 <= j < |cs[i].blocks| && Meets(cs, i, k, j) && BlockRange(cs, i, j).start == r.start)
      && (exists j :: 0 <= j < |cs[i].blocks| && Meets(cs, i, k, j) && BlockRange(cs, i, j).end == r.end)
      && forall j :: 0 <= j < |cs[i].blocks| && Meets(cs, i, k, j) ==>
        r.start <= BlockRange(cs, i, j).start && BlockRange(cs, i, j).end <= r.end
  }

  // ----- What the offsets mean -----

  lemma {:induction false} TextPrefix(cs: seq<Container>, n: nat, m: nat)
    requires n <= m <= |cs|
    ensures TextUpTo(cs, n) <= TextUpTo(cs, m)
  {
    if n < m {
      TextPrefix(cs, n, m - 1);
      var before, text := TextUpTo(cs, m - 1), ContainerText(cs[m - 1]);
      PrefixAppend(TextUpTo(cs, n), before, CONTAINER_SEPARATOR);
      PrefixAppend(TextUpTo(cs, n), Base(cs, m - 1), text);
    }
  }

  lemma {:induction false} BasePrefix(cs: seq<Container>, n: nat)
    requires n < |cs|
    ensures Base(cs, n) <= Canonical(cs)
  {
    TextPrefix(cs, n + 1, |cs|);
    var base, text := Base(cs, n), ContainerText(cs[n]);
    assert base <= base + text == TextUpTo(cs, n + 1);
  }

  lemma {:induction false} TextAfterBase(cs: seq<Container>, i: nat)
    requires i < |cs|
    ensures |TextUpTo(cs, i + 1)| <= |Canonical(cs)|
    ensures Canonical(cs)[|Base(cs, i)|..|TextUpTo(cs, i + 1)|] == ContainerText(cs[i])
  {
    TextPrefix(cs, i + 1, |cs|);
    SliceAfter(Canonical(cs), Base(cs, i), ContainerText(cs[i]));
  }

  /**
   Every container range slices the canonical text to that container's own text; the
   first starts at 0 and the last ends the text.
   */
  lemma {:induction false} ContainerRangesSlice(cs: seq<Container>, i: nat)
    requires i < |cs|
    ensures
      var r := ContainerRange(cs, i);
      && r.start <= r.end <= |Canonical(cs)|
      && Canonical(cs)[r.start..r.end] == ContainerText(cs[i])
      && (i == 0 ==> r.start == 0)
      && (i + 1 == |cs| ==> r.end == |Canonical(cs)|)
  {
    OffsetsAreLengths(cs, i);
    TextAfterBase(cs, i);
  }

  /** Consecutive container ranges are disjoint, in order and exactly a separator apart. */
  lemma {:induction false} ContainerRangesApart(cs: seq<Container>, i: nat)
    requires i + 1 < |cs|
    ensures
      var r, next := ContainerRange(cs, i), ContainerRange(cs, i + 1);
      && next.start == r.end + |CONTAINER_SEPARATOR| <= |Canonical(cs)|
      && Canonical(cs)[r.end..next.start] == CONTAINER_SEPARATOR
  {
    OffsetsAreLengths(cs, i);
    BasePrefix(cs, i + 1);
    SliceAfter(Canonical(cs), TextUpTo(cs, i + 1), CONTAINER_SEPARATOR);
  }

  lemma {:induction false} BlocksTextPrefix(blocks: seq<TextBlock>, n: nat, m: nat)
    requires n <= m <= |blocks|
    ensures BlocksText(blocks, n) <= BlocksText(blocks, m)
  {
    if n < m {
      BlocksTextPrefix(blocks, n, m - 1);
      PrefixAppend(BlocksText(blocks, n), BlocksText(blocks, m - 1), [NEWLINE]);
      PrefixAppend(BlocksText(blocks, n), Glued(blocks, m - 1), Encode(blocks[m - 1].text));
    }
  }

  lemma {:induction false} BlockSlice(blocks: seq<TextBlock>, j: nat)
    requires j < |blocks|
    ensures
      var start, end := |Glued(blocks, j)|, |BlocksText(blocks, j + 1)|;
      && start <= end <= |BlocksText(blocks, |blocks|)|
      && BlocksText(blocks, |blocks|)[start..end] == Encode(blocks[j].text)
  {
    BlocksTextPrefix(blocks, j + 1, |blocks|);
    SliceAfter(BlocksText(blocks, |blocks|), Glued(blocks, j), Encode(blocks[j].text));
  }

  /** Every block range slices the canonical text to exactly that block's text, inside its container. */
  lemma {:induction false} BlockRangesSlice(cs: seq<Container>, i: nat, j: nat)
    requires i < |cs| && j < |cs[i].blocks|
    ensures
      var c, r := ContainerRange(cs, i), BlockRange(cs, i, j);
      && c.start <= r.start <= r.end <= c.end <= |Canonical(cs)|
      && Canonical(cs)[r.start..r.end] == Encode(cs[i].blocks[j].text)
  {
    BlockSlice(cs[i].blocks, j);
    ContainerRangesSlice(cs, i);
    SliceInside(Canonical(cs), StartOf(cs, i), ContainerText(cs[i]), |Glued(cs[i].blocks, j)|,
                |BlocksText(cs[i].blocks, j + 1)|);
  }

  lemma {:induction false} SliceInside(s: bytes, start: nat, part: bytes, a: nat, b: nat)
    requires a <= b <= |part| && start + |part| <= |s| && s[start..start + |part|] == part
    ensures s[start + a..start + b] == part[a..b]
  {
    NestedSlice(s, start, start + |part|, start + a, start + b);
  }

  /**
   Between `end` and `next` lies one newline, or nothing when the text before, which begins at
   `floor`, is empty or ends in a newline.
   */
  predicate IsGap(text: bytes, floor: nat, end: nat, next: nat) {
    && floor <= end <= next <= |text|
    && if end == floor || text[end - 1] == NEWLINE then next == end
       else next == end + 1 && text[end] == NEWLINE
  }

  lemma {:induction false} BlocksApart(blocks: seq<TextBlock>, j: nat)
    requires j + 1 < |blocks|
    ensures IsGap(BlocksText(blocks, |blocks|), 0, |BlocksText(blocks, j + 1)|, |Glued(blocks, j + 1)|)
  {
    var text, before, glued := BlocksText(blocks, |blocks|), BlocksText(blocks, j + 1), Glued(blocks, j + 1);
    BlocksTextPrefix(blocks, j + 2, |blocks|);
    assert glued <= glued + Encode(blocks[j + 1].text) == BlocksText(blocks, j + 2);
    GapOfPrefix(text, before, glued);
  }

  lemma {:induction false} GapOfPrefix(text: bytes, before: bytes, glued: bytes)
    requires glued <= text
    requires glued == if before != [] && before[|before| - 1] != NEWLINE then before + [NEWLINE] else before
    ensures IsGap(text, 0, |before|, |glued|)
  {
    assert before == text[..|before|];
  }

  lemma {:induction false} GapInside(whole: bytes, start: nat, part: bytes, end: nat, next: nat)
    requires start + |part| <= |whole| && whole[start..start + |part|] == part
    requires IsGap(part, 0, end, next)
    ensures IsGap(whole, start, start + end, start + next)
  {
    if end > 0 {
      assert whole[start..start + |part|][end - 1] == whole[start + end - 1];
    }
    if end < |part| {
      assert whole[start..start + |part|][end] == whole[start + end];
    }
  }

  lemma {:induction false} ContainerSlice(cs: seq<Container>, i: nat)
    requires i < |cs|
    ensures
      var start, part := StartOf(cs, i), ContainerText(cs[i]);
      start + |part| <= |Canonical(cs)| && Canonical(cs)[start..start + |part|] == part
  {
    ContainerRangesSlice(cs, i);
  }

  lemma {:induction false} ContainerGap(cs: seq<Container>, i: nat, end: nat, next: nat)
    requires i < |cs| && IsGap(ContainerText(cs[i]), 0, end, next)
    ensures IsGap(Canonical(cs), StartOf(cs, i), StartOf(cs, i) + end, StartOf(cs, i) + next)
  {
    ContainerSlice(cs, i);
    GapInside(Canonical(cs), StartOf(cs, i), ContainerText(cs[i]), end, next);
  }

  /** The blocks of a container are in order, with a newline between neighbours where the text needs one. */
  lemma {:induction false} BlockRangesApart(cs: seq<Container>, i: nat, j: nat)
    requires i < |cs| && j + 1 < |cs[i].blocks|
    ensures IsGap(Canonical(cs), ContainerRange(cs, i).start, BlockRange(cs, i, j).end, BlockRange(cs, i, j + 1).start)
  {
    BlocksApart(cs[i].blocks, j);
    ContainerGap(cs, i, |BlocksText(cs[i].blocks, j + 1)|, |Glued(cs[i].blocks, j + 1)|);
  }

  /** The first block begins its container and the last one ends it; a container without blocks is empty. */
  lemma {:induction false} BlocksFill(cs: seq<Container>, i: nat)
    requires i < |cs|
    ensures
      var c, blocks := ContainerRange(cs, i), cs[i].blocks;
      if blocks == [] then c.start == c.end
      else BlockRange(cs, i, 0).start == c.start && BlockRange(cs, i, |blocks| - 1).end == c.end
  {
  }

  // ----- The canonical text is well-formed UTF-8 -----

  lemma {:induction false} DecodesConcat(a: bytes, b: bytes)
    requires Decode(a).Some? && Decode(b).Some?
    ensures Decode(a + b).Some?
  {
    EncodeDecoded(a);
    EncodeDecoded(b);
    EncodeConcat(Decode(a).value, Decode(b).value);
    DecodeEncoded(Decode(a).value + Decode(b).value);
  }

  lemma {:induction false} MoreDecodes(front: bytes, text: string)
    requires Decode(front).Some?
    ensures Decode(front + Encode(text)).Some?
  {
    DecodeEncoded(text);
    DecodesConcat(front, Encode(text));
  }

  lemma {:induction false} BlocksTextDecodes(blocks: seq<TextBlock>, n: nat)
    requires n <= |blocks|
    ensures Decode(BlocksText(blocks, n)).Some? && Decode(Glued(blocks, n)).Some?
  {
    if n > 0 {
      BlocksTextDecodes(blocks, n - 1);
      MoreDecodes(Glued(blocks, n - 1), blocks[n - 1].text);
    }
    GluedDecodes(blocks, n);
  }

  lemma {:induction false} GluedDecodes(blocks: seq<TextBlock>, n: nat)
    requires n <= |blocks| && Decode(BlocksText(blocks, n)).Some?
    ensures Decode(Glued(blocks, n)).Some?
  {
    NewlineDecodes();
    DecodesConcat(BlocksText(blocks, n), [NEWLINE]);
  }

  lemma {:induction false} NewlineDecodes()
    ensures Decode([NEWLINE]).Some?
  {
  }

  lemma {:induction false} TextDecodes(cs: seq<Container>, n: nat)
    requires n <= |cs|
    ensures Decode(TextUpTo(cs, n)).Some? && Decode(Base(cs, n)).Some?
  {
    if n > 0 {
      TextDecodes(cs, n - 1);
      BlocksTextDecodes(cs[n - 1].blocks, |cs[n - 1].blocks|);
      DecodesConcat(Base(cs, n - 1), ContainerText(cs[n - 1]));
      SeparatorDecodes();
      DecodesConcat(TextUpTo(cs, n), CONTAINER_SEPARATOR);
    }
  }

  lemma {:induction false} SeparatorDecodes()
    ensures Decode(CONTAINER_SEPARATOR).Some?
  {
    assert CONTAINER_SEPARATOR[1..] == [12, 10];
    assert CONTAINER_SEPARATOR[1..][1..] == [10];
    assert Decode([10]).Some?;
    assert Decode([12, 10]).Some?;
  }
}

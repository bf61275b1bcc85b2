/** From the items of a converted office document to numbered containers. */
module OfficeMapper {
  import opened Basics
  import opened ArtifactModel
  import opened Decimals
  import opened TextBlocks

  // ----- Region ids -----

  datatype RegionType = Table | Chart | Image

  function TypeName(t: RegionType): string {
    match t
    case Table => "table"
    case Chart => "chart"
    case Image => "image"
  }

  lemma {:induction false} TypeNameTells(t: RegionType, u: RegionType)
    ensures NoDash(TypeName(t)) && (TypeName(t) == TypeName(u) ==> t == u)
  {
    assert TypeName(Table)[0] == 't' && TypeName(Chart)[0] == 'c' && TypeName(Image)[0] == 'i';
  }

  /** `f"c{page + 1}-{type}-{count}"`. */
  function RegionId(page: nat, t: RegionType, count: nat): string {
    ['c'] + (Decimal(page + 1) + ['-'] + (TypeName(t) + ['-'] + Decimal(count)))
  }

  /** An id tells the page, the type and the number of its region. */
  lemma {:induction false} RegionIdTells(p: nat, t: RegionType, m: nat, q: nat, u: RegionType, n: nat)
    requires RegionId(p, t, m) == RegionId(q, u, n)
    ensures p == q && t == u && m == n
  {
    var a, b := Decimal(p + 1), TypeName(t) + ['-'] + Decimal(m);
    var c, d := Decimal(q + 1), TypeName(u) + ['-'] + Decimal(n);
    assert (['c'] + (a + ['-'] + b))[1..] == a + ['-'] + b;
    assert (['c'] + (c + ['-'] + d))[1..] == c + ['-'] + d;
    DecimalNoDash(p + 1);
    DecimalNoDash(q + 1);
    DashTells(a, b, c, d);
    TypeNameTells(t, u);
    TypeNameTells(u, t);
    DashTells(TypeName(t), Decimal(m), TypeName(u), Decimal(n));
    DecimalTells(p + 1);
    DecimalTells(q + 1);
    DecimalTells(m);
    DecimalTells(n);
  }

  /** The id: the page from 1 and the number, as numerals, around the name of the type. */
  lemma {:induction false} RegionIdReads(page: nat, t: RegionType, count: nat) returns (a: string, b: string)
    ensures RegionId(page, t, count) == "c" + a + "-" + TypeName(t) + "-" + b
    ensures ValueOf(a) == page + 1 && ValueOf(b) == count
  {
    a, b := Decimal(page + 1), Decimal(count);
    DecimalTells(page + 1);
    DecimalTells(count);
  }

  // ----- Items and drafts -----

  datatype Limits = Limits(containers: nat, imageBytes: nat, totalImageBytes: nat)

  /** Where an item is: the page number that it names, and its bounds on that page. */
  datatype Place = Nowhere | At(page: int, bounds: Bounds)

  datatype Item =
    | TableItem(place: Place, markdown: string)
    | PictureItem(place: Place, caption: string, chart: bool, png: Option<bytes>)
    | HeadingItem(place: Place, level: int, text: string)
    | TextItem(place: Place, text: string)
    | OtherItem(place: Place)

  /** A region with what its id is made of. */
  datatype Region = Region(kind: RegionType, count: nat, id: string, bounds: Bounds, asset: Option<bytes>)

  datatype Draft = Draft(blocks: seq<TextBlock>, regions: seq<Region>)

  datatype MapError = TooManyContainers | InvalidContainer | InvalidOutline | EmptyAsset

  const NO_DRAFT := Draft([], [])

  /** What an item contributes: to which page, where on it, and the block, the region and the outline entry it gives. */
  datatype Contribution = Contribution(
    page: nat,
    bounds: Option<Bounds>,
    text: Option<string>,
    region: Option<Shown>,
    entry: Option<OutlineEntry>)

  /** What a region shows: its type, and the image it keeps. */
  datatype Shown = Shown(kind: RegionType, asset: Option<bytes>)

  /** What a region shows, and where. */
  datatype Drawn = Drawn(shown: Shown, bounds: Bounds)

  /** `_location`: items without a place are on the first page. */
  function PageOf(place: Place): nat {
    if place.Nowhere? then 0 else Max(0, place.page - 1)
  }

  function Hashes(n: int): string {
    seq(Max(0, n), _ => '#')
  }

  /** The text that stands for a picture. */
  function PictureText(caption: string): string {
    if Strip(caption) != [] then "[Image: " + Strip(caption) + "]" else "[Image]"
  }

  function NonEmpty(s: string): Option<string> {
    if s != [] then Some(s) else None
  }

  function Bytes(asset: Option<bytes>): nat {
    if asset.Some? then |asset.value| else 0
  }

  /** `_picture_png`, given how many bytes are left of the budget. */
  function Asset(item: Item, limits: Limits, remaining: int): (r: Option<bytes>)
    ensures r.Some? ==> |r.value| <= remaining && |r.value| <= limits.imageBytes
  {
    if !item.PictureItem? || remaining <= 0 || item.png.None? then None
    else if |item.png.value| > limits.imageBytes || |item.png.value| > remaining then None
    else item.png
  }

  /** What an item contributes when `remaining` bytes of the budget for images are left. */
  function ContributionOf(item: Item, limits: Limits, remaining: int): Contribution {
    var page := PageOf(item.place);
    var bounds := if item.place.Nowhere? then None else Some(item.place.bounds);
    match item
    case TableItem(_, markdown) =>
      var text := NonEmpty(Strip(markdown));
      Contribution(page, bounds, text, if text.Some? then Some(Shown(Table, None)) else None, None)
    case PictureItem(_, caption, chart, _) =>
      var shown := Shown(if chart then Chart else Image, Asset(item, limits, remaining));
      Contribution(page, bounds, Some(PictureText(caption)), Some(shown), None)
    case HeadingItem(_, level, heading) =>
      var text := Strip(heading);
      if text == [] then Contribution(page, bounds, None, None, None)
      else
        var entry := OutlineEntry(level, text, page);
        Contribution(page, bounds, Some(Hashes(Min(6, level)) + " " + text), None, Some(entry))
    case TextItem(_, text) => Contribution(page, bounds, NonEmpty(Strip(text)), None, None)
    case OtherItem(_) => Contribution(page, bounds, None, None, None)
  }

  /** The bytes of the images that the first `n` items keep. */
  function TotalUpTo(items: seq<Item>, limits: Limits, n: nat): (total: nat)
    requires n <= |items|
    ensures total <= limits.totalImageBytes
  {
    if n == 0 then 0
    else
      var before := TotalUpTo(items, limits, n - 1);
      before + Bytes(Asset(items[n - 1], limits, limits.totalImageBytes - before))
  }

  /** What item `k` contributes: an image counts against the budget that the items before it left. */
  function ContributionAt(items: seq<Item>, limits: Limits, k: nat): Contribution
    requires k < |items|
  {
    ContributionOf(items[k], limits, limits.totalImageBytes - TotalUpTo(items, limits, k))
  }

  function Contributions(items: seq<Item>, limits: Limits): seq<Contribution> {
    seq(|items|, i requires 0 <= i < |items| => ContributionAt(items, limits, i))
  }

  /**
   The image of a picture is kept exactly when it fits the limit of one image and all that is
   left of the budget; nothing else counts against the budget.
   */
  lemma {:induction false} KeptIff(items: seq<Item>, limits: Limits, k: nat)
    requires k < |items|
    ensures
      var item, before := items[k], TotalUpTo(items, limits, k);
      var region := ContributionAt(items, limits, k).region;
      var kept := item.PictureItem? && item.png.Some? && |item.png.value| <= limits.imageBytes
        && before < limits.totalImageBytes && before + |item.png.value| <= limits.totalImageBytes;
      && (item.PictureItem? ==> region.Some? && region.value.asset == if kept then item.png else None)
      && TotalUpTo(items, limits, k + 1) == before + if kept then |item.png.value| else 0
    ensures TotalUpTo(items, limits, 0) == 0
  {
  }

  /** Where an item is on a page with `k` blocks: items without bounds are stacked. */
  function BoundsOf(c: Contribution, k: nat): Bounds {
    if c.bounds.None? then Bounds(0.0, k as real, 1.0, k as real + 1.0) else c.bounds.value
  }

  function BlockOf(c: Contribution, k: nat): Option<TextBlock> {
    if c.text.None? then None else Some(TextBlock(c.text.value, BoundsOf(c, k)))
  }

  function DrawnOf(c: Contribution, k: nat): Option<Drawn> {
    if c.region.None? then None else Some(Drawn(c.region.value, BoundsOf(c, k)))
  }

  // ----- Regions are numbered by page and type -----

  function CountOf(rs: seq<Region>, t: RegionType): nat {
    if rs == [] then 0 else CountOf(rs[..|rs| - 1], t) + if rs[|rs| - 1].kind == t then 1 else 0
  }

  /** Each region carries the number of regions of its type up to it. */
  predicate WellNumbered(rs: seq<Region>) {
    rs == [] || (WellNumbered(rs[..|rs| - 1]) && rs[|rs| - 1].count == CountOf(rs, rs[|rs| - 1].kind))
  }

  /** Each region of the page has the id that its page, type and number make. */
  predicate Identified(page: nat, rs: seq<Region>) {
    rs == [] || (Identified(page, rs[..|rs| - 1]) && HasId(page, rs[|rs| - 1]))
  }

  predicate HasId(page: nat, r: Region) {
    r.id == RegionId(page, r.kind, r.count)
  }

  lemma {:induction false} CountGrows(rs: seq<Region>, k: nat, t: RegionType)
    requires k <= |rs|
    ensures CountOf(rs[..k], t) <= CountOf(rs, t)
  {
    if k < |rs| {
      CountGrows(rs[..|rs| - 1], k, t);
      assert rs[..|rs| - 1][..k] == rs[..k];
    } else {
      assert rs[..k] == rs;
    }
  }

  lemma {:induction false} NumberedAt(rs: seq<Region>, k: nat)
    requires WellNumbered(rs) && k < |rs|
    ensures rs[k].count == CountOf(rs[..k + 1], rs[k].kind)
  {
    if k < |rs| - 1 {
      NumberedAt(rs[..|rs| - 1], k);
      assert rs[..|rs| - 1][..k + 1] == rs[..k + 1];
    } else {
      assert rs[..k + 1] == rs;
    }
  }

  lemma {:induction false} IdentifiedAt(page: nat, rs: seq<Region>, k: nat)
    requires Identified(page, rs) && k < |rs|
    ensures HasId(page, rs[k])
  {
    if k < |rs| - 1 {
      IdentifiedAt(page, rs[..|rs| - 1], k);
    }
  }

  /** Of two regions of one type on a page the later one has the larger number. */
  lemma {:induction false} LaterLarger(rs: seq<Region>, j: nat, k: nat)
    requires WellNumbered(rs) && j < k < |rs| && rs[j].kind == rs[k].kind
    ensures rs[j].count < rs[k].count
  {
    NumberedAt(rs, j);
    NumberedAt(rs, k);
    var t := rs[j].kind;
    assert rs[..k + 1][..k] == rs[..k];
    assert CountOf(rs[..k + 1], t) == CountOf(rs[..k], t) + 1;
    CountGrows(rs[..k], j + 1, t);
    assert rs[..k][..j + 1] == rs[..j + 1];
  }

  /** No two regions of the document have the same id. */
  lemma {:induction false} IdsApart(p: nat, rs: seq<Region>, j: nat, q: nat, ss: seq<Region>, k: nat)
    requires WellNumbered(rs) && Identified(p, rs) && j < |rs|
    requires WellNumbered(ss) && Identified(q, ss) && k < |ss|
    requires p == q ==> rs == ss
    requires rs[j].id == ss[k].id
    ensures p == q && j == k
  {
    IdentifiedAt(p, rs, j);
    IdentifiedAt(q, ss, k);
    RegionIdTells(p, rs[j].kind, rs[j].count, q, ss[k].kind, ss[k].count);
    if j < k {
      LaterLarger(rs, j, k);
    } else if k < j {
      LaterLarger(rs, k, j);
    }
  }

  // ----- What the drafts hold -----

  function DraftOf(drafts: map<int, Draft>, page: int): Draft {
    if page in drafts then drafts[page] else NO_DRAFT
  }

  function CountIn(counts: map<(int, RegionType), nat>, key: (int, RegionType)): nat {
    if key in counts then counts[key] else 0
  }

  /** The blocks that the first `n` items put on a page, in order. */
  function BlocksOn(cs: seq<Contribution>, page: nat, n: nat): seq<TextBlock>
    requires n <= |cs|
  {
    if n == 0 then []
    else
      var before := BlocksOn(cs, page, n - 1);
      if cs[n - 1].page == page then Append(before, BlockOf(cs[n - 1], |before|)) else before
  }

  /** What the regions show that the first `n` items put on a page, in order. */
  function DrawnOn(cs: seq<Contribution>, page: nat, n: nat): seq<Drawn>
    requires n <= |cs|
  {
    if n == 0 then []
    else
      var before := DrawnOn(cs, page, n - 1);
      if cs[n - 1].page == page then Append(before, DrawnOf(cs[n - 1], |BlocksOn(cs, page, n - 1)|)) else before
  }

  /** The outline of the first `n` items. */
  function OutlineOf(cs: seq<Contribution>, n: nat): seq<OutlineEntry>
    requires n <= |cs|
  {
    if n == 0 then [] else Append(OutlineOf(cs, n - 1), cs[n - 1].entry)
  }

  function Append<T>(s: seq<T>, x: Option<T>): seq<T> {
    if x.Some? then s + [x.value] else s
  }

  function AllDrawn(rs: seq<Region>): seq<Drawn> {
    seq(|rs|, i requires 0 <= i < |rs| => DrawnBy(rs[i]))
  }

  function DrawnBy(r: Region): Drawn {
    Drawn(Shown(r.kind, r.asset), r.bounds)
  }

  /** The bytes of all assets of a page, and of the pages below `n`. */
  function AssetBytes(rs: seq<Region>): nat {
    if rs == [] then 0
    else AssetBytes(rs[..|rs| - 1]) + if rs[|rs| - 1].asset.Some? then |rs[|rs| - 1].asset.value| else 0
  }

  function AssetsBelow(drafts: map<int, Draft>, n: nat): nat {
    if n == 0 then 0 else AssetsBelow(drafts, n - 1) + AssetBytes(DraftOf(drafts, n - 1).regions)
  }

  lemma {:induction false} AssetsElsewhere(drafts: map<int, Draft>, page: nat, d: Draft, n: nat)
    requires n <= page
    ensures AssetsBelow(drafts[page as int := d], n) == AssetsBelow(drafts, n)
  {
    if n > 0 {
      AssetsElsewhere(drafts, page, d, n - 1);
    }
  }

  lemma {:induction false} AssetsReplaced(drafts: map<int, Draft>, page: nat, d: Draft, n: nat)
    requires page < n
    ensures
      AssetsBelow(drafts[page as int := d], n) + AssetBytes(DraftOf(drafts, page).regions)
      == AssetsBelow(drafts, n) + AssetBytes(d.regions)
  {
    if page < n - 1 {
      AssetsReplaced(drafts, page, d, n - 1);
    } else {
      AssetsElsewhere(drafts, page, d, page);
    }
  }

  lemma {:induction false} AssetsMonotone(drafts: map<int, Draft>, m: nat, n: nat)
    requires m <= n
    ensures AssetsBelow(drafts, m) <= AssetsBelow(drafts, n)
  {
    if m < n {
      AssetsMonotone(drafts, m, n - 1);
    }
  }

  // ----- The state of the loop over the items -----

  datatype State = State(
    drafts: map<int, Draft>,
    outline: seq<OutlineEntry>,
    counts: map<(int, RegionType), nat>,
    total: nat)

  /** The count of each type of region is how many of that type the page has. */
  predicate Counted(counts: map<(int, RegionType), nat>, page: nat, rs: seq<Region>) {
    && CountIn(counts, (page, Table)) == CountOf(rs, Table)
    && CountIn(counts, (page, Chart)) == CountOf(rs, Chart)
    && CountIn(counts, (page, Image)) == CountOf(rs, Image)
  }

  /** The blocks of a page are those of its items so far, and its regions show what theirs do, numbered. */
  ghost predicate HoldsFor(d: Draft, counts: map<(int, RegionType), nat>, cs: seq<Contribution>, n: nat, page: nat)
    requires n <= |cs|
  {
    && d.blocks == BlocksOn(cs, page, n) && AllDrawn(d.regions) == DrawnOn(cs, page, n)
    && WellNumbered(d.regions) && Counted(counts, page, d.regions)
  }

  ghost predicate Holds(s: State, cs: seq<Contribution>, n: nat, page: nat)
    requires n <= |cs|
  {
    HoldsFor(DraftOf(s.drafts, page), s.counts, cs, n, page)
  }

  ghost predicate HoldsAll(s: State, cs: seq<Contribution>, n: nat)
    requires n <= |cs|
  {
    forall page: nat :: Holds(s, cs, n, page)
  }

  ghost predicate IdentifiedAll(s: State) {
    forall page: nat :: Identified(page, DraftOf(s.drafts, page).regions)
  }

  /** The drafts are those of the document's own pages and of the items so far. */
  ghost predicate Keyed(drafts: map<int, Draft>, cs: seq<Contribution>, n: nat, pages: set<int>, limits: Limits)
    requires n <= |cs|
  {
    && drafts.Keys == pages + PagesOf(cs, n)
    && (forall j :: 0 <= j < n ==> cs[j].page < limits.containers)
  }

  /** The pages of the first `n` items. */
  function PagesOf(cs: seq<Contribution>, n: nat): set<int>
    requires n <= |cs|
  {
    if n == 0 then {} else PagesOf(cs, n - 1) + {cs[n - 1].page}
  }

  lemma {:induction false} InPagesOf(cs: seq<Contribution>, n: nat, k: int)
    requires n <= |cs|
    ensures k in PagesOf(cs, n) <==> exists j :: 0 <= j < n && cs[j].page == k
  {
    if n > 0 {
      InPagesOf(cs, n - 1, k);
    }
  }

  /** What every turn keeps; `bound` is above every page that can get a region. */
  ghost predicate Kept(s: State, cs: seq<Contribution>, n: nat, pages: set<int>, limits: Limits, bound: nat)
    requires n <= |cs|
  {
    && HoldsAll(s, cs, n) && IdentifiedAll(s) && s.outline == OutlineOf(cs, n)
    && AssetsBelow(s.drafts, bound) == s.total <= limits.totalImageBytes
    && Keyed(s.drafts, cs, n, pages, limits)
  }

  /** `_region`. */
  function NextRegion(s: State, c: Contribution, d: Draft): Option<Region> {
    if c.region.None? then None
    else
      var kind := c.region.value.kind;
      var count := CountIn(s.counts, (c.page, kind)) + 1;
      Some(Region(kind, count, RegionId(c.page, kind, count), BoundsOf(c, |d.blocks|), c.region.value.asset))
  }

  function AssetOf(c: Contribution): nat {
    if c.region.None? then 0 else Bytes(c.region.value.asset)
  }

  /** The state once a block, a region and an outline entry, or none of them, were added. */
  function Added(s: State, page: nat, block: Option<TextBlock>, region: Option<Region>,
      entry: Option<OutlineEntry>): State {
    var d := DraftOf(s.drafts, page);
    State(
      s.drafts[page as int := Draft(Append(d.blocks, block), Append(d.regions, region))],
      Append(s.outline, entry),
      CountsAfter(s.counts, page, region),
      s.total + if region.Some? then Bytes(region.value.asset) else 0)
  }

  /** The state after an item: the reference for one turn of the loop. */
  function After(s: State, c: Contribution): State {
    var d := DraftOf(s.drafts, c.page);
    Added(s, c.page, BlockOf(c, |d.blocks|), NextRegion(s, c, d), c.entry)
  }

  /** The block and the region are those that the item contributes after `k` blocks, the region with the next number. */
  ghost predicate Fits(counts: map<(int, RegionType), nat>, c: Contribution, k: nat, block: Option<TextBlock>,
      region: Option<Region>) {
    && block == BlockOf(c, k)
    && DrawnOf(c, k) == (if region.Some? then Some(DrawnBy(region.value)) else None)
    && (region.Some? ==> region.value.count == CountIn(counts, (c.page, region.value.kind)) + 1)
  }

  lemma {:induction false} OneMoreRegion(rs: seq<Region>, r: Region)
    ensures AllDrawn(rs + [r]) == AllDrawn(rs) + [DrawnBy(r)]
    ensures forall t :: CountOf(rs + [r], t) == CountOf(rs, t) + if r.kind == t then 1 else 0
    ensures AssetBytes(rs + [r]) == AssetBytes(rs) + Bytes(r.asset)
    ensures WellNumbered(rs) && r.count == CountOf(rs, r.kind) + 1 ==> WellNumbered(rs + [r])
  {
    assert (rs + [r])[..|rs|] == rs;
  }

  lemma {:induction false} DrawnHere(cs: seq<Contribution>, n: nat, rs: seq<Region>, region: Option<Region>)
    requires n < |cs| && AllDrawn(rs) == DrawnOn(cs, cs[n].page, n)
    requires DrawnOf(cs[n], |BlocksOn(cs, cs[n].page, n)|) ==
      if region.Some? then Some(DrawnBy(region.value)) else None
    ensures AllDrawn(Append(rs, region)) == DrawnOn(cs, cs[n].page, n + 1)
  {
    if region.Some? {
      OneMoreRegion(rs, region.value);
    }
  }

  /** The counts after a region was added. */
  function CountsAfter(counts: map<(int, RegionType), nat>, page: nat,
      region: Option<Region>): map<(int, RegionType), nat> {
    if region.Some? then counts[(page as int, region.value.kind) := region.value.count] else counts
  }

  lemma {:induction false} NumbersHere(counts: map<(int, RegionType), nat>, page: nat, rs: seq<Region>,
      region: Option<Region>)
    requires WellNumbered(rs) && Counted(counts, page, rs)
    requires region.Some? ==> region.value.count == CountIn(counts, (page, region.value.kind)) + 1
    ensures WellNumbered(Append(rs, region)) && Counted(CountsAfter(counts, page, region), page, Append(rs, region))
  {
    if region.Some? {
      OneMoreRegion(rs, region.value);
    }
  }

  /** The page of the item after one turn. */
  lemma {:induction false} HoldsHere(d: Draft, counts: map<(int, RegionType), nat>, cs: seq<Contribution>, n: nat,
      block: Option<TextBlock>,
                  region: Option<Region>)
    requires n < |cs| && HoldsFor(d, counts, cs, n, cs[n].page) && Fits(counts, cs[n], |d.blocks|, block, region)
    ensures HoldsFor(Draft(Append(d.blocks, block), Append(d.regions, region)), CountsAfter(counts, cs[n].page, region),
                     cs, n + 1, cs[n].page)
  {
    DrawnHere(cs, n, d.regions, region);
    NumbersHere(counts, cs[n].page, d.regions, region);
  }

  /** Every other page. */
  lemma {:induction false} HoldsElsewhere(s: State, cs: seq<Contribution>, n: nat, block: Option<TextBlock>,
      region: Option<Region>, page: nat)
    requires n < |cs| && Holds(s, cs, n, page) && page != cs[n].page
    ensures Holds(Added(s, cs[n].page, block, region, cs[n].entry), cs, n + 1, page)
  {
    assert DraftOf(Added(s, cs[n].page, block, region, cs[n].entry).drafts, page) == DraftOf(s.drafts, page);
  }

  lemma {:induction false} HoldsEverywhere(s: State, cs: seq<Contribution>, n: nat, block: Option<TextBlock>,
      region: Option<Region>)
    requires n < |cs| && HoldsAll(s, cs, n)
    requires Fits(s.counts, cs[n], |DraftOf(s.drafts, cs[n].page).blocks|, block, region)
    ensures HoldsAll(Added(s, cs[n].page, block, region, cs[n].entry), cs, n + 1)
  {
    var t, m := Added(s, cs[n].page, block, region, cs[n].entry), n + 1;
    forall page: nat ensures Holds(t, cs, m, page) {
      assert Holds(s, cs, n, page);
      if page == cs[n].page {
        HoldsHere(DraftOf(s.drafts, page), s.counts, cs, n, block, region);
      } else {
        HoldsElsewhere(s, cs, n, block, region, page);
      }
    }
  }

  lemma {:induction false} OneMoreId(page: nat, rs: seq<Region>, region: Option<Region>)
    requires Identified(page, rs) && (region.Some? ==> HasId(page, region.value))
    ensures Identified(page, Append(rs, region))
  {
    if region.Some? {
      assert (rs + [region.value])[..|rs|] == rs;
    }
  }

  lemma {:induction false} IdentifiedAfter(s: State, at: nat, block: Option<TextBlock>, region: Option<Region>,
      entry: Option<OutlineEntry>)
    requires IdentifiedAll(s) && (region.Some? ==> HasId(at, region.value))
    ensures IdentifiedAll(Added(s, at, block, region, entry))
  {
    var t := Added(s, at, block, region, entry);
    OneMoreId(at, DraftOf(s.drafts, at).regions, region);
    forall page: nat ensures Identified(page, DraftOf(t.drafts, page).regions) {
      assert Identified(page, DraftOf(s.drafts, page).regions);
    }
  }

  /** The total grows by what the page gains. */
  lemma {:induction false} TotalAfter(s: State, page: nat, block: Option<TextBlock>, region: Option<Region>,
      entry: Option<OutlineEntry>, bound: nat)
    requires page < bound
    ensures
      AssetsBelow(Added(s, page, block, region, entry).drafts, bound)
      == AssetsBelow(s.drafts, bound) + if region.Some? then Bytes(region.value.asset) else 0
  {
    var d := DraftOf(s.drafts, page);
    if region.Some? {
      OneMoreRegion(d.regions, region.value);
    }
    AssetsReplaced(s.drafts, page, Draft(Append(d.blocks, block), Append(d.regions, region)), bound);
  }

  lemma {:induction false} KeyedAfter(drafts: map<int, Draft>, cs: seq<Contribution>, n: nat, pages: set<int>,
      limits: Limits, d: Draft)
    requires n < |cs| && Keyed(drafts, cs, n, pages, limits) && cs[n].page < limits.containers
    ensures Keyed(drafts[cs[n].page as int := d], cs, n + 1, pages, limits)
  {
  }

  /** One turn keeps everything. */
  lemma {:induction false} TurnKeeps(s: State, cs: seq<Contribution>, n: nat, pages: set<int>, limits: Limits,
      bound: nat,
                  block: Option<TextBlock>, region: Option<Region>)
    requires n < |cs| && Kept(s, cs, n, pages, limits, bound) && limits.containers <= bound
    requires cs[n].page < limits.containers
    requires Fits(s.counts, cs[n], |DraftOf(s.drafts, cs[n].page).blocks|, block, region)
    requires region.Some? ==> Bytes(region.value.asset) <= limits.totalImageBytes - s.total
    requires region.Some? ==> HasId(cs[n].page, region.value)
    ensures Kept(Added(s, cs[n].page, block, region, cs[n].entry), cs, n + 1, pages, limits, bound)
  {
    var d := DraftOf(s.drafts, cs[n].page);
    HoldsEverywhere(s, cs, n, block, region);
    IdentifiedAfter(s, cs[n].page, block, region, cs[n].entry);
    TotalAfter(s, cs[n].page, block, region, cs[n].entry, bound);
    KeyedAfter(s.drafts, cs, n, pages, limits, Draft(Append(d.blocks, block), Append(d.regions, region)));
  }

  lemma {:induction false} AfterKeeps(s: State, cs: seq<Contribution>, n: nat, pages: set<int>, limits: Limits,
      bound: nat)
    requires n < |cs| && Kept(s, cs, n, pages, limits, bound) && limits.containers <= bound
    requires cs[n].page < limits.containers && AssetOf(cs[n]) <= limits.totalImageBytes - s.total
    ensures Kept(After(s, cs[n]), cs, n + 1, pages, limits, bound)
  {
    var d := DraftOf(s.drafts, cs[n].page);
    TurnKeeps(s, cs, n, pages, limits, bound, BlockOf(cs[n], |d.blocks|), NextRegion(s, cs[n], d));
  }

  // ----- The source, step by step -----

  /** What the checks of one item come to. */
  function ItemError(c: Contribution, limits: Limits): Option<MapError> {
    if c.page >= limits.containers then Some(InvalidContainer)
    else if c.region.Some? && c.region.value.asset == Some([]) then Some(EmptyAsset)
    else if c.entry.Some? && c.entry.value.level < 1 then Some(InvalidOutline)
    else None
  }

  /** What an item contributes in a state of the loop. */
  function ContributionIn(s: State, item: Item, limits: Limits): Contribution {
    ContributionOf(item, limits, limits.totalImageBytes - s.total)
  }

  /** The picture branch of the loop. */
  method MapPicture(s: State, item: Item, limits: Limits, bounds: Bounds) returns (r: Result<State, MapError>)
    requires item.PictureItem? && PageOf(item.place) < limits.containers
    requires bounds == BoundsOf(ContributionIn(s, item, limits), |DraftOf(s.drafts, PageOf(item.place)).blocks|)
    ensures
      r == if Asset(item, limits, limits.totalImageBytes - s.total) == Some([]) then Err(EmptyAsset)
           else Ok(After(s, ContributionIn(s, item, limits)))
  {
    var page := PageOf(item.place);
    var draft := DraftOf(s.drafts, page);
    var asset := Asset(item, limits, limits.totalImageBytes - s.total);
    if asset == Some([]) {
      return Err(EmptyAsset);
    }
    var kind := if item.chart then Chart else Image;
    var count := CountIn(s.counts, (page, kind)) + 1;
    draft := Draft(draft.blocks + [TextBlock(PictureText(item.caption), bounds)],
                   draft.regions + [Region(kind, count, RegionId(page, kind, count), bounds, asset)]);
    return Ok(State(s.drafts[page as int := draft], s.outline, s.counts[(page as int, kind) := count],
                    s.total + if asset.Some? then |asset.value| else 0));
  }

  /** The table branch of the loop. */
  method MapTable(s: State, item: Item, limits: Limits, bounds: Bounds) returns (t: State)
    requires item.TableItem? && PageOf(item.place) < limits.containers
    requires bounds == BoundsOf(ContributionIn(s, item, limits), |DraftOf(s.drafts, PageOf(item.place)).blocks|)
    ensures t == After(s, ContributionIn(s, item, limits))
  {
    var page := PageOf(item.place);
    var draft := DraftOf(s.drafts, page);
    var text := Strip(item.markdown);
    if text == [] {
      return State(s.drafts[page as int := draft], s.outline, s.counts, s.total);
    }
    var count := CountIn(s.counts, (page, Table)) + 1;
    draft := Draft(draft.blocks + [TextBlock(text, bounds)],
                   draft.regions + [Region(Table, count, RegionId(page, Table, count), bounds, None)]);
    return State(s.drafts[page as int := draft], s.outline, s.counts[(page as int, Table) := count], s.total);
  }

  /** One turn of the loop. */
  method MapItem(s: State, item: Item, limits: Limits) returns (r: Result<State, MapError>)
    ensures
      var c := ContributionIn(s, item, limits);
      r == if ItemError(c, limits).Some? then Err(ItemError(c, limits).value) else Ok(After(s, c))
  {
    var page := PageOf(item.place);
    if page >= limits.containers {
      return Err(InvalidContainer);
    }
    var draft := DraftOf(s.drafts, page);
    var y := |draft.blocks| as real;
    var bounds := if item.place.Nowhere? then Bounds(0.0, y, 1.0, y + 1.0) else item.place.bounds;
    if item.TableItem? {
      var t := MapTable(s, item, limits, bounds);
      return Ok(t);
    }
    if item.PictureItem? {
      r := MapPicture(s, item, limits, bounds);
      return;
    }
    match item {
      case HeadingItem(_, level, heading) =>
        var text := Strip(heading);
        if text != [] {
          if level < 1 {
            return Err(InvalidOutline);
          }
          draft := Draft(draft.blocks + [TextBlock(Hashes(Min(6, level)) + " " + text, bounds)], draft.regions);
          var entry := OutlineEntry(level, text, page);
          return Ok(State(s.drafts[page as int := draft], s.outline + [entry], s.counts, s.total));
        }
      case TextItem(_, content) =>
        var text := Strip(content);
        if text != [] {
          draft := Draft(draft.blocks + [TextBlock(text, bounds)], draft.regions);
        }
      case OtherItem(_) =>
    }
    return Ok(State(s.drafts[page as int := draft], s.outline, s.counts, s.total));
  }

  // ----- The whole document -----

  datatype MappedContainer = MappedContainer(number: nat, blocks: seq<TextBlock>, regions: seq<Region>)

  datatype Document = Document(containers: seq<MappedContainer>, outline: seq<OutlineEntry>)

  function AssetTotal(cs: seq<MappedContainer>, n: nat): nat
    requires n <= |cs|
  {
    if n == 0 then 0 else AssetTotal(cs, n - 1) + AssetBytes(cs[n - 1].regions)
  }

  /** Container `i` holds, in order, what the items of page `i` contribute. */
  ghost predicate IsPage(c: MappedContainer, cs: seq<Contribution>, i: nat) {
    && c.number == i && c.blocks == BlocksOn(cs, i, |cs|) && AllDrawn(c.regions) == DrawnOn(cs, i, |cs|)
    && WellNumbered(c.regions) && Identified(i, c.regions)
  }

  ghost predicate IsDocument(doc: Document, cs: seq<Contribution>, limits: Limits) {
    && (forall i :: 0 <= i < |doc.containers| ==> IsPage(doc.containers[i], cs, i))
    && (forall j :: 0 <= j < |cs| ==> cs[j].page < |doc.containers|)
    && doc.outline == OutlineOf(cs, |cs|)
    && (forall e :: e in doc.outline ==> e.container < |doc.containers|)
    && AssetTotal(doc.containers, |doc.containers|) <= limits.totalImageBytes
  }

  lemma {:induction false} NoDrafts(drafts: map<int, Draft>, n: nat)
    requires forall k :: k in drafts ==> drafts[k] == NO_DRAFT
    ensures AssetsBelow(drafts, n) == 0
  {
    if n > 0 {
      NoDrafts(drafts, n - 1);
    }
  }

  lemma {:induction false} StartKept(drafts: map<int, Draft>, cs: seq<Contribution>, limits: Limits, bound: nat)
    requires forall k :: k in drafts ==> drafts[k] == NO_DRAFT
    ensures Kept(State(drafts, [], map[], 0), cs, 0, drafts.Keys, limits, bound)
  {
    NoDrafts(drafts, bound);
    var s := State(drafts, [], map[], 0);
    forall page: nat ensures Holds(s, cs, 0, page) {
      assert DraftOf(drafts, page) == NO_DRAFT;
    }
    forall page: nat ensures Identified(page, DraftOf(s.drafts, page).regions) {
      assert DraftOf(drafts, page) == NO_DRAFT;
    }
  }

  /** The outline points to pages of items. */
  lemma {:induction false} EntryPage(items: seq<Item>, limits: Limits, n: nat, e: OutlineEntry) returns (j: nat)
    requires n <= |items| && e in OutlineOf(Contributions(items, limits), n)
    ensures j < n && e.container == Contributions(items, limits)[j].page
  {
    var cs := Contributions(items, limits);
    if cs[n - 1].entry == Some(e) {
      j := n - 1;
    } else {
      j := EntryPage(items, limits, n - 1, e);
    }
  }

  lemma {:induction false} SomeKey(keys: set<int>)
    requires |keys| > 0
    ensures exists k :: k in keys
  {
    NoneIsEmpty(keys);
  }

  lemma {:induction false} NoneIsEmpty(keys: set<int>)
    ensures (forall k :: k !in keys) ==> keys == {}
  {
    if forall k :: k !in keys {
      assert keys == {};
    }
  }

  /** `max(drafts)`. */
  method Maximum(drafts: map<int, Draft>) returns (m: int)
    requires |drafts| > 0
    ensures m in drafts && forall k :: k in drafts ==> k <= m
  {
    SomeKey(drafts.Keys);
    m :| m in drafts.Keys;
    var left := drafts.Keys - {m};
    while left != {}
      invariant m in drafts && left <= drafts.Keys
      invariant forall k :: k in drafts && k !in left ==> k <= m
      decreases |left|
    {
      SomeKey(left);
      var k :| k in left;
      left := left - {k};
      if k > m {
        m := k;
      }
    }
  }

  /** The drafts of the document's own pages. */
  method StartDrafts(pages: seq<int>) returns (drafts: map<int, Draft>)
    ensures drafts.Keys != {} && forall k :: k in drafts ==> drafts[k] == NO_DRAFT
    ensures forall k :: k in drafts <==> k + 1 in pages || (pages == [] && k == 0)
  {
    drafts := map[];
    var i := 0;
    while i < |pages|
      invariant 0 <= i <= |pages| && forall k :: k in drafts ==> drafts[k] == NO_DRAFT
      invariant forall k :: k in drafts <==> k + 1 in pages[..i]
    {
      assert pages[..i + 1] == pages[..i] + [pages[i]];
      drafts := drafts[pages[i] - 1 := NO_DRAFT];
      i := i + 1;
    }
    assert pages[..i] == pages;
    if pages == [] {
      drafts := drafts[0 := NO_DRAFT];
      assert 0 in drafts;
    } else {
      assert pages[0] - 1 in drafts;
    }
  }

  /** The containers from the drafts: a page that no draft is for gets an empty one. */
  method Containers(drafts: map<int, Draft>, n: nat) returns (containers: seq<MappedContainer>)
    ensures |containers| == n
    ensures AreDrafts(containers, drafts)
    ensures AssetTotal(containers, n) == AssetsBelow(drafts, n)
  {
    containers := [];
    var index := 0;
    while index < n
      invariant 0 <= index <= n && |containers| == index
      invariant forall i :: 0 <= i < index ==>
        containers[i] == MappedContainer(i, DraftOf(drafts, i).blocks, DraftOf(drafts, i).regions)
      invariant AssetTotal(containers, index) == AssetsBelow(drafts, index)
    {
      var d := DraftOf(drafts, index);
      TotalPrefix(containers, MappedContainer(index, d.blocks, d.regions));
      containers := containers + [MappedContainer(index, d.blocks, d.regions)];
      index := index + 1;
    }
  }

  lemma {:induction false} TotalPrefix(cs: seq<MappedContainer>, c: MappedContainer)
    ensures AssetTotal(cs + [c], |cs| + 1) == AssetTotal(cs, |cs|) + AssetBytes(c.regions)
  {
    TotalSame(cs + [c], cs, |cs|);
  }

  lemma {:induction false} TotalSame(a: seq<MappedContainer>, b: seq<MappedContainer>, n: nat)
    requires n <= |b| && b <= a
    ensures AssetTotal(a, n) == AssetTotal(b, n)
  {
    if n > 0 {
      TotalSame(a, b, n - 1);
    }
  }

  /** Item `k` passes its checks: its page, the level of a heading with text, and its image. */
  predicate Acceptable(items: seq<Item>, limits: Limits, k: nat)
    requires k < |items|
  {
    var item, before := items[k], TotalUpTo(items, limits, k);
    && 0 < limits.containers && (item.place.At? ==> item.place.page <= limits.containers)
    && (item.HeadingItem? && Strip(item.text) != [] ==> item.level >= 1)
    && Asset(item, limits, limits.totalImageBytes - before) != Some([])
  }

  lemma {:induction false} AcceptableIffNoError(items: seq<Item>, limits: Limits, k: nat)
    requires k < |items|
    ensures Acceptable(items, limits, k) <==> ItemError(ContributionAt(items, limits, k), limits).None?
  {
  }

  /** The error of the first of `n` items that is not acceptable. */
  function FirstError(items: seq<Item>, limits: Limits, n: nat): (e: Option<MapError>)
    requires n <= |items|
    ensures e.None? <==> forall k :: 0 <= k < n ==> Acceptable(items, limits, k)
  {
    if n == 0 then None
    else
      AcceptableIffNoError(items, limits, n - 1);
      var e := FirstError(items, limits, n - 1);
      if e.Some? then e else ItemError(ContributionAt(items, limits, n - 1), limits)
  }

  lemma {:induction false} ErrorStays(items: seq<Item>, limits: Limits, m: nat, n: nat)
    requires m <= n <= |items| && FirstError(items, limits, m).Some?
    ensures FirstError(items, limits, n) == FirstError(items, limits, m)
  {
    if m < n {
      ErrorStays(items, limits, m, n - 1);
    }
  }

  /** In the right state the item contributes what the reference says, and the state after it is right again. */
  lemma {:induction false} ItemStep(s: State, items: seq<Item>, limits: Limits, i: nat)
    requires i < |items| && s.total == TotalUpTo(items, limits, i) && FirstError(items, limits, i).None?
    ensures ContributionIn(s, items[i], limits) == Contributions(items, limits)[i]
    ensures After(s, Contributions(items, limits)[i]).total == TotalUpTo(items, limits, i + 1)
    ensures AssetOf(Contributions(items, limits)[i]) <= limits.totalImageBytes - s.total
    ensures FirstError(items, limits, i + 1) == ItemError(Contributions(items, limits)[i], limits)
    ensures Contributions(items, limits)[i].page >= limits.containers ==> FirstError(items, limits, i + 1).Some?
  {
  }

  /** The loop over the items. */
  method MapItems(drafts: map<int, Draft>, items: seq<Item>, limits: Limits, ghost bound: nat)
    returns (r: Result<State, MapError>)
    requires (forall k :: k in drafts ==> drafts[k] == NO_DRAFT) && limits.containers <= bound
    ensures r.Ok? <==> FirstError(items, limits, |items|).None?
    ensures r.Err? ==> FirstError(items, limits, |items|) == Some(r.error)
    ensures r.Ok? ==> Kept(r.value, Contributions(items, limits), |items|, drafts.Keys, limits, bound)
    ensures r.Ok? ==> r.value.total == TotalUpTo(items, limits, |items|)
  {
    ghost var cs := Contributions(items, limits);
    var s := State(drafts, [], map[], 0);
    StartKept(drafts, cs, limits, bound);
    var i := 0;
    while i < |items|
      invariant 0 <= i <= |items| && Kept(s, cs, i, drafts.Keys, limits, bound)
      invariant s.total == TotalUpTo(items, limits, i) && FirstError(items, limits, i).None?
    {
      ItemStep(s, items, limits, i);
      var next := MapItem(s, items[i], limits);
      if next.Err? {
        ErrorStays(items, limits, i + 1, |items|);
        return next;
      }
      AfterKeeps(s, cs, i, drafts.Keys, limits, bound);
      s, i := next.value, i + 1;
    }
    return Ok(s);
  }

  /** Containers reach up to the last page of the document or of an item; there is one when there is neither. */
  ghost predicate IsExtent(pages: seq<int>, cs: seq<Contribution>, n: nat) {
    && (forall p :: p in pages ==> p <= n) && (forall j :: 0 <= j < |cs| ==> cs[j].page < n)
    && (pages == [] ==> n >= 1)
    && (n > 0 ==> n in pages || (pages == [] && n == 1) || exists j :: 0 <= j < |cs| && cs[j].page == n - 1)
  }

  lemma {:induction false} ExtentOf(pages: seq<int>, cs: seq<Contribution>, start: set<int>, keys: set<int>,
      maximum: int)
    requires forall k :: k in start <==> k + 1 in pages || (pages == [] && k == 0)
    requires keys == start + PagesOf(cs, |cs|) && maximum in keys && forall k :: k in keys ==> k <= maximum
    ensures IsExtent(pages, cs, Max(0, maximum + 1))
  {
    InPagesOf(cs, |cs|, maximum);
    forall p | p in pages ensures p <= Max(0, maximum + 1) {
      assert p - 1 in start;
    }
    forall j | 0 <= j < |cs| ensures cs[j].page < Max(0, maximum + 1) {
      InPagesOf(cs, |cs|, cs[j].page);
    }
  }

  /** With the limit on the pages of items, few containers or as many as some page of the document says. */
  lemma {:induction false} ExtentWithin(pages: seq<int>, cs: seq<Contribution>, n: nat, limits: Limits)
    requires IsExtent(pages, cs, n) && forall j :: 0 <= j < |cs| ==> cs[j].page < limits.containers
    ensures n <= limits.containers || n in pages + [1]
  {
  }

  /** The outline points to containers. */
  lemma {:induction false} EntriesInside(items: seq<Item>, limits: Limits, n: nat)
    requires forall j :: 0 <= j < |items| ==> Contributions(items, limits)[j].page < n
    ensures forall e :: e in OutlineOf(Contributions(items, limits), |items|) ==> e.container < n
  {
    forall e | e in OutlineOf(Contributions(items, limits), |items|) ensures e.container < n {
      var j := EntryPage(items, limits, |items|, e);
    }
  }

  /** The drafts as containers. */
  ghost predicate AreDrafts(containers: seq<MappedContainer>, drafts: map<int, Draft>) {
    forall i :: 0 <= i < |containers| ==>
      containers[i] == MappedContainer(i, DraftOf(drafts, i).blocks, DraftOf(drafts, i).regions)
  }

  lemma {:induction false} PagesDone(s: State, cs: seq<Contribution>, containers: seq<MappedContainer>)
    requires HoldsAll(s, cs, |cs|) && IdentifiedAll(s) && AreDrafts(containers, s.drafts)
    ensures forall i :: 0 <= i < |containers| ==> IsPage(containers[i], cs, i)
  {
    forall i | 0 <= i < |containers| ensures IsPage(containers[i], cs, i) {
      assert Holds(s, cs, |cs|, i);
      assert Identified(i, DraftOf(s.drafts, i).regions);
    }
  }

  /** What the loop keeps makes a document. */
  lemma {:induction false} KeptMakesDocument(s: State, items: seq<Item>, pages: set<int>, limits: Limits, bound: nat,
      containers: seq<MappedContainer>)
    requires Kept(s, Contributions(items, limits), |items|, pages, limits, bound) && |containers| <= bound
    requires forall j :: 0 <= j < |items| ==> Contributions(items, limits)[j].page < |containers|
    requires AreDrafts(containers, s.drafts)
    requires AssetTotal(containers, |containers|) == AssetsBelow(s.drafts, |containers|)
    ensures IsDocument(Document(containers, s.outline), Contributions(items, limits), limits)
  {
    PagesDone(s, Contributions(items, limits), containers);
    EntriesInside(items, limits, |containers|);
    AssetsMonotone(s.drafts, |containers|, bound);
  }

  /** What follows the loop: containers up to the last draft. */
  method FinishDocument(state: State, ghost pages: seq<int>, ghost items: seq<Item>, ghost limits: Limits,
      ghost start: set<int>, ghost bound: nat) returns (doc: Document)
    requires forall k :: k in start <==> k + 1 in pages || (pages == [] && k == 0)
    requires start != {} && (forall k :: k in start ==> k < bound) && limits.containers <= bound
    requires Kept(state, Contributions(items, limits), |items|, start, limits, bound)
    ensures IsDocument(doc, Contributions(items, limits), limits)
    ensures IsExtent(pages, Contributions(items, limits), |doc.containers|)
    ensures |doc.containers| <= limits.containers || |doc.containers| in pages + [1]
  {
    ghost var cs := Contributions(items, limits);
    assert state.drafts.Keys == start + PagesOf(cs, |cs|);
    assert |state.drafts| > 0 by {
      assert state.drafts.Keys != {};
    }
    var maximum := Maximum(state.drafts);
    MaximumBelow(cs, start, maximum, limits, bound);
    var containers := Containers(state.drafts, Max(0, maximum + 1));
    ExtentOf(pages, cs, start, state.drafts.Keys, maximum);
    ExtentWithin(pages, cs, |containers|, limits);
    KeptMakesDocument(state, items, start, limits, bound, containers);
    doc := Document(containers, state.outline);
  }

  lemma {:induction false} MaximumBelow(cs: seq<Contribution>, start: set<int>, maximum: int, limits: Limits,
      bound: nat)
    requires maximum in start + PagesOf(cs, |cs|) && (forall k :: k in start ==> k < bound)
    requires limits.containers <= bound && forall j :: 0 <= j < |cs| ==> cs[j].page < limits.containers
    ensures maximum < bound
  {
    InPagesOf(cs, |cs|, maximum);
  }

  /** `map`: it rejects, or yields containers numbered without a hole, within the limits. */
  method MapDocument(pages: seq<int>, items: seq<Item>, limits: Limits) returns (r: Result<Document, MapError>)
    ensures r.Ok? <==> |pages| <= limits.containers && forall k :: 0 <= k < |items| ==> Acceptable(items, limits, k)
    ensures r.Err? ==>
      Some(r.error) ==
        if |pages| > limits.containers then Some(TooManyContainers) else FirstError(items, limits, |items|)
    ensures r.Ok? ==> IsDocument(r.value, Contributions(items, limits), limits) && IsMapped(r.value, items, limits)
    ensures r.Ok? ==> IsExtent(pages, Contributions(items, limits), |r.value.containers|)
    ensures r.Ok? ==> |r.value.containers| <= limits.containers || |r.value.containers| in pages + [1]
  {
    if |pages| > limits.containers {
      return Err(TooManyContainers);
    }
    var drafts := StartDrafts(pages);
    ghost var bound := BoundOf(drafts, limits);
    var state :- MapItems(drafts, items, limits, bound);
    var doc := FinishDocument(state, pages, items, limits, drafts.Keys, bound);
    DocumentIsMapped(doc, items, limits);
    return Ok(doc);
  }

  /** Above every draft and every page that an item may have. */
  lemma {:induction false} BoundOf(drafts: map<int, Draft>, limits: Limits) returns (bound: nat)
    ensures limits.containers <= bound && forall k :: k in drafts.Keys ==> k < bound
  {
    bound := Above(drafts.Keys, limits.containers);
  }

  lemma {:induction false} Above(keys: set<int>, from: nat) returns (bound: nat)
    ensures from <= bound && forall k :: k in keys ==> k < bound
  {
    if keys == {} {
      bound := from;
    } else {
      NoneIsEmpty(keys);
      var k :| k in keys;
      var rest := Above(keys - {k}, from);
      bound := Max(rest, k + 1);
      assert forall j :: j in keys ==> j == k || j in keys - {k};
    }
  }

  // ----- What a document holds, told from its items -----

  /** The item is on page `i`, from 0: by its page number, and on the first page without one or with none above 0. */
  predicate OnPage(item: Item, i: nat) {
    match item.place
    case Nowhere => i == 0
    case At(number, _) => number == i + 1 || (i == 0 && number <= 0)
  }

  /** The item gives a block with this text. */
  ghost predicate GivesText(item: Item, text: string) {
    match item
    case TableItem(_, markdown) => text == Strip(markdown) != []
    case PictureItem(_, caption, _, _) =>
      text == if Strip(caption) == [] then "[Image]" else "[Image: " + Strip(caption) + "]"
    case HeadingItem(_, level, heading) =>
      Strip(heading) != [] && exists marks: string ::
        && |marks| == Max(0, Min(6, level)) && (forall c :: c in marks ==> c == '#')
        && text == marks + " " + Strip(heading)
    case TextItem(_, content) => text == Strip(content) != []
    case OtherItem(_) => false
  }

  /** A block of the item behind `k` blocks: at its own bounds, or stacked under them. */
  ghost predicate IsBlockOf(item: Item, k: nat, block: TextBlock) {
    && GivesText(item, block.text)
    && block.bounds == if item.place.At? then item.place.bounds else Bounds(0.0, k as real, 1.0, k as real + 1.0)
  }

  ghost predicate GivesBlock(item: Item) {
    exists text :: GivesText(item, text)
  }

  /** The image of item `k` fits its own limit and what the items before leave of the budget. */
  predicate KeepsImage(items: seq<Item>, limits: Limits, k: nat)
    requires k < |items|
  {
    && items[k].PictureItem? && items[k].png.Some? && |items[k].png.value| <= limits.imageBytes
    && TotalUpTo(items, limits, k) < limits.totalImageBytes
    && TotalUpTo(items, limits, k) + |items[k].png.value| <= limits.totalImageBytes
  }

  /** The region of item `k`, a table or a picture: its type, where its block is, and the image it keeps. */
  ghost predicate IsRegionOf(items: seq<Item>, limits: Limits, k: nat, block: TextBlock, region: Region)
    requires k < |items|
  {
    && (region.kind == Table <==> items[k].TableItem?) && region.bounds == block.bounds
    && (items[k].PictureItem? ==> region.kind == if items[k].chart then Chart else Image)
    && region.asset == if KeepsImage(items, limits, k) then items[k].png else None
  }

  /** Page `i` holds the blocks and regions of those among the first `n` items that are on it, in order. */
  ghost predicate HoldsItems(
    items: seq<Item>, limits: Limits, n: nat, i: nat, blocks: seq<TextBlock>, regions: seq<Region>)
    requires n <= |items|
    decreases n
  {
    if n == 0 then blocks == [] && regions == []
    else if !OnPage(items[n - 1], i) || !GivesBlock(items[n - 1]) then
      HoldsItems(items, limits, n - 1, i, blocks, regions)
    else
      && blocks != [] && IsBlockOf(items[n - 1], |blocks| - 1, blocks[|blocks| - 1])
      && if items[n - 1].TableItem? || items[n - 1].PictureItem? then
           && regions != [] && IsRegionOf(items, limits, n - 1, blocks[|blocks| - 1], regions[|regions| - 1])
           && HoldsItems(items, limits, n - 1, i, blocks[..|blocks| - 1], regions[..|regions| - 1])
         else HoldsItems(items, limits, n - 1, i, blocks[..|blocks| - 1], regions)
  }

  /** The outline holds the headings with text among the first `n` items, in order. */
  ghost predicate HoldsHeadings(items: seq<Item>, n: nat, outline: seq<OutlineEntry>)
    requires n <= |items|
    decreases n
  {
    if n == 0 then outline == []
    else if !items[n - 1].HeadingItem? || Strip(items[n - 1].text) == [] then HoldsHeadings(items, n - 1, outline)
    else
      && outline != []
      && var entry := outline[|outline| - 1];
      && entry.level == items[n - 1].level && entry.title == Strip(items[n - 1].text)
      && OnPage(items[n - 1], entry.container)
      && HoldsHeadings(items, n - 1, outline[..|outline| - 1])
  }

  /** Each container holds exactly the items of its page, and the outline their headings. */
  ghost predicate IsMapped(doc: Document, items: seq<Item>, limits: Limits) {
    && (forall i :: 0 <= i < |doc.containers| ==>
      && doc.containers[i].number == i
      && HoldsItems(items, limits, |items|, i, doc.containers[i].blocks, doc.containers[i].regions))
    && HoldsHeadings(items, |items|, doc.outline)
  }

  lemma {:induction false} PageIsOn(item: Item, i: nat)
    ensures PageOf(item.place) == i <==> OnPage(item, i)
  {
  }

  lemma {:induction false} HashesAre(n: int)
    ensures |Hashes(n)| == Max(0, n) && forall c :: c in Hashes(n) ==> c == '#'
  {
  }

  /** An item contributes the text that it gives, if it gives one. */
  lemma {:induction false} ContributesText(item: Item, limits: Limits, remaining: int)
    ensures
      var text := ContributionOf(item, limits, remaining).text;
      (text.Some? <==> GivesBlock(item)) && (text.Some? ==> GivesText(item, text.value))
  {
    var text := ContributionOf(item, limits, remaining).text;
    if item.HeadingItem? {
      HashesAre(Min(6, item.level));
    }
    if text.Some? {
      assert GivesText(item, text.value);
    }
  }

  lemma {:induction false} ContributesBlock(items: seq<Item>, limits: Limits, j: nat, k: nat)
    requires j < |items|
    ensures
      var block := BlockOf(ContributionAt(items, limits, j), k);
      (block.Some? <==> GivesBlock(items[j])) && (block.Some? ==> IsBlockOf(items[j], k, block.value))
  {
    ContributesText(items[j], limits, limits.totalImageBytes - TotalUpTo(items, limits, j));
  }

  lemma {:induction false} ContributesRegion(items: seq<Item>, limits: Limits, j: nat, k: nat, region: Region)
    requires j < |items| && GivesBlock(items[j])
    ensures
      var block, drawn := BlockOf(ContributionAt(items, limits, j), k), DrawnOf(ContributionAt(items, limits, j), k);
      && (drawn.Some? <==> items[j].TableItem? || items[j].PictureItem?)
      && (drawn == Some(DrawnBy(region)) ==> block.Some? && IsRegionOf(items, limits, j, block.value, region))
  {
    ContributesText(items[j], limits, limits.totalImageBytes - TotalUpTo(items, limits, j));
  }

  lemma {:induction false} NoBlockNoRegion(items: seq<Item>, limits: Limits, j: nat, k: nat)
    requires j < |items| && !GivesBlock(items[j])
    ensures DrawnOf(ContributionAt(items, limits, j), k) == None
  {
    ContributesText(items[j], limits, limits.totalImageBytes - TotalUpTo(items, limits, j));
  }

  /** Items on other pages and items without a block leave the page as it is. */
  lemma {:induction false} SkipsItem(items: seq<Item>, limits: Limits, n: nat, i: nat)
    requires 0 < n <= |items| && (!OnPage(items[n - 1], i) || !GivesBlock(items[n - 1]))
    ensures
      var cs := Contributions(items, limits);
      BlocksOn(cs, i, n) == BlocksOn(cs, i, n - 1) && DrawnOn(cs, i, n) == DrawnOn(cs, i, n - 1)
  {
    var k := |BlocksOn(Contributions(items, limits), i, n - 1)|;
    PageIsOn(items[n - 1], i);
    if !GivesBlock(items[n - 1]) {
      ContributesBlock(items, limits, n - 1, k);
      NoBlockNoRegion(items, limits, n - 1, k);
    }
  }

  lemma {:induction false} PageHoldsItems(items: seq<Item>, limits: Limits, n: nat, i: nat, regions: seq<Region>)
    requires n <= |items| && AllDrawn(regions) == DrawnOn(Contributions(items, limits), i, n)
    ensures HoldsItems(items, limits, n, i, BlocksOn(Contributions(items, limits), i, n), regions)
    decreases n
  {
    if n == 0 {
      assert |AllDrawn(regions)| == |regions|;
    } else if !OnPage(items[n - 1], i) || !GivesBlock(items[n - 1]) {
      SkipsItem(items, limits, n, i);
      PageHoldsItems(items, limits, n - 1, i, regions);
    } else {
      PageHoldsItem(items, limits, n, i, regions);
    }
  }

  lemma {:induction false} PageHoldsItem(items: seq<Item>, limits: Limits, n: nat, i: nat, regions: seq<Region>)
    requires 0 < n <= |items| && AllDrawn(regions) == DrawnOn(Contributions(items, limits), i, n)
    requires OnPage(items[n - 1], i) && GivesBlock(items[n - 1])
    ensures HoldsItems(items, limits, n, i, BlocksOn(Contributions(items, limits), i, n), regions)
    decreases n, 0
  {
    var cs := Contributions(items, limits);
    var before, blocks := BlocksOn(cs, i, n - 1), BlocksOn(cs, i, n);
    PageIsOn(items[n - 1], i);
    ContributesBlock(items, limits, n - 1, |before|);
    assert blocks[..|blocks| - 1] == before;
    if items[n - 1].TableItem? || items[n - 1].PictureItem? {
      var last := regions[|regions| - 1];
      ContributesRegion(items, limits, n - 1, |before|, last);
      LastDrawn(regions, DrawnOn(cs, i, n - 1), DrawnOf(cs[n - 1], |before|).value);
      PageHoldsItems(items, limits, n - 1, i, regions[..|regions| - 1]);
    } else {
      PageHoldsItems(items, limits, n - 1, i, regions);
    }
  }

  lemma {:induction false} LastDrawn(regions: seq<Region>, before: seq<Drawn>, last: Drawn)
    requires AllDrawn(regions) == before + [last]
    ensures |regions| == |before| + 1 && DrawnBy(regions[|before|]) == last
    ensures AllDrawn(regions[..|before|]) == before
  {
    assert |AllDrawn(regions)| == |regions|;
    assert AllDrawn(regions)[|before|] == last;
    assert AllDrawn(regions[..|before|]) == AllDrawn(regions)[..|before|];
  }

  lemma {:induction false} OutlineHoldsHeadings(items: seq<Item>, limits: Limits, n: nat)
    requires n <= |items|
    ensures HoldsHeadings(items, n, OutlineOf(Contributions(items, limits), n))
  {
    if n > 0 {
      OutlineHoldsHeadings(items, limits, n - 1);
      var before, outline := OutlineOf(Contributions(items, limits), n - 1), OutlineOf(Contributions(items, limits), n);
      if items[n - 1].HeadingItem? && Strip(items[n - 1].text) != [] {
        PageIsOn(items[n - 1], PageOf(items[n - 1].place));
        assert outline[..|outline| - 1] == before;
      }
    }
  }

  /** A document made of contributions is mapped from the items. */
  lemma {:induction false} DocumentIsMapped(doc: Document, items: seq<Item>, limits: Limits)
    requires IsDocument(doc, Contributions(items, limits), limits)
    ensures IsMapped(doc, items, limits)
  {
    forall i | 0 <= i < |doc.containers|
      ensures doc.containers[i].number == i
      ensures HoldsItems(items, limits, |items|, i, doc.containers[i].blocks, doc.containers[i].regions)
    {
      assert IsPage(doc.containers[i], Contributions(items, limits), i);
      PageHoldsItems(items, limits, |items|, i, doc.containers[i].regions);
    }
    OutlineHoldsHeadings(items, limits, |items|);
  }

  /** The block of an item on a page that holds its items. */
  lemma {:induction false} BlockOfItem(items: seq<Item>, limits: Limits, n: nat, i: nat, blocks: seq<TextBlock>,
      regions: seq<Region>, k: nat)
    returns (j: nat)
    requires k < n <= |items| && HoldsItems(items, limits, n, i, blocks, regions)
    requires OnPage(items[k], i) && GivesBlock(items[k])
    ensures j < |blocks| && IsBlockOf(items[k], j, blocks[j])
    decreases n
  {
    if k == n - 1 {
      j := |blocks| - 1;
    } else if !OnPage(items[n - 1], i) || !GivesBlock(items[n - 1]) {
      j := BlockOfItem(items, limits, n - 1, i, blocks, regions, k);
    } else if items[n - 1].TableItem? || items[n - 1].PictureItem? {
      j := BlockOfItem(items, limits, n - 1, i, blocks[..|blocks| - 1], regions[..|regions| - 1], k);
    } else {
      j := BlockOfItem(items, limits, n - 1, i, blocks[..|blocks| - 1], regions, k);
    }
  }

  /** Every block of a page is the block of an item on that page. */
  lemma {:induction false} ItemOfBlock(items: seq<Item>, limits: Limits, n: nat, i: nat, blocks: seq<TextBlock>,
      regions: seq<Region>, j: nat)
    returns (k: nat)
    requires n <= |items| && HoldsItems(items, limits, n, i, blocks, regions) && j < |blocks|
    ensures k < n && OnPage(items[k], i) && IsBlockOf(items[k], j, blocks[j])
    decreases n
  {
    if !OnPage(items[n - 1], i) || !GivesBlock(items[n - 1]) {
      k := ItemOfBlock(items, limits, n - 1, i, blocks, regions, j);
    } else if j == |blocks| - 1 {
      k := n - 1;
    } else if items[n - 1].TableItem? || items[n - 1].PictureItem? {
      k := ItemOfBlock(items, limits, n - 1, i, blocks[..|blocks| - 1], regions[..|regions| - 1], j);
    } else {
      k := ItemOfBlock(items, limits, n - 1, i, blocks[..|blocks| - 1], regions, j);
    }
  }

  /**
   The containers reach to the last page of the document or of an item, and there is one when
   there is neither. When every item names a page of the document, that is its greatest page.
   */
  lemma {:induction false} Reaches(pages: seq<int>, items: seq<Item>, limits: Limits, n: nat)
    requires IsExtent(pages, Contributions(items, limits), n)
    ensures forall p :: p in pages ==> p <= n
    ensures forall k, i: nat :: 0 <= k < |items| && OnPage(items[k], i) ==> i < n
    ensures n > 0 ==> n in pages || (pages == [] && n == 1) || exists k :: 0 <= k < |items| && OnPage(items[k], n - 1)
    ensures pages == [] && items == [] ==> n == 1
    ensures (pages != [] && (forall p :: p in pages ==> p >= 1)
      && forall k :: 0 <= k < |items| ==> items[k].place.At? && items[k].place.page in pages) ==> n in pages
  {
    var cs := Contributions(items, limits);
    forall k, i: nat | 0 <= k < |items| && OnPage(items[k], i) ensures cs[k].page == i < n {
      PageIsOn(items[k], i);
    }
    if k :| 0 <= k < |cs| && n > 0 && cs[k].page == n - 1 {
      PageIsOn(items[k], n - 1);
    }
    if pages != [] {
      assert pages[0] in pages;
    }
  }

  /** The error of the first item that is not acceptable tells which of its checks failed first. */
  lemma {:induction false} ErrorTells(items: seq<Item>, limits: Limits, n: nat) returns (k: nat)
    requires n <= |items| && FirstError(items, limits, n).Some?
    ensures k < n && !Acceptable(items, limits, k) && forall j :: 0 <= j < k ==> Acceptable(items, limits, j)
    ensures
      var error := FirstError(items, limits, n).value;
      var far := exists i: nat :: i >= limits.containers && OnPage(items[k], i);
      && (error == InvalidContainer <==> far)
      && (error == EmptyAsset <==> !far && KeepsImage(items, limits, k) && items[k].png == Some([]))
      && (error == InvalidOutline <==>
            !far && items[k].HeadingItem? && Strip(items[k].text) != [] && items[k].level < 1)
  {
    if FirstError(items, limits, n - 1).Some? {
      k := ErrorTells(items, limits, n - 1);
    } else {
      k := n - 1;
      AcceptableIffNoError(items, limits, k);
      PageIsOn(items[k], PageOf(items[k].place));
      forall i: nat | OnPage(items[k], i) ensures i == PageOf(items[k].place) {
        PageIsOn(items[k], i);
      }
    }
  }

  // ----- The writer can store the document -----

  function Stored(doc: Document): (cs: seq<Container>)
    ensures |cs| == |doc.containers|
  {
    seq(|doc.containers|, i requires 0 <= i < |doc.containers| =>
      Container(doc.containers[i].number, doc.containers[i].blocks, StoredRegions(doc.containers[i].regions)))
  }

  function StoredRegions(rs: seq<Region>): (vs: seq<VisualRegion>)
    ensures |vs| == |rs| && forall i :: 0 <= i < |rs| ==> vs[i] == VisualRegion(rs[i].id, rs[i].bounds)
  {
    seq(|rs|, i requires 0 <= i < |rs| => VisualRegion(rs[i].id, rs[i].bounds))
  }

  lemma {:induction false} BlocksHaveText(items: seq<Item>, limits: Limits, page: nat, n: nat, k: nat)
    requires n <= |items| && k < |BlocksOn(Contributions(items, limits), page, n)|
    ensures BlocksOn(Contributions(items, limits), page, n)[k].text != []
  {
    var cs := Contributions(items, limits);
    if k < |BlocksOn(cs, page, n - 1)| {
      BlocksHaveText(items, limits, page, n - 1, k);
    } else {
      TextsAreTexts(items[n - 1], limits, limits.totalImageBytes - TotalUpTo(items, limits, n - 1));
    }
  }

  lemma {:induction false} TextsAreTexts(item: Item, limits: Limits, remaining: int)
    ensures
      var text := ContributionOf(item, limits, remaining).text;
      text.Some? ==> text.value != []
  {
  }

  /**
   A mapped document has contiguous containers, no region id twice, as the tables of an
   artifact require, and text in every block, so that windows show exactly their regions.
   */
  lemma {:induction false} DocumentIsStorable(doc: Document, items: seq<Item>, limits: Limits)
    requires IsDocument(doc, Contributions(items, limits), limits)
    ensures Numbered(Stored(doc)) && DistinctRegionIds(Stored(doc)) && AllBlocksHaveText(Stored(doc))
  {
    var cs := Contributions(items, limits);
    var stored := Stored(doc);
    forall i | 0 <= i < |stored| ensures stored[i].number == i {
      assert IsPage(doc.containers[i], cs, i);
    }
    forall i, j | 0 <= i < |stored| && 0 <= j < |stored[i].blocks| ensures stored[i].blocks[j].text != [] {
      assert IsPage(doc.containers[i], cs, i);
      BlocksHaveText(items, limits, i, |items|, j);
    }
    forall i, k, i', k' |
      0 <= i < |stored| && 0 <= k < |stored[i].regions| && 0 <= i' < |stored| && 0 <= k' < |stored[i'].regions|
      && stored[i].regions[k].id == stored[i'].regions[k'].id
      ensures i == i' && k == k'
    {
      assert IsPage(doc.containers[i], cs, i) && IsPage(doc.containers[i'], cs, i');
      IdsApart(i, doc.containers[i].regions, k, i', doc.containers[i'].regions, k');
    }
  }

  // ----- The extents of stacked items -----

  function StackedAt(k: nat): Bounds {
    Bounds(0.0, k as real, 1.0, k as real + 1.0)
  }

  /** Of stacked boxes each meets itself alone. */
  lemma {:induction false} StackedApart(j: nat, k: nat)
    ensures StackedAt(j).Intersects(StackedAt(k)) <==> j == k
  {
    if j != k {
      EdgesDoNotMeet(StackedAt(j), StackedAt(k));
    }
  }

  /** Every region of a page is where a block of the page is. */
  lemma {:induction false} BlockOfRegion(items: seq<Item>, limits: Limits, n: nat, i: nat, blocks: seq<TextBlock>,
      regions: seq<Region>,
      k: nat) returns (j: nat)
    requires n <= |items| && HoldsItems(items, limits, n, i, blocks, regions) && k < |regions|
    ensures j < |blocks| && regions[k].bounds == blocks[j].bounds
    decreases n
  {
    if !OnPage(items[n - 1], i) || !GivesBlock(items[n - 1]) {
      j := BlockOfRegion(items, limits, n - 1, i, blocks, regions, k);
    } else if !items[n - 1].TableItem? && !items[n - 1].PictureItem? {
      j := BlockOfRegion(items, limits, n - 1, i, blocks[..|blocks| - 1], regions, k);
    } else if k == |regions| - 1 {
      j := |blocks| - 1;
    } else {
      j := BlockOfRegion(items, limits, n - 1, i, blocks[..|blocks| - 1], regions[..|regions| - 1], k);
    }
  }

  /**
   Where no item of a page has a place, the artifact gives each region of the page the extent
   of one block: the one the region was made with.
   */
  lemma {:induction false} StackedExtent(doc: Document, items: seq<Item>, limits: Limits, i: nat, k: nat,
      span: Option<Range>)
    returns (j: nat)
    requires IsMapped(doc, items, limits) && i < |doc.containers| && k < |doc.containers[i].regions|
    requires forall m :: 0 <= m < |items| && OnPage(items[m], i) ==> items[m].place.Nowhere?
    requires IsSpan(Stored(doc), i, k, span)
    ensures j < |doc.containers[i].blocks| && doc.containers[i].regions[k].bounds == doc.containers[i].blocks[j].bounds
    ensures span == Some(BlockRange(Stored(doc), i, j))
  {
    var blocks, regions, cs := doc.containers[i].blocks, doc.containers[i].regions, Stored(doc);
    forall m | 0 <= m < |blocks| ensures blocks[m].bounds == StackedAt(m) {
      var item := ItemOfBlock(items, limits, |items|, i, blocks, regions, m);
    }
    j := BlockOfRegion(items, limits, |items|, i, blocks, regions, k);
    forall m | 0 <= m < |blocks| ensures Meets(cs, i, k, m) <==> m == j {
      StackedApart(m, j);
    }
    OneBlockSpan(cs, i, k, j, span);
  }

  /** A region that meets one block alone has its extent. */
  lemma {:induction false} OneBlockSpan(cs: seq<Container>, i: nat, k: nat, j: nat, span: Option<Range>)
    requires i < |cs| && k < |cs[i].regions| && j < |cs[i].blocks| && IsSpan(cs, i, k, span)
    requires forall m :: 0 <= m < |cs[i].blocks| ==> (Meets(cs, i, k, m) <==> m == j)
    ensures span == Some(BlockRange(cs, i, j))
  {
    assert Meets(cs, i, k, j);
  }
}

/** Recognizing the text of scanned pages, a bounded number at a time. */
module PdfOcr {
  import opened Basics
  import opened PdfScan

  datatype Container<B, R> = Container(number: nat, width: real, height: real, blocks: B, regions: R)

  /** What the backend and the rasterizer give for each page, and what an empty page holds. */
  datatype Recognition<!B, !R> = Recognition(
    present: bool,
    maxConcurrency: int,
    rasterizes: nat -> bool,
    extract: nat -> Option<B>,
    regions: (nat, B) -> R,
    noBlocks: B,
    noRegions: R)

  datatype ProcessError =
    | OcrRequired(page: nat)
    | RasterizationFailed(page: nat)
    | OcrFailed(page: nat)
    | NoSuchPage(page: nat)
    | Incomplete

  /** The container of one page, by itself. */
  function PageOf<B, R>(d: Draft<B, R>, r: Recognition<B, R>): Option<Container<B, R>> {
    match d.route
    case Native => Some(Container(d.number, d.width, d.height, d.blocks, d.regions))
    case Blank => Some(Container(d.number, d.width, d.height, r.noBlocks, r.noRegions))
    case Ocr =>
      var blocks := r.extract(d.number);
      if blocks.None? then None
      else Some(Container(d.number, d.width, d.height, blocks.value, r.regions(d.number, blocks.value)))
  }

  /**
   The page is the one of this draft: its number and size, and what the scanner found on a native
   page, nothing on a blank one, and what is recognized, with the regions for that, on any other.
   */
  ghost predicate IsPageOf<B, R>(d: Draft<B, R>, r: Recognition<B, R>, page: Container<B, R>) {
    && page.number == d.number && page.width == d.width && page.height == d.height
    && (d.route == Native ==> page.blocks == d.blocks && page.regions == d.regions)
    && (d.route == Blank ==> page.blocks == r.noBlocks && page.regions == r.noRegions)
    && (d.route == Ocr ==>
      r.extract(d.number) == Some(page.blocks) && page.regions == r.regions(d.number, page.blocks))
  }

  /** A draft gives its page, and none exactly when its text cannot be recognized. */
  lemma {:induction false} GivesItsPage<B, R>(d: Draft<B, R>, r: Recognition<B, R>)
    ensures PageOf(d, r).Some? ==> IsPageOf(d, r, PageOf(d, r).value)
    ensures PageOf(d, r).None? <==> d.route == Ocr && r.extract(d.number).None?
  {
  }

  /** The drafts among the first `n` that need recognition. */
  function OcrDrafts<B, R>(ds: seq<Draft<B, R>>, n: nat): seq<Draft<B, R>>
    requires n <= |ds|
  {
    if n == 0 then [] else OcrDrafts(ds, n - 1) + if ds[n - 1].route.Ocr? then [ds[n - 1]] else []
  }

  // ----- The log of the pool -----

  datatype Event = Submitted(page: nat) | Resolved(page: nat)

  /** The pages submitted, in order. */
  function SubmittedPages(log: seq<Event>): seq<nat> {
    if log == [] then []
    else
      var e := log[|log| - 1];
      SubmittedPages(log[..|log| - 1]) + if e.Submitted? then [e.page] else []
  }

  function ResolvedPages(log: seq<Event>): seq<nat> {
    if log == [] then []
    else
      var e := log[|log| - 1];
      ResolvedPages(log[..|log| - 1]) + if e.Resolved? then [e.page] else []
  }

  /** At no time were more than `limit` jobs submitted and not yet resolved. */
  predicate Bounded(log: seq<Event>, limit: int) {
    log == [] || (Bounded(log[..|log| - 1], limit) && |SubmittedPages(log)| - |ResolvedPages(log)| <= limit)
  }

  lemma {:induction false} LogMore(log: seq<Event>, e: Event)
    ensures SubmittedPages(log + [e]) == SubmittedPages(log) + if e.Submitted? then [e.page] else []
    ensures ResolvedPages(log + [e]) == ResolvedPages(log) + if e.Resolved? then [e.page] else []
    ensures |log + [e]| > 0 && (log + [e])[..|log|] == log
  {
    assert (log + [e])[..|log|] == log;
  }

  function Numbers<B, R>(ds: seq<Draft<B, R>>): seq<nat> {
    seq(|ds|, i requires 0 <= i < |ds| => ds[i].number)
  }

  // ----- The pages -----

  /** Each filled page is the page of one of the first `n` drafts. */
  ghost predicate FromDrafts<B, R>(
      pages: seq<Option<Container<B, R>>>, ds: seq<Draft<B, R>>, r: Recognition<B, R>) {
    forall k :: 0 <= k < |pages| && pages[k].Some? ==>
      exists i :: 0 <= i < |ds| && ds[i].number == k && pages[k] == PageOf(ds[i], r)
  }

  lemma {:induction false} PutKeeps<B, R>(pages: seq<Option<Container<B, R>>>, ds: seq<Draft<B, R>>,
      r: Recognition<B, R>, i: nat)
    requires i < |ds| && PageOf(ds[i], r).Some? && ds[i].number < |pages| && FromDrafts(pages, ds, r)
    ensures FromDrafts(pages[ds[i].number := PageOf(ds[i], r)], ds, r)
  {
    var after := pages[ds[i].number := PageOf(ds[i], r)];
    forall k | 0 <= k < |after| && after[k].Some?
      ensures exists j :: 0 <= j < |ds| && ds[j].number == k && after[k] == PageOf(ds[j], r)
    {
      if k == ds[i].number {
        assert ds[i].number == k && after[k] == PageOf(ds[i], r);
      } else {
        assert pages[k] == after[k];
      }
    }
  }

  // ----- Numbers that hit every page -----

  /** The numbers of the first `n` drafts. */
  function Hit<B, R>(ds: seq<Draft<B, R>>, n: nat): set<nat>
    requires n <= |ds|
  {
    if n == 0 then {} else Hit(ds, n - 1) + {ds[n - 1].number}
  }

  predicate Distinct<B, R>(ds: seq<Draft<B, R>>, n: nat)
    requires n <= |ds|
  {
    n == 0 || (Distinct(ds, n - 1) && ds[n - 1].number !in Hit(ds, n - 1))
  }

  lemma {:induction false} HitSize<B, R>(ds: seq<Draft<B, R>>, n: nat)
    requires n <= |ds|
    ensures |Hit(ds, n)| <= n && (|Hit(ds, n)| == n <==> Distinct(ds, n))
  {
    if n > 0 {
      HitSize(ds, n - 1);
      if ds[n - 1].number in Hit(ds, n - 1) {
        assert Hit(ds, n) == Hit(ds, n - 1);
      }
    }
  }

  lemma {:induction false} HitAll<B, R>(ds: seq<Draft<B, R>>, n: nat, i: nat)
    requires i < n <= |ds|
    ensures ds[i].number in Hit(ds, n)
  {
    if i < n - 1 {
      HitAll(ds, n - 1, i);
    }
  }

  lemma {:induction false} HitFrom<B, R>(ds: seq<Draft<B, R>>, n: nat, k: nat) returns (i: nat)
    requires n <= |ds| && k in Hit(ds, n)
    ensures i < n && ds[i].number == k
  {
    if ds[n - 1].number == k {
      i := n - 1;
    } else {
      i := HitFrom(ds, n - 1, k);
    }
  }

  lemma {:induction false} DistinctApart<B, R>(ds: seq<Draft<B, R>>, n: nat, i: nat, j: nat)
    requires n <= |ds| && Distinct(ds, n) && i < j < n
    ensures ds[i].number != ds[j].number
  {
    if j < n - 1 {
      DistinctApart(ds, n - 1, i, j);
    } else {
      HitAll(ds, n - 1, i);
    }
  }

  function Below(n: nat): set<nat> {
    if n == 0 then {} else Below(n - 1) + {n - 1}
  }

  lemma {:induction false} BelowSize(n: nat)
    ensures |Below(n)| == n && forall k: nat :: k in Below(n) <==> k < n
  {
    if n > 0 {
      BelowSize(n - 1);
    }
  }

  lemma {:induction false} SubsetSize(a: set<nat>, b: set<nat>)
    requires a <= b
    ensures |a| <= |b| && (|a| == |b| ==> a == b)
  {
    var rest := b - a;
    assert a + rest == b;
    if |a| == |b| {
      assert |rest| == 0;
    }
  }

  /** As many drafts as pages, all in range: they hit every page exactly when no two have the same number. */
  lemma {:induction false} HitsAllIffDistinct<B, R>(ds: seq<Draft<B, R>>)
    requires forall d :: d in ds ==> d.number < |ds|
    ensures (forall k :: 0 <= k < |ds| ==> k in Hit(ds, |ds|)) <==> Distinct(ds, |ds|)
  {
    HitSize(ds, |ds|);
    BelowSize(|ds|);
    HitInRange(ds, |ds|);
    SubsetSize(Hit(ds, |ds|), Below(|ds|));
    if forall k :: 0 <= k < |ds| ==> k in Hit(ds, |ds|) {
      assert Hit(ds, |ds|) == Below(|ds|);
    }
    if Distinct(ds, |ds|) {
      assert Hit(ds, |ds|) == Below(|ds|);
    }
  }

  lemma {:induction false} HitInRange<B, R>(ds: seq<Draft<B, R>>, n: nat)
    requires n <= |ds| && forall d :: d in ds ==> d.number < |ds|
    ensures Hit(ds, n) <= Below(|ds|)
  {
    BelowSize(|ds|);
    if n > 0 {
      HitInRange(ds, n - 1);
      assert ds[n - 1] in ds;
    }
  }

  // ----- Processing -----

  /** Nothing about this page stands in the way. */
  ghost predicate Fine<B, R>(d: Draft<B, R>, n: nat, r: Recognition<B, R>) {
    d.number < n && (d.route.Ocr? ==> r.present && r.rasterizes(d.number) && r.extract(d.number).Some?)
  }

  ghost predicate AllFine<B, R>(ds: seq<Draft<B, R>>, r: Recognition<B, R>) {
    forall d :: d in ds ==> Fine(d, |ds|, r)
  }

  /** The first draft that needs recognition. */
  predicate IsFirstOcr<B, R>(ds: seq<Draft<B, R>>, i: nat) {
    i < |ds| && ds[i].route == Ocr && forall j :: 0 <= j < i ==> ds[j].route != Ocr
  }

  /** The error names what stands in the way. */
  ghost predicate Blames<B, R>(e: ProcessError, ds: seq<Draft<B, R>>, r: Recognition<B, R>) {
    match e
    case OcrRequired(page) =>
      !r.present && exists i: nat :: IsFirstOcr(ds, i) && ds[i].number == page
    case RasterizationFailed(page) =>
      r.present && !r.rasterizes(page) && exists d :: d in ds && d.route == Ocr && d.number == page
    case OcrFailed(page) =>
      r.present && r.extract(page) == None && exists d :: d in ds && d.route == Ocr && d.number == page
    case NoSuchPage(page) => page >= |ds| && exists d :: d in ds && d.number == page
    case Incomplete => AllFine(ds, r) && !Distinct(ds, |ds|)
  }

  lemma {:induction false} BlamedIsNotFine<B, R>(e: ProcessError, ds: seq<Draft<B, R>>, r: Recognition<B, R>)
    requires Blames(e, ds, r)
    ensures !AllFine(ds, r) || !Distinct(ds, |ds|)
  {
    if e.OcrRequired? {
      var i: nat :| IsFirstOcr(ds, i);
      assert ds[i] in ds && !Fine(ds[i], |ds|, r);
    }
  }

  lemma {:induction false} FirstOcr<B, R>(ds: seq<Draft<B, R>>, n: nat) returns (i: nat)
    requires n <= |ds| && OcrDrafts(ds, n) != []
    ensures i < n && IsFirstOcr(ds, i) && ds[i] == OcrDrafts(ds, n)[0]
  {
    if OcrDrafts(ds, n - 1) != [] {
      i := FirstOcr(ds, n - 1);
    } else {
      i := n - 1;
      forall j | 0 <= j < i ensures ds[j].route != Ocr {
        OcrDraftsFrom(ds, n - 1, ds[j]);
        assert ds[j] == ds[..n - 1][j];
      }
    }
  }

  lemma {:induction false} OcrDraftsFrom<B, R>(ds: seq<Draft<B, R>>, n: nat, d: Draft<B, R>)
    requires n <= |ds|
    ensures d in OcrDrafts(ds, n) <==> d in ds[..n] && d.route.Ocr?
  {
    if n > 0 {
      OcrDraftsFrom(ds, n - 1, d);
      assert ds[..n] == ds[..n - 1] + [ds[n - 1]];
    }
  }

  method PlaceScanned<B, R>(ds: seq<Draft<B, R>>, r: Recognition<B, R>)
    returns (res: Result<(seq<Option<Container<B, R>>>, seq<Draft<B, R>>), ProcessError>)
    ensures res.Err? ==> res.error.NoSuchPage? && Blames(res.error, ds, r)
    ensures res.Ok? ==>
      && |res.value.0| == |ds| && FromDrafts(res.value.0, ds, r) && res.value.1 == OcrDrafts(ds, |ds|)
      && forall i :: 0 <= i < |ds| && !ds[i].route.Ocr? ==> ds[i].number < |ds| && res.value.0[ds[i].number].Some?
  {
    var pages: seq<Option<Container<B, R>>> := seq(|ds|, i => None);
    var ocrDrafts: seq<Draft<B, R>> := [];
    var i := 0;
    while i < |ds|
      invariant 0 <= i <= |ds| && |pages| == |ds| && FromDrafts(pages, ds, r) && ocrDrafts == OcrDrafts(ds, i)
      invariant forall j :: 0 <= j < i && !ds[j].route.Ocr? ==> ds[j].number < |ds| && pages[ds[j].number].Some?
    {
      var draft := ds[i];
      if draft.route.Ocr? {
        ocrDrafts := ocrDrafts + [draft];
      } else {
        assert draft in ds;
        if draft.number >= |pages| {
          return Err(NoSuchPage(draft.number));
        }
        PutKeeps(pages, ds, r, i);
        pages := pages[draft.number := PageOf(draft, r)];
      }
      i := i + 1;
    }
    return Ok((pages, ocrDrafts));
  }

  /** A submitted job; its future yields what the backend extracts. */
  datatype Pending<B> = Pending(number: nat, width: real, height: real, future: Option<B>)

  function Submit<B, R>(d: Draft<B, R>, r: Recognition<B, R>): Pending<B> {
    Pending(d.number, d.width, d.height, r.extract(d.number))
  }

  /** `_resolve`: it waits for one job and files its page. */
  method Resolve<B, R>(pages: seq<Option<Container<B, R>>>, p: Pending<B>, ghost d: Draft<B, R>, r: Recognition<B, R>)
    returns (res: Result<seq<Option<Container<B, R>>>, ProcessError>)
    requires d.route.Ocr? && p == Submit(d, r)
    ensures res.Ok? <==> PageOf(d, r).Some? && d.number < |pages|
    ensures res.Err? ==>
      res.error == if r.extract(d.number).None? then OcrFailed(d.number) else NoSuchPage(d.number)
    ensures res.Ok? ==> res.value == pages[d.number := PageOf(d, r)]
  {
    if p.future.None? {
      return Err(OcrFailed(p.number));
    }
    var blocks := p.future.value;
    var c := Container(p.number, p.width, p.height, blocks, r.regions(p.number, blocks));
    if c.number >= |pages| {
      return Err(NoSuchPage(c.number));
    }
    return Ok(pages[c.number := Some(c)]);
  }

  /** The jobs that wait, in the order of their submission, are those of `ocr` from `resolved` up to `submitted`. */
  ghost predicate Waiting<B, R>(
      pending: seq<Pending<B>>, ocr: seq<Draft<B, R>>, resolved: nat, submitted: nat, r: Recognition<B, R>) {
    && resolved <= submitted <= |ocr| && |pending| == submitted - resolved
    && forall k :: 0 <= k < |pending| ==> pending[k] == Submit(ocr[resolved + k], r)
  }

  lemma {:induction false} WaitingMore<B, R>(pending: seq<Pending<B>>, ocr: seq<Draft<B, R>>, resolved: nat, i: nat,
      r: Recognition<B, R>)
    requires Waiting(pending, ocr, resolved, i, r) && i < |ocr|
    ensures Waiting(pending + [Submit(ocr[i], r)], ocr, resolved, i + 1, r)
  {
  }

  lemma {:induction false} WaitingLess<B, R>(pending: seq<Pending<B>>, ocr: seq<Draft<B, R>>, resolved: nat, i: nat,
      r: Recognition<B, R>)
    requires Waiting(pending, ocr, resolved, i, r) && pending != []
    ensures Waiting(pending[1..], ocr, resolved + 1, i, r)
    ensures pending[0] == Submit(ocr[resolved], r)
  {
  }

  /** The log after that many submissions and resolutions. */
  ghost predicate Logged<B, R>(log: seq<Event>, ocr: seq<Draft<B, R>>, resolved: nat, submitted: nat, limit: int) {
    && resolved <= submitted <= |ocr| && Bounded(log, limit)
    && SubmittedPages(log) == Numbers(ocr)[..submitted] && ResolvedPages(log) == Numbers(ocr)[..resolved]
  }

  lemma {:induction false} LogSubmitted<B, R>(log: seq<Event>, ocr: seq<Draft<B, R>>, resolved: nat, submitted: nat,
      limit: int)
    requires Logged(log, ocr, resolved, submitted, limit) && submitted < |ocr| && submitted - resolved < limit
    ensures Logged(log + [Submitted(ocr[submitted].number)], ocr, resolved, submitted + 1, limit)
  {
    LogMore(log, Submitted(ocr[submitted].number));
    assert Numbers(ocr)[..submitted + 1] == Numbers(ocr)[..submitted] + [ocr[submitted].number];
  }

  lemma {:induction false} LogResolved<B, R>(log: seq<Event>, ocr: seq<Draft<B, R>>, resolved: nat, submitted: nat,
      limit: int)
    requires Logged(log, ocr, resolved, submitted, limit) && resolved < submitted && submitted - resolved <= limit
    ensures Logged(log + [Resolved(ocr[resolved].number)], ocr, resolved + 1, submitted, limit)
  {
    LogMore(log, Resolved(ocr[resolved].number));
    assert Numbers(ocr)[..resolved + 1] == Numbers(ocr)[..resolved] + [ocr[resolved].number];
  }

  /** What both loops keep of the pages: only pages of drafts, and those resolved so far among them. */
  ghost predicate Filed<B, R>(
      pages: seq<Option<Container<B, R>>>, before: seq<Option<Container<B, R>>>, ds: seq<Draft<B, R>>,
      ocr: seq<Draft<B, R>>, resolved: nat, r: Recognition<B, R>) {
    && |pages| == |before| == |ds| && resolved <= |ocr| && FromDrafts(pages, ds, r)
    && (forall k :: 0 <= k < |pages| && before[k].Some? ==> pages[k].Some?)
    && (forall j :: 0 <= j < resolved ==> Fine(ocr[j], |ds|, r) && pages[ocr[j].number].Some?)
  }

  /** Filing the page of one more job. */
  lemma {:induction false} FileOne<B, R>(
      pages: seq<Option<Container<B, R>>>, before: seq<Option<Container<B, R>>>, ds: seq<Draft<B, R>>,
      ocr: seq<Draft<B, R>>, resolved: nat, r: Recognition<B, R>)
    requires Filed(pages, before, ds, ocr, resolved, r) && resolved < |ocr| && ocr == OcrDrafts(ds, |ds|)
    requires Fine(ocr[resolved], |ds|, r)
    ensures PageOf(ocr[resolved], r).Some?
    ensures
      Filed(pages[ocr[resolved].number := PageOf(ocr[resolved], r)], before, ds, ocr, resolved + 1, r)
  {
    var d := ocr[resolved];
    OcrDraftsFrom(ds, |ds|, d);
    assert ds[..|ds|] == ds;
    var i :| 0 <= i < |ds| && ds[i] == d;
    PutKeeps(pages, ds, r, i);
  }

  lemma {:induction false} OcrDraftIn<B, R>(ds: seq<Draft<B, R>>, j: nat)
    requires j < |OcrDrafts(ds, |ds|)|
    ensures OcrDrafts(ds, |ds|)[j] in ds && OcrDrafts(ds, |ds|)[j].route == Ocr
  {
    OcrDraftsFrom(ds, |ds|, OcrDrafts(ds, |ds|)[j]);
    assert ds[..|ds|] == ds;
  }

  /** Resolving the oldest job that waits. */
  method ResolveOldest<B, R>(
      pages: seq<Option<Container<B, R>>>, p: Pending<B>, ghost before: seq<Option<Container<B, R>>>,
      ghost ds: seq<Draft<B, R>>, ghost ocr: seq<Draft<B, R>>, r: Recognition<B, R>,
      ghost log: seq<Event>, ghost resolved: nat, ghost submitted: nat, ghost limit: int)
    returns (res: Result<seq<Option<Container<B, R>>>, ProcessError>, ghost after: seq<Event>)
    requires ocr == OcrDrafts(ds, |ds|) && r.present && resolved < submitted && submitted - resolved <= limit
    requires Logged(log, ocr, resolved, submitted, limit) && Filed(pages, before, ds, ocr, resolved, r)
    requires ocr[resolved].route.Ocr? && r.rasterizes(ocr[resolved].number) && p == Submit(ocr[resolved], r)
    ensures res.Ok? <==> Fine(ocr[resolved], |ds|, r)
    ensures res.Ok? ==> res.value == pages[ocr[resolved].number := PageOf(ocr[resolved], r)]
    ensures res.Err? ==> Blames(res.error, ds, r) && after == log
    ensures res.Ok? ==> Logged(after, ocr, resolved + 1, submitted, limit)
    ensures res.Ok? ==> Filed(res.value, before, ds, ocr, resolved + 1, r)
  {
    res := Resolve(pages, p, ocr[resolved], r);
    if res.Err? {
      OcrDraftIn(ds, resolved);
      return res, log;
    }
    FileOne(pages, before, ds, ocr, resolved, r);
    LogResolved(log, ocr, resolved, submitted, limit);
    after := log + [Resolved(p.number)];
  }

  /** The first `n` drafts for recognition could be rasterized. */
  predicate Rasterized<B, R>(ocr: seq<Draft<B, R>>, n: nat, r: Recognition<B, R>)
    requires n <= |ocr|
  {
    n == 0 || (Rasterized(ocr, n - 1, r) && ocr[n - 1].route.Ocr? && r.rasterizes(ocr[n - 1].number))
  }

  lemma {:induction false} RasterizedAt<B, R>(ocr: seq<Draft<B, R>>, n: nat, r: Recognition<B, R>, k: nat)
    requires k < n <= |ocr| && Rasterized(ocr, n, r)
    ensures ocr[k].route.Ocr? && r.rasterizes(ocr[k].number)
  {
    if k < n - 1 {
      RasterizedAt(ocr, n - 1, r, k);
    }
  }

  /** What the loop over the drafts keeps: the jobs up to `submitted` are submitted, those up to `resolved` filed. */
  ghost predicate InPool<B, R>(
      pages: seq<Option<Container<B, R>>>, pending: seq<Pending<B>>, before: seq<Option<Container<B, R>>>,
      ds: seq<Draft<B, R>>, ocr: seq<Draft<B, R>>, r: Recognition<B, R>, log: seq<Event>, resolved: nat,
      submitted: nat, limit: int) {
    && Waiting(pending, ocr, resolved, submitted, r) && Rasterized(ocr, submitted, r)
    && Logged(log, ocr, resolved, submitted, limit) && Filed(pages, before, ds, ocr, resolved, r)
  }

  lemma {:induction false} SubmittedOne<B, R>(
      pages: seq<Option<Container<B, R>>>, pending: seq<Pending<B>>, before: seq<Option<Container<B, R>>>,
      ds: seq<Draft<B, R>>, ocr: seq<Draft<B, R>>, r: Recognition<B, R>, log: seq<Event>, resolved: nat,
      submitted: nat, limit: int)
    requires InPool(pages, pending, before, ds, ocr, r, log, resolved, submitted, limit) && |pending| < limit
    requires submitted < |ocr| && ocr[submitted].route.Ocr? && r.rasterizes(ocr[submitted].number)
    ensures InPool(pages, pending + [Submit(ocr[submitted], r)], before, ds, ocr, r,
                   log + [Submitted(ocr[submitted].number)], resolved, submitted + 1, limit)
  {
    LogSubmitted(log, ocr, resolved, submitted, limit);
    WaitingMore(pending, ocr, resolved, submitted, r);
  }

  /** As soon as `limit` jobs wait the oldest is resolved. */
  method ResolveWhenFull<B, R>(
      pages: seq<Option<Container<B, R>>>, pending: seq<Pending<B>>, ghost before: seq<Option<Container<B, R>>>,
      ghost ds: seq<Draft<B, R>>, ghost ocr: seq<Draft<B, R>>, r: Recognition<B, R>,
      ghost log: seq<Event>, ghost resolved: nat, ghost submitted: nat, limit: int)
    returns (res: Result<(seq<Option<Container<B, R>>>, seq<Pending<B>>), ProcessError>,
             ghost after: seq<Event>, ghost done: nat)
    requires ocr == OcrDrafts(ds, |ds|) && r.present && 1 <= limit && |pending| <= limit
    requires InPool(pages, pending, before, ds, ocr, r, log, resolved, submitted, limit)
    ensures Bounded(after, limit)
    ensures res.Err? ==> Blames(res.error, ds, r)
    ensures res.Ok? ==>
      |res.value.1| < limit && InPool(res.value.0, res.value.1, before, ds, ocr, r, after, done, submitted, limit)
  {
    if |pending| < limit {
      return Ok((pages, pending)), log, resolved;
    }
    RasterizedAt(ocr, submitted, r, resolved);
    WaitingLess(pending, ocr, resolved, submitted, r);
    var more;
    more, after := ResolveOldest(pages, pending[0], before, ds, ocr, r, log, resolved, submitted, limit);
    if more.Err? {
      return Err(more.error), after, resolved;
    }
    return Ok((more.value, pending[1..])), after, resolved + 1;
  }

  /** The loop that submits in order, and resolves the oldest job as soon as `limit` are waiting. */
  method SubmitAll<B, R>(
      before: seq<Option<Container<B, R>>>, ghost ds: seq<Draft<B, R>>, ocr: seq<Draft<B, R>>, r: Recognition<B, R>,
      limit: int)
    returns (res: Result<(seq<Option<Container<B, R>>>, seq<Pending<B>>), ProcessError>,
             ghost log: seq<Event>, ghost resolved: nat)
    requires limit >= 1 && ocr == OcrDrafts(ds, |ds|) && r.present
    requires |before| == |ds| && FromDrafts(before, ds, r)
    ensures Bounded(log, limit)
    ensures res.Err? ==> Blames(res.error, ds, r)
    ensures res.Ok? ==>
      |res.value.1| < limit && InPool(res.value.0, res.value.1, before, ds, ocr, r, log, resolved, |ocr|, limit)
  {
    var pages := before;
    var pending: seq<Pending<B>> := [];
    log := [];
    resolved := 0;
    var i := 0;
    while i < |ocr|
      invariant 0 <= i <= |ocr| && |pending| < limit && Bounded(log, limit)
      invariant InPool(pages, pending, before, ds, ocr, r, log, resolved, i, limit)
    {
      var draft := ocr[i];
      OcrDraftIn(ds, i);
      if !r.rasterizes(draft.number) {
        return Err(RasterizationFailed(draft.number)), log, resolved;
      }
      SubmittedOne(pages, pending, before, ds, ocr, r, log, resolved, i, limit);
      pending := pending + [Submit(draft, r)];
      log := log + [Submitted(draft.number)];
      i := i + 1;
      var more;
      more, log, resolved := ResolveWhenFull(pages, pending, before, ds, ocr, r, log, resolved, i, limit);
      if more.Err? {
        return Err(more.error), log, resolved;
      }
      pages, pending := more.value.0, more.value.1;
    }
    return Ok((pages, pending)), log, resolved;
  }

  /** The pool: all drafts are submitted, and whatever still waits is resolved at the end. */
  method RunPool<B, R>(
      before: seq<Option<Container<B, R>>>, ghost ds: seq<Draft<B, R>>, ocr: seq<Draft<B, R>>, r: Recognition<B, R>,
      limit: int)
    returns (res: Result<seq<Option<Container<B, R>>>, ProcessError>, ghost log: seq<Event>)
    requires limit >= 1 && ocr == OcrDrafts(ds, |ds|) && r.present
    requires |before| == |ds| && FromDrafts(before, ds, r)
    ensures res.Err? ==> Blames(res.error, ds, r)
    ensures res.Ok? ==> Filed(res.value, before, ds, ocr, |ocr|, r)
    ensures res.Ok? ==> SubmittedPages(log) == Numbers(ocr) && ResolvedPages(log) == Numbers(ocr)
    ensures Bounded(log, limit)
  {
    var submitted;
    ghost var resolved;
    submitted, log, resolved := SubmitAll(before, ds, ocr, r, limit);
    if submitted.Err? {
      return Err(submitted.error), log;
    }
    var (pages, pending) := submitted.value;
    ghost var first := resolved;
    var k := 0;
    while k < |pending|
      invariant 0 <= k <= |pending| && resolved == first + k
      invariant Logged(log, ocr, resolved, |ocr|, limit) && Filed(pages, before, ds, ocr, resolved, r)
    {
      RasterizedAt(ocr, |ocr|, r, resolved);
      var more;
      more, log := ResolveOldest(pages, pending[k], before, ds, ocr, r, log, resolved, |ocr|, limit);
      if more.Err? {
        return Err(more.error), log;
      }
      pages, k, resolved := more.value, k + 1, resolved + 1;
    }
    assert Numbers(ocr)[..|ocr|] == Numbers(ocr);
    return Ok(pages), log;
  }

  /** `_completed_pages`. */
  method CompletedPages<B, R>(pages: seq<Option<Container<B, R>>>)
    returns (r: Result<seq<Container<B, R>>, ProcessError>)
    ensures r.Ok? <==> forall k :: 0 <= k < |pages| ==> pages[k].Some?
    ensures r.Ok? ==> |r.value| == |pages| && forall k :: 0 <= k < |pages| ==> pages[k] == Some(r.value[k])
    ensures r.Err? ==> r.error == Incomplete
  {
    var done: seq<Container<B, R>> := [];
    var i := 0;
    while i < |pages|
      invariant 0 <= i <= |pages| && |done| == i
      invariant forall k :: 0 <= k < i ==> pages[k] == Some(done[k])
    {
      if pages[i].None? {
        return Err(Incomplete);
      }
      done := done + [pages[i].value];
      i := i + 1;
    }
    return Ok(done);
  }

  /** All pages are there exactly when no two drafts claim the same one. */
  lemma {:induction false} CompleteIffDistinct<B, R>(pages: seq<Option<Container<B, R>>>, ds: seq<Draft<B, R>>,
      r: Recognition<B, R>)
    requires |pages| == |ds| && FromDrafts(pages, ds, r) && AllFine(ds, r)
    requires forall i :: 0 <= i < |ds| ==> ds[i].number < |ds| && pages[ds[i].number].Some?
    ensures (forall k :: 0 <= k < |pages| ==> pages[k].Some?) <==> Distinct(ds, |ds|)
  {
    forall d | d in ds ensures d.number < |ds| {
      assert Fine(d, |ds|, r);
    }
    HitsAllIffDistinct(ds);
    if Distinct(ds, |ds|) {
      forall k | 0 <= k < |pages| ensures pages[k].Some? {
        var i := HitFrom(ds, |ds|, k);
      }
    }
    if forall k :: 0 <= k < |pages| ==> pages[k].Some? {
      forall k | 0 <= k < |ds| ensures k in Hit(ds, |ds|) {
        assert pages[k].Some?;
        var i :| 0 <= i < |ds| && ds[i].number == k && pages[k] == PageOf(ds[i], r);
        HitAll(ds, |ds|, i);
      }
    }
  }

  lemma {:induction false} PageIsItsDraft<B, R>(pages: seq<Option<Container<B, R>>>, ds: seq<Draft<B, R>>,
      r: Recognition<B, R>, i: nat)
    requires FromDrafts(pages, ds, r) && Distinct(ds, |ds|) && i < |ds| && ds[i].number < |pages|
    requires pages[ds[i].number].Some?
    ensures pages[ds[i].number] == PageOf(ds[i], r)
  {
    var k := ds[i].number;
    var j :| 0 <= j < |ds| && ds[j].number == k && pages[k] == PageOf(ds[j], r);
    if i < j {
      DistinctApart(ds, |ds|, i, j);
    } else if j < i {
      DistinctApart(ds, |ds|, j, i);
    }
  }

  lemma {:induction false} AllInPlace<B, R>(
      pages: seq<Option<Container<B, R>>>, before: seq<Option<Container<B, R>>>, ds: seq<Draft<B, R>>,
      r: Recognition<B, R>)
    requires Filed(pages, before, ds, OcrDrafts(ds, |ds|), |OcrDrafts(ds, |ds|)|, r)
    requires forall i :: 0 <= i < |ds| && !ds[i].route.Ocr? ==> ds[i].number < |ds| && before[ds[i].number].Some?
    ensures AllFine(ds, r)
    ensures forall i :: 0 <= i < |ds| ==> ds[i].number < |ds| && pages[ds[i].number].Some?
  {
    var ocr := OcrDrafts(ds, |ds|);
    forall i | 0 <= i < |ds| ensures Fine(ds[i], |ds|, r) && pages[ds[i].number].Some? {
      if ds[i].route.Ocr? {
        OcrDraftsFrom(ds, |ds|, ds[i]);
        assert ds[..|ds|] == ds;
        var j :| 0 <= j < |ocr| && ocr[j] == ds[i];
        assert Fine(ocr[j], |ds|, r);
      }
    }
  }

  /**
   `process`: it succeeds exactly when nothing stands in the way of any page and no two drafts
   claim the same page; then every page is the one its draft gives by itself, whatever the
   concurrency, and every job was submitted and resolved once, in order.
   */
  method Process<B, R>(ds: seq<Draft<B, R>>, r: Recognition<B, R>, maxConcurrency: int)
    returns (res: Result<seq<Container<B, R>>, ProcessError>, ghost log: seq<Event>)
    ensures res.Ok? <==> AllFine(ds, r) && Distinct(ds, |ds|)
    ensures res.Ok? ==>
      && |res.value| == |ds|
      && forall i :: 0 <= i < |ds| ==> ds[i].number < |ds| && IsPageOf(ds[i], r, res.value[ds[i].number])
    ensures res.Err? ==> Blames(res.error, ds, r)
    ensures Bounded(log, Max(1, Min(maxConcurrency, r.maxConcurrency)))
    ensures res.Ok? ==>
      SubmittedPages(log) == Numbers(OcrDrafts(ds, |ds|)) && ResolvedPages(log) == Numbers(OcrDrafts(ds, |ds|))
  {
    log := [];
    var placed := PlaceScanned(ds, r);
    if placed.Err? {
      BlamedIsNotFine(placed.error, ds, r);
      return Err(placed.error), log;
    }
    var (pages, ocrDrafts) := placed.value;
    ghost var before := pages;
    if ocrDrafts != [] {
      if !r.present {
        ghost var i := FirstOcr(ds, |ds|);
        BlamedIsNotFine(OcrRequired(ocrDrafts[0].number), ds, r);
        return Err(OcrRequired(ocrDrafts[0].number)), log;
      }
      var pooled;
      pooled, log := RunPool(pages, ds, ocrDrafts, r, Max(1, Min(maxConcurrency, r.maxConcurrency)));
      if pooled.Err? {
        BlamedIsNotFine(pooled.error, ds, r);
        return Err(pooled.error), log;
      }
      pages := pooled.value;
    } else {
      assert Numbers(ocrDrafts) == [];
    }
    AllInPlace(pages, before, ds, r);
    CompleteIffDistinct(pages, ds, r);
    res := CompletedPages(pages);
    if res.Ok? {
      forall i | 0 <= i < |ds| ensures IsPageOf(ds[i], r, res.value[ds[i].number]) {
        PageIsItsDraft(pages, ds, r, i);
        GivesItsPage(ds[i], r);
      }
    }
  }

  // ----- Scanning and processing together -----

  lemma {:induction false} ScannedHit<B(!new), R(!new)>(scan: nat -> Draft<B, R>, n: nat, m: nat, k: nat)
    requires NumbersPages(scan) && m <= n && |Scanned(scan, 0, n)| == n && k in Hit(Scanned(scan, 0, n), m)
    ensures k < m
  {
    ScannedPage(scan, n, m - 1);
    if k != m - 1 {
      ScannedHit(scan, n, m - 1, k);
    }
  }

  lemma {:induction false} ScannedDistinct<B(!new), R(!new)>(scan: nat -> Draft<B, R>, n: nat, m: nat)
    requires NumbersPages(scan) && m <= n && |Scanned(scan, 0, n)| == n
    ensures Distinct(Scanned(scan, 0, n), m)
  {
    if m > 0 {
      ScannedDistinct(scan, n, m - 1);
      ScannedPage(scan, n, m - 1);
      if m - 1 in Hit(Scanned(scan, 0, n), m - 1) {
        ScannedHit(scan, n, m - 1, m - 1);
      }
    }
  }

  lemma {:induction false} ScannedLength<B(!new), R(!new)>(scan: nat -> Draft<B, R>, n: nat)
    requires NumbersPages(scan)
    ensures |Scanned(scan, 0, n)| == n
  {
    if n > 0 {
      ScannedPage(scan, n, 0);
    }
  }

  /** `extract`, after the document was opened: page by page what a sequential extraction gives. */
  method ExtractPages<B(!new), R(!new)>(
      scan: nat -> Draft<B, R>, n: nat, configured: Option<int>, maxWorkers: int, cpus: nat, poolPermitted: bool,
      r: Recognition<B, R>, maxConcurrency: int)
    returns (res: Result<seq<Container<B, R>>, ProcessError>)
    requires NumbersPages(scan)
    ensures res.Ok? <==> forall k :: 0 <= k < n ==> Fine(scan(k), n, r)
    ensures res.Ok? ==> |res.value| == n && forall k :: 0 <= k < n ==> IsPageOf(scan(k), r, res.value[k])
  {
    var drafts := ScanPages(scan, n, configured, maxWorkers, cpus, poolPermitted);
    ScannedLength(scan, n);
    ScannedDistinct(scan, n, n);
    forall k | 0 <= k < n ensures drafts[k] == scan(k) && drafts[k].number == k {
      ScannedPage(scan, n, k);
    }
    ghost var log;
    res, log := Process(drafts, r, maxConcurrency);
    FineEach(scan, drafts, n, r);
    if res.Ok? {
      forall k | 0 <= k < n ensures IsPageOf(scan(k), r, res.value[k]) {
        assert IsPageOf(drafts[k], r, res.value[drafts[k].number]);
      }
    }
  }

  lemma {:induction false} FineEach<B, R>(scan: nat -> Draft<B, R>, ds: seq<Draft<B, R>>, n: nat, r: Recognition<B, R>)
    requires |ds| == n && forall k :: 0 <= k < n ==> ds[k] == scan(k)
    ensures AllFine(ds, r) <==> forall k :: 0 <= k < n ==> Fine(scan(k), n, r)
  {
    if forall k :: 0 <= k < n ==> Fine(scan(k), n, r) {
      forall d | d in ds ensures Fine(d, |ds|, r) {
        var k :| 0 <= k < n && ds[k] == d;
      }
    }
    if AllFine(ds, r) {
      forall k | 0 <= k < n ensures Fine(scan(k), n, r) {
        assert ds[k] in ds;
      }
    }
  }
}

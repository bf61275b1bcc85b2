/** Scanning the pages of a PDF, in one process or in several. */
module PdfScan {
  import opened Basics

  const PARALLEL_SCAN_MIN_PAGES := 32

  datatype Route = Native | Blank | Ocr

  /** A scanned page; blocks and regions are what the scanner found on it. */
  datatype Draft<B, R> = Draft(number: nat, width: real, height: real, route: Route, blocks: B, regions: R)

  /** The page scanner: the draft of a page carries the number of the page. */
  ghost predicate NumbersPages<B(!new), R(!new)>(scan: nat -> Draft<B, R>) {
    forall k :: scan(k).number == k
  }

  /** `_scan_worker_count`. */
  function WorkerCount(pages: nat, configured: Option<int>, maxWorkers: int, cpus: nat): (w: int)
    ensures 1 <= w <= Max(1, Min(maxWorkers, pages))
  {
    if configured.Some? then Max(1, Min(maxWorkers, Min(configured.value, pages)))
    else if pages < PARALLEL_SCAN_MIN_PAGES then 1
    else Max(1, Min(maxWorkers, Min(if cpus == 0 then 1 else cpus, pages)))
  }

  /**
   One worker for a short document when nothing is configured. Otherwise as many as configured, or
   as there are processors: no more than that, than allowed or than pages, but for the one there
   always is, and no fewer.
   */
  lemma {:induction false} WorkersAreFew(pages: nat, configured: Option<int>, maxWorkers: int, cpus: nat)
    ensures
      var w := WorkerCount(pages, configured, maxWorkers, cpus);
      var wanted := if configured.Some? then configured.value else cpus;
      if configured.None? && pages < 32 then w == 1
      else
        && (w > 1 ==> w <= wanted && w <= maxWorkers && w <= pages)
        && (w >= wanted || w >= maxWorkers || w >= pages)
  {
  }

  datatype Range = Range(start: nat, end: nat)

  /** `ranges` cuts `[0, n)` into stretches that follow each other. */
  predicate Covers(ranges: seq<Range>, n: nat) {
    if ranges == [] then n == 0
    else
      var last := ranges[|ranges| - 1];
      last.end == n && last.start < last.end && Covers(ranges[..|ranges| - 1], last.start)
  }

  /** The drafts of pages `lo` up to `hi`: what a sequential scan gives. */
  function Scanned<B, R>(scan: nat -> Draft<B, R>, lo: nat, hi: nat): seq<Draft<B, R>>
    requires lo <= hi
    decreases hi - lo
  {
    if lo == hi then [] else Scanned(scan, lo, hi - 1) + [scan(hi - 1)]
  }

  lemma {:induction false} ScannedJoin<B, R>(scan: nat -> Draft<B, R>, lo: nat, mid: nat, hi: nat)
    requires lo <= mid <= hi
    ensures Scanned(scan, lo, mid) + Scanned(scan, mid, hi) == Scanned(scan, lo, hi)
    decreases hi - mid
  {
    if mid < hi {
      ScannedJoin(scan, lo, mid, hi - 1);
      assert Scanned(scan, lo, mid) + Scanned(scan, mid, hi)
          == Scanned(scan, lo, mid) + Scanned(scan, mid, hi - 1) + [scan(hi - 1)];
    }
  }

  /** The results of the pool, in the order of the ranges. */
  function Batches<B, R>(scan: nat -> Draft<B, R>, ranges: seq<Range>): seq<Draft<B, R>>
    requires forall r :: r in ranges ==> r.start <= r.end
  {
    if ranges == [] then []
    else
      var last := ranges[|ranges| - 1];
      Batches(scan, ranges[..|ranges| - 1]) + Scanned(scan, last.start, last.end)
  }

  lemma {:induction false} BatchesAreScanned<B, R>(scan: nat -> Draft<B, R>, ranges: seq<Range>, n: nat)
    requires Covers(ranges, n)
    ensures forall r :: r in ranges ==> r.start <= r.end
    ensures Batches(scan, ranges) == Scanned(scan, 0, n)
  {
    if ranges != [] {
      var front, last := ranges[..|ranges| - 1], ranges[|ranges| - 1];
      BatchesAreScanned(scan, front, last.start);
      ScannedJoin(scan, 0, last.start, n);
      assert ranges == front + [last];
    }
  }

  // ----- sorted(..., key=number) -----

  function Insert<B, R>(d: Draft<B, R>, ds: seq<Draft<B, R>>): seq<Draft<B, R>> {
    if ds == [] || ds[|ds| - 1].number <= d.number then ds + [d]
    else Insert(d, ds[..|ds| - 1]) + [ds[|ds| - 1]]
  }

  function SortByNumber<B, R>(ds: seq<Draft<B, R>>): seq<Draft<B, R>> {
    if ds == [] then [] else Insert(ds[|ds| - 1], SortByNumber(ds[..|ds| - 1]))
  }

  lemma {:induction false} ScannedIsSorted<B(!new), R(!new)>(scan: nat -> Draft<B, R>, n: nat)
    requires NumbersPages(scan)
    ensures SortByNumber(Scanned(scan, 0, n)) == Scanned(scan, 0, n)
    ensures n > 0 ==> Scanned(scan, 0, n) != [] && Scanned(scan, 0, n)[|Scanned(scan, 0, n)| - 1].number == n - 1
  {
    if n > 0 {
      ScannedIsSorted(scan, n - 1);
      var front := Scanned(scan, 0, n - 1);
      assert (front + [scan(n - 1)])[..|front|] == front;
    }
  }

  lemma {:induction false} ScannedPage<B(!new), R(!new)>(scan: nat -> Draft<B, R>, n: nat, k: nat)
    requires NumbersPages(scan) && k < n
    ensures |Scanned(scan, 0, n)| == n && Scanned(scan, 0, n)[k] == scan(k) && scan(k).number == k
  {
    if k < n - 1 {
      ScannedPage(scan, n - 1, k);
    } else if n > 1 {
      ScannedPage(scan, n - 1, 0);
    }
  }

  // ----- The ranges -----

  /** `math.ceil(n / workers)`. */
  function ChunkSize(n: nat, workers: nat): (c: nat)
    requires workers > 0
    ensures c * workers >= n && (n > 0 ==> c > 0 && (c - 1) * workers < n)
  {
    (n + workers - 1) / workers
  }

  lemma {:induction false} FewChunks(n: nat, workers: nat, count: nat)
    requires workers > 0 && n > 0 && count > 0
    requires (count - 1) * ChunkSize(n, workers) < n
    ensures count <= workers
  {
    if count > workers {
      TimesLe(workers, count - 1, ChunkSize(n, workers));
    }
  }

  lemma {:induction false} TimesLe(a: nat, b: nat, c: nat)
    requires a <= b
    ensures a * c <= b * c
  {
  }

  /** The ranges cover the pages up to `done`, each as large as can be. */
  ghost predicate Chunks(ranges: seq<Range>, n: nat, chunk: nat, done: nat) {
    Covers(ranges, done) && forall i :: 0 <= i < |ranges| ==> ranges[i].end == Min(n, ranges[i].start + chunk)
  }

  lemma {:induction false} OneMoreChunk(ranges: seq<Range>, n: nat, chunk: nat, start: nat)
    requires Chunks(ranges, n, chunk, start) && start < n && chunk > 0
    ensures Chunks(ranges + [Range(start, Min(n, start + chunk))], n, chunk, Min(n, start + chunk))
  {
    var more := ranges + [Range(start, Min(n, start + chunk))];
    assert more[..|more| - 1] == ranges;
  }

  method PageRanges(n: nat, workers: nat) returns (ranges: seq<Range>)
    requires workers > 0 && n > 0
    ensures Covers(ranges, n) && 1 <= |ranges| <= workers
    ensures forall i :: 0 <= i < |ranges| ==> ranges[i].end == Min(n, ranges[i].start + ChunkSize(n, workers))
  {
    var chunk := ChunkSize(n, workers);
    ranges := [];
    var start := 0;
    while start < n
      invariant Chunks(ranges, n, chunk, Min(n, start)) && start == |ranges| * chunk
      invariant ranges != [] ==> (|ranges| - 1) * chunk < n
      decreases n - start
    {
      OneMoreChunk(ranges, n, chunk, start);
      ranges := ranges + [Range(start, Min(n, start + chunk))];
      start := start + chunk;
    }
    FewChunks(n, workers, |ranges|);
  }

  /** `_scan_pages`: with any number of workers, the drafts of pages 0, 1, and so on. */
  method ScanPages<B(!new), R(!new)>(
      scan: nat -> Draft<B, R>, n: nat, configured: Option<int>, maxWorkers: int, cpus: nat, poolPermitted: bool)
    returns (drafts: seq<Draft<B, R>>)
    requires NumbersPages(scan)
    ensures drafts == Scanned(scan, 0, n)
  {
    var workers := WorkerCount(n, configured, maxWorkers, cpus);
    if workers == 1 {
      return Scanned(scan, 0, n);
    }
    var ranges := PageRanges(n, workers);
    BatchesAreScanned(scan, ranges, n);
    if !poolPermitted {
      return Scanned(scan, 0, n);
    }
    ScannedIsSorted(scan, n);
    return SortByNumber(Batches(scan, ranges));
  }
}

/** What two accepted PE images have in common when their Authenticode digests cover the same bytes. */
module DigestCoverage {
  import opened Basics
  import opened PeImage
  import opened Authenticode

  // ----- The layout can be read from what is hashed -----

  lemma {:induction false} HeadersLeadSections(image: bytes, h: Header, rs: seq<Raw>, n: nat)
    requires Laid(h, |image|) && n <= |rs| && Inside(rs, h.sizeOfHeaders, |image|, n)
    ensures HeaderBytes(image, h) <= HashedBytes(image, h, rs, n)
  {
    if n > 0 {
      HeadersLeadSections(image, h, rs, n - 1);
      PrefixAppend(HeaderBytes(image, h), HashedBytes(image, h, rs, n - 1),
                   Part(image, rs[n - 1].offset, rs[n - 1].offset + rs[n - 1].size));
    }
  }

  lemma {:induction false} CoveredBegins(image: bytes, h: Header, rs: seq<Raw>, certificate: nat)
    requires Laid(h, |image|) && Inside(rs, h.sizeOfHeaders, |image|, |rs|)
    requires HashedUpTo(rs, h.sizeOfHeaders, |rs|) + certificate <= |image|
    ensures Unsigned(image, h, h.sizeOfHeaders) <= CoveredBytes(image, h, rs, certificate)
  {
    HeadersAreUnsigned(image, h);
    HeadersLeadSections(image, h, rs, |rs|);
    PrefixAppend(HeaderBytes(image, h), HashedBytes(image, h, rs, |rs|),
                 Part(image, HashedUpTo(rs, h.sizeOfHeaders, |rs|), |image| - certificate));
  }

  /** What is known of an accepted image, without the definition of the hash input. */
  ghost predicate IsAccepted(image: bytes, d: Digested) {
    && Parse(image) == Ok(d.layout) && IsRead(image, d.layout.header) && Readable(image, d.layout)
    && HashedUpTo(InFileOrder(d.layout), d.layout.header.sizeOfHeaders, |InFileOrder(d.layout)|) + d.certificate
       <= |image|
    && d.hashed == CoveredBytes(image, d.layout.header, InFileOrder(d.layout), d.certificate)
  }

  lemma {:induction false} Accepted(image: bytes, d: Digested)
    requires HashInput(image) == Ok(d)
    ensures IsAccepted(image, d)
  {
    AcceptedIsCovered(image, d);
    HeaderIsRead(image);
  }

  /** The headers of `image`, without checksum and security entry, are the beginning of `hashed`. */
  ghost predicate Leads(image: bytes, h: Header, hashed: bytes) {
    Laid(h, |image|) && IsRead(image, h) && Unsigned(image, h, h.sizeOfHeaders) <= hashed
  }

  lemma {:induction false} AcceptedLeads(image: bytes, d: Digested)
    requires IsAccepted(image, d)
    ensures Leads(image, d.layout.header, d.hashed)
  {
    CoveredBegins(image, d.layout.header, InFileOrder(d.layout), d.certificate);
  }

  lemma {:induction false} PlacedInHash(image: bytes, h: Header, hashed: bytes, k: nat)
    requires Leads(image, h, hashed) && k < h.sizeOfHeaders && !Unpinned(h, k)
    ensures Place(h, k) < |hashed| && hashed[Place(h, k)] == image[k]
  {
    Placed(image, h, h.sizeOfHeaders, k);
  }

  lemma {:induction false} FieldFromHash(a: bytes, b: bytes, g: Header, h: Header, hashed: bytes, offset: nat)
    requires Leads(a, g, hashed) && Leads(b, h, hashed)
    requires offset + 4 <= g.sizeOfHeaders && offset + 4 <= h.sizeOfHeaders
    requires forall k :: offset <= k < offset + 4 ==> !Unpinned(g, k) && !Unpinned(h, k) && Place(g, k) == Place(h, k)
    ensures Field(a, offset, 4) == Field(b, offset, 4)
  {
    forall k | offset <= k < offset + 4 ensures a[k] == b[k] {
      PlacedInHash(a, g, hashed, k);
      PlacedInHash(b, h, hashed, k);
    }
    LittleSame(a, b, offset, offset + 4);
  }

  /** The beginning of the hashed bytes tells where its own end is, and all pinned bytes before it. */
  lemma {:induction false} HashTellsHeaders(a: bytes, b: bytes, g: Header, h: Header, hashed: bytes)
    requires Leads(a, g, hashed) && Leads(b, h, hashed)
    ensures AgreeBelow(a, b, g, g.sizeOfHeaders)
  {
    FieldFromHash(a, b, g, h, hashed, 0x3c);
    assert g.checksum == h.checksum;
    FieldFromHash(a, b, g, h, hashed, g.checksum + 44);
    FieldFromHash(a, b, g, h, hashed, g.checksum - 4);
    assert g.numberOfDirectories == h.numberOfDirectories && g.sizeOfHeaders == h.sizeOfHeaders;
    forall k | 0 <= k < g.sizeOfHeaders && !Unpinned(g, k) ensures a[k] == b[k] {
      PlacedInHash(a, g, hashed, k);
      PlacedInHash(b, h, hashed, k);
    }
  }

  /** Any two accepted images, with or without gaps: the same hash input means the same layout. */
  lemma {:induction false} HashTellsLayout(a: bytes, b: bytes, x: Digested, y: Digested)
    requires HashInput(a) == Ok(x) && HashInput(b) == Ok(y) && x.hashed == y.hashed
    ensures x.layout == y.layout
  {
    Accepted(a, x);
    Accepted(b, y);
    AcceptedLeads(a, x);
    AcceptedLeads(b, y);
    HashTellsHeaders(a, b, x.layout.header, y.layout.header, x.hashed);
    SameLayout(a, b, x.layout.header.sizeOfHeaders);
  }

  // ----- Images that differ in nothing but their signature -----

  /** `a` and `b` differ in nothing but checksum, security entry and certificate. */
  ghost predicate SameButSignature(a: bytes, b: bytes, x: Digested, y: Digested) {
    && x.certificate <= |a| && y.certificate <= |b|
    && |a| - x.certificate == |b| - y.certificate
    && AgreeBelow(a, b, x.layout.header, |a| - x.certificate)
  }

  lemma {:induction false} LayoutKept(a: bytes, b: bytes, x: Digested, y: Digested)
    requires HashInput(a) == Ok(x) && HashInput(b) == Ok(y) && SameButSignature(a, b, x, y)
    ensures x.layout == y.layout
  {
    Accepted(a, x);
    Accepted(b, y);
    SameLayout(a, b, |a| - x.certificate);
  }

  lemma {:induction false} UnsignedPins(a: bytes, b: bytes, x: Digested, y: Digested)
    requires IsUnsigned(a, x) && IsUnsigned(b, y) && x.layout == y.layout
    ensures x.hashed == y.hashed <==> SameButSignature(a, b, x, y)
  {
    var h := x.layout.header;
    var end, last := |a| - x.certificate, |b| - y.certificate;
    if x.hashed == y.hashed {
      HashedAlikeAgree(a, b, h, h, end, last);
    }
    if SameButSignature(a, b, x, y) {
      AgreeingHashAlike(a, b, h, h, end);
    }
  }

  /**
   The digest input of an accepted image without gaps pins everything but the checksum, the
   security entry and the certificate: any accepted image, with or without gaps, has the same
   input exactly when it agrees everywhere else.
   */
  lemma {:induction false} DigestPinsImage(a: bytes, b: bytes, x: Digested, y: Digested)
    requires HashInput(a) == Ok(x) && HashInput(b) == Ok(y) && GapFree(x.layout)
    ensures x.hashed == y.hashed <==> SameButSignature(a, b, x, y)
  {
    if x.hashed == y.hashed || SameButSignature(a, b, x, y) {
      if x.hashed == y.hashed {
        HashTellsLayout(a, b, x, y);
      } else {
        LayoutKept(a, b, x, y);
      }
      GapFreeCoversImage(a, x);
      GapFreeCoversImage(b, y);
      UnsignedPins(a, b, x, y);
    }
  }

  /** Every accepted image with the digest input of `a` differs from it in nothing but its signature. */
  ghost predicate PinnedByDigest(a: bytes, x: Digested) {
    forall b: bytes, y: Digested ::
      HashInput(b) == Ok(y) && y.hashed == x.hashed ==> SameButSignature(a, b, x, y)
  }

  /** The exact condition: a digest input pins its image if and only if the image has no gap. */
  lemma {:induction false} PinnedIffGapFree(a: bytes, x: Digested)
    requires HashInput(a) == Ok(x)
    ensures PinnedByDigest(a, x) <==> GapFree(x.layout)
  {
    if GapFree(x.layout) {
      forall b: bytes, y: Digested | HashInput(b) == Ok(y) && y.hashed == x.hashed
        ensures SameButSignature(a, b, x, y)
      {
        DigestPinsImage(a, b, x, y);
      }
    } else {
      var p := GapEscapesDigest(a, x);
      var b := OtherByte(a, p);
      Accepted(a, x);
      DiffersPinned(a, b, x, p);
    }
  }

  /** The image with another byte at `p`. */
  lemma {:induction false} OtherByte(a: bytes, p: nat) returns (b: bytes)
    requires p < |a|
    ensures DiffersAt(a, b, p) && b[p] != a[p]
  {
    b := a[p := if a[p] == 0 then 1 else 0];
  }

  lemma {:induction false} DiffersPinned(a: bytes, b: bytes, x: Digested, p: nat)
    requires IsAccepted(a, x) && DiffersAt(a, b, p) && b[p] != a[p]
    requires x.layout.header.sizeOfHeaders <= p < |a| - x.certificate
    ensures !SameButSignature(a, b, x, x)
  {
    assert !Unpinned(x.layout.header, p);
  }

  // ----- The sections can be read from what is hashed -----

  lemma {:induction false} LastSplits(front: bytes, last: bytes, other: bytes, otherLast: bytes)
    requires front + last == other + otherLast && |front| == |other|
    ensures front == other && last == otherLast
  {
    assert (front + last)[..|front|] == front && (other + otherLast)[..|other|] == other;
    assert (front + last)[|front|..] == last && (other + otherLast)[|other|..] == otherLast;
  }

  lemma {:induction false} HashedSplits(a: bytes, b: bytes, h: Header, rs: seq<Raw>, n: nat)
    requires Laid(h, |a|) && Laid(h, |b|) && 0 < n <= |rs|
    requires Inside(rs, h.sizeOfHeaders, |a|, n) && Inside(rs, h.sizeOfHeaders, |b|, n)
    requires HashedBytes(a, h, rs, n) == HashedBytes(b, h, rs, n)
    ensures HashedBytes(a, h, rs, n - 1) == HashedBytes(b, h, rs, n - 1)
    ensures
      var lo, hi := rs[n - 1].offset, rs[n - 1].offset + rs[n - 1].size;
      Part(a, lo, hi) == Part(b, lo, hi)
  {
    var lo, hi := rs[n - 1].offset, rs[n - 1].offset + rs[n - 1].size;
    HashedBytesLength(a, h, rs, n - 1);
    HashedBytesLength(b, h, rs, n - 1);
    LastSplits(HashedBytes(a, h, rs, n - 1), Part(a, lo, hi), HashedBytes(b, h, rs, n - 1), Part(b, lo, hi));
  }

  lemma {:induction false} SameSlice(a: bytes, b: bytes, lo: nat, hi: nat)
    requires lo <= hi <= |a| && hi <= |b| && Part(a, lo, hi) == Part(b, lo, hi)
    ensures a[lo..hi] == b[lo..hi]
  {
    PartIsSlice(a, lo, hi);
    PartIsSlice(b, lo, hi);
  }

  /** Sections are hashed whole, one after the other. */
  lemma {:induction false} HashTellsSection(a: bytes, b: bytes, h: Header, rs: seq<Raw>, n: nat, j: nat)
    requires Laid(h, |a|) && Laid(h, |b|) && j < n <= |rs|
    requires Inside(rs, h.sizeOfHeaders, |a|, n) && Inside(rs, h.sizeOfHeaders, |b|, n)
    requires HashedBytes(a, h, rs, n) == HashedBytes(b, h, rs, n)
    ensures rs[j].offset + rs[j].size <= |a| && rs[j].offset + rs[j].size <= |b|
    ensures a[rs[j].offset..rs[j].offset + rs[j].size] == b[rs[j].offset..rs[j].offset + rs[j].size]
  {
    HashedSplits(a, b, h, rs, n);
    if j == n - 1 {
      SameSlice(a, b, rs[j].offset, rs[j].offset + rs[j].size);
    } else {
      HashTellsSection(a, b, h, rs, n - 1, j);
    }
  }

  lemma {:induction false} CoveredTellsSections(a: bytes, b: bytes, h: Header, rs: seq<Raw>, c: nat, e: nat)
    requires Laid(h, |a|) && Laid(h, |b|)
    requires Inside(rs, h.sizeOfHeaders, |a|, |rs|) && Inside(rs, h.sizeOfHeaders, |b|, |rs|)
    requires HashedUpTo(rs, h.sizeOfHeaders, |rs|) + c <= |a| && HashedUpTo(rs, h.sizeOfHeaders, |rs|) + e <= |b|
    requires CoveredBytes(a, h, rs, c) == CoveredBytes(b, h, rs, e)
    ensures HashedBytes(a, h, rs, |rs|) == HashedBytes(b, h, rs, |rs|)
  {
    var hashed := HashedUpTo(rs, h.sizeOfHeaders, |rs|);
    HashedBytesLength(a, h, rs, |rs|);
    HashedBytesLength(b, h, rs, |rs|);
    LastSplits(HashedBytes(a, h, rs, |rs|), Part(a, hashed, |a| - c),
               HashedBytes(b, h, rs, |rs|), Part(b, hashed, |b| - e));
  }

  lemma {:induction false} CoveredTellsSection(a: bytes, b: bytes, h: Header, rs: seq<Raw>, c: nat, e: nat, j: nat)
    requires Laid(h, |a|) && Laid(h, |b|) && j < |rs|
    requires Inside(rs, h.sizeOfHeaders, |a|, |rs|) && Inside(rs, h.sizeOfHeaders, |b|, |rs|)
    requires HashedUpTo(rs, h.sizeOfHeaders, |rs|) + c <= |a| && HashedUpTo(rs, h.sizeOfHeaders, |rs|) + e <= |b|
    requires CoveredBytes(a, h, rs, c) == CoveredBytes(b, h, rs, e)
    ensures rs[j].offset + rs[j].size <= |a| && rs[j].offset + rs[j].size <= |b|
    ensures a[rs[j].offset..rs[j].offset + rs[j].size] == b[rs[j].offset..rs[j].offset + rs[j].size]
  {
    CoveredTellsSections(a, b, h, rs, c, e);
    HashTellsSection(a, b, h, rs, |rs|, j);
  }

  /** Both images hold the same bytes where the section lies. */
  predicate SameIn(a: bytes, b: bytes, r: Raw) {
    && r.offset + r.size <= |a| && r.offset + r.size <= |b|
    && a[r.offset..r.offset + r.size] == b[r.offset..r.offset + r.size]
  }

  /** Two accepted images with the same hash input hold the same bytes in each section. */
  lemma {:induction false} DigestFixesSections(a: bytes, b: bytes, x: Digested, y: Digested)
    requires HashInput(a) == Ok(x) && HashInput(b) == Ok(y) && x.hashed == y.hashed
    ensures x.layout == y.layout && forall r :: r in InFileOrder(x.layout) ==> SameIn(a, b, r)
  {
    HashTellsLayout(a, b, x, y);
    Accepted(a, x);
    Accepted(b, y);
    forall r | r in InFileOrder(x.layout) ensures SameIn(a, b, r) {
      var j :| 0 <= j < |InFileOrder(x.layout)| && InFileOrder(x.layout)[j] == r;
      AcceptedSections(a, b, x, y, j);
    }
  }

  lemma {:induction false} AcceptedSections(a: bytes, b: bytes, x: Digested, y: Digested, j: nat)
    requires IsAccepted(a, x) && IsAccepted(b, y) && x.hashed == y.hashed && x.layout == y.layout
    requires j < |InFileOrder(x.layout)|
    ensures SameIn(a, b, InFileOrder(x.layout)[j])
  {
    CoveredTellsSection(a, b, x.layout.header, InFileOrder(x.layout), x.certificate, y.certificate, j);
  }

  // ----- Signing -----

  /** No section of the image reaches into its certificate table. */
  predicate EndsBeforeCertificate(image: bytes, d: Digested) {
    && d.certificate <= |image|
    && Inside(InFileOrder(d.layout), d.layout.header.sizeOfHeaders, |image| - d.certificate, |InFileOrder(d.layout)|)
  }

  lemma {:induction false} PartAgrees(a: bytes, b: bytes, h: Header, end: nat, lo: nat, hi: nat)
    requires AgreeBelow(a, b, h, end) && Laid(h, |a|) && h.sizeOfHeaders <= lo <= hi <= end
    ensures Part(a, lo, hi) == Part(b, lo, hi)
    decreases hi - lo
  {
    if lo < hi {
      PartAgrees(a, b, h, end, lo, hi - 1);
      assert !Unpinned(h, hi - 1);
    }
  }

  lemma {:induction false} HeadersAgree(a: bytes, b: bytes, h: Header, end: nat)
    requires Laid(h, |a|) && Laid(h, |b|) && h.sizeOfHeaders <= end && AgreeBelow(a, b, h, end)
    ensures HeaderBytes(a, h) == HeaderBytes(b, h)
  {
    HeadersAreUnsigned(a, h);
    HeadersAreUnsigned(b, h);
    AgreeingHashAlike(a, b, h, h, h.sizeOfHeaders);
  }

  lemma {:induction false} SectionsAgree(a: bytes, b: bytes, h: Header, end: nat, rs: seq<Raw>, n: nat)
    requires Laid(h, |a|) && Laid(h, |b|) && h.sizeOfHeaders <= end && AgreeBelow(a, b, h, end)
    requires n <= |rs| && Inside(rs, h.sizeOfHeaders, end, n)
    requires Inside(rs, h.sizeOfHeaders, |a|, n) && Inside(rs, h.sizeOfHeaders, |b|, n)
    ensures HashedBytes(a, h, rs, n) == HashedBytes(b, h, rs, n)
  {
    if n == 0 {
      HeadersAgree(a, b, h, end);
    } else {
      SectionsAgree(a, b, h, end, rs, n - 1);
      PartAgrees(a, b, h, end, rs[n - 1].offset, rs[n - 1].offset + rs[n - 1].size);
    }
  }

  lemma {:induction false} CoveredAgrees(a: bytes, b: bytes, h: Header, rs: seq<Raw>, c: nat, e: nat)
    requires Laid(h, |a|) && Laid(h, |b|)
    requires Inside(rs, h.sizeOfHeaders, |a|, |rs|) && Inside(rs, h.sizeOfHeaders, |b|, |rs|)
    requires HashedUpTo(rs, h.sizeOfHeaders, |rs|) + c <= |a| && HashedUpTo(rs, h.sizeOfHeaders, |rs|) + e <= |b|
    requires |a| - c == |b| - e && AgreeBelow(a, b, h, |a| - c) && Inside(rs, h.sizeOfHeaders, |a| - c, |rs|)
    ensures CoveredBytes(a, h, rs, c) == CoveredBytes(b, h, rs, e)
  {
    SectionsAgree(a, b, h, |a| - c, rs, |rs|);
    PartAgrees(a, b, h, |a| - c, HashedUpTo(rs, h.sizeOfHeaders, |rs|), |a| - c);
  }

  /** Signing an image again, or changing its checksum, leaves the digest input of such an image as it was. */
  lemma {:induction false} SigningKeepsDigest(a: bytes, b: bytes, x: Digested, y: Digested)
    requires HashInput(a) == Ok(x) && HashInput(b) == Ok(y) && SameButSignature(a, b, x, y)
    requires EndsBeforeCertificate(a, x)
    ensures x.layout == y.layout && x.hashed == y.hashed
  {
    LayoutKept(a, b, x, y);
    Accepted(a, x);
    Accepted(b, y);
    SignedAccepted(a, b, x, y);
  }

  lemma {:induction false} SignedAccepted(a: bytes, b: bytes, x: Digested, y: Digested)
    requires IsAccepted(a, x) && IsAccepted(b, y) && x.layout == y.layout
    requires SameButSignature(a, b, x, y) && EndsBeforeCertificate(a, x)
    ensures x.hashed == y.hashed
  {
    CoveredAgrees(a, b, x.layout.header, InFileOrder(x.layout), x.certificate, y.certificate);
  }

  /** No new signature or checksum changes the digest input. */
  ghost predicate SurvivesSigning(a: bytes, x: Digested) {
    forall b: bytes, y: Digested ::
      HashInput(b) == Ok(y) && SameButSignature(a, b, x, y) ==> y.hashed == x.hashed
  }

  /** A section that ends in the certificate table. */
  lemma {:induction false} ReachesIn(rs: seq<Raw>, headers: nat, length: nat, end: nat, n: nat) returns (j: nat)
    requires n <= |rs| && Inside(rs, headers, length, n) && !Inside(rs, headers, end, n)
    ensures j < n && rs[j].size > 0 && headers <= rs[j].offset && end < rs[j].offset + rs[j].size <= length
  {
    if Inside(rs, headers, end, n - 1) {
      j := n - 1;
    } else {
      j := ReachesIn(rs, headers, length, end, n - 1);
    }
  }

  lemma {:induction false} AcceptedStill(a: bytes, b: bytes, x: Digested, p: nat) returns (y: Digested)
    requires HashInput(a) == Ok(x) && DiffersAt(a, b, p) && x.layout.header.sizeOfHeaders <= p
    ensures HashInput(b) == Ok(y) && y.layout == x.layout && y.certificate == x.certificate
  {
    AcceptedIsCovered(a, x);
    ParseReadsHeaders(a, b);
    CertificateMisses(a, b, p, x.layout.header);
    y := HashInput(b).value;
  }

  /** The exact condition: the digest input survives signing if and only if no section reaches into the certificate. */
  lemma {:induction false} SurvivesSigningIff(a: bytes, x: Digested)
    requires HashInput(a) == Ok(x)
    ensures SurvivesSigning(a, x) <==> EndsBeforeCertificate(a, x)
  {
    if EndsBeforeCertificate(a, x) {
      forall b: bytes, y: Digested | HashInput(b) == Ok(y) && SameButSignature(a, b, x, y)
        ensures y.hashed == x.hashed
      {
        SigningKeepsDigest(a, b, x, y);
      }
    } else {
      var b, y := SignatureHashed(a, x);
    }
  }

  /** A section that reaches into the certificate has a byte of it hashed. */
  lemma {:induction false} SignatureHashed(a: bytes, x: Digested) returns (b: bytes, y: Digested)
    requires HashInput(a) == Ok(x) && !EndsBeforeCertificate(a, x)
    ensures HashInput(b) == Ok(y) && SameButSignature(a, b, x, y) && y.hashed != x.hashed
  {
    Accepted(a, x);
    var j, p := ReachingByte(a, x);
    b := OtherByte(a, p);
    y := AcceptedStill(a, b, x, p);
    Accepted(b, y);
    SignedOnly(a, b, x, y, p);
    NotSameIn(a, b, InFileOrder(x.layout)[j], p);
    SectionTells(a, b, x, y, j);
  }

  lemma {:induction false} ReachingByte(a: bytes, x: Digested) returns (j: nat, p: nat)
    requires IsAccepted(a, x) && !EndsBeforeCertificate(a, x)
    ensures x.layout.header.sizeOfHeaders <= p < |a| && |a| - x.certificate <= p
    ensures j < |InFileOrder(x.layout)|
    ensures var r := InFileOrder(x.layout)[j]; r.offset <= p < r.offset + r.size <= |a|
  {
    var rs := InFileOrder(x.layout);
    j := ReachesIn(rs, x.layout.header.sizeOfHeaders, |a|, |a| - x.certificate, |rs|);
    p := rs[j].offset + rs[j].size - 1;
  }

  lemma {:induction false} SignedOnly(a: bytes, b: bytes, x: Digested, y: Digested, p: nat)
    requires DiffersAt(a, b, p) && x.certificate == y.certificate <= |a| && |a| - x.certificate <= p
    ensures SameButSignature(a, b, x, y)
  {
  }

  lemma {:induction false} SectionTells(a: bytes, b: bytes, x: Digested, y: Digested, j: nat)
    requires IsAccepted(a, x) && IsAccepted(b, y) && x.layout == y.layout && j < |InFileOrder(x.layout)|
    ensures x.hashed == y.hashed ==> SameIn(a, b, InFileOrder(x.layout)[j])
  {
    if x.hashed == y.hashed {
      AcceptedSections(a, b, x, y, j);
    }
  }

  lemma {:induction false} NotSameIn(a: bytes, b: bytes, r: Raw, p: nat)
    requires |a| == |b| && r.offset <= p < r.offset + r.size <= |a| && a[p] != b[p]
    ensures !SameIn(a, b, r)
  {
    var lo, hi := r.offset, r.offset + r.size;
    assert a[lo..hi][p - lo] == a[p] && b[lo..hi][p - lo] == b[p];
  }

  /** Images without gaps are among them. */
  lemma {:induction false} GapFreeEndsBefore(image: bytes, d: Digested)
    requires HashInput(image) == Ok(d) && GapFree(d.layout)
    ensures EndsBeforeCertificate(image, d)
  {
    Accepted(image, d);
    var rs, headers := InFileOrder(d.layout), d.layout.header.sizeOfHeaders;
    AdjacentInside(rs, headers, |image|, |rs|, |image| - d.certificate);
  }

  lemma {:induction false} AdjacentInside(rs: seq<Raw>, headers: nat, length: nat, n: nat, end: nat)
    requires n <= |rs| && Adjacent(rs, headers, n) && Inside(rs, headers, length, n)
    requires HashedUpTo(rs, headers, n) <= end
    ensures Inside(rs, headers, end, n)
  {
    if n > 0 {
      AdjacentEnds(rs, headers, n);
      AdjacentInside(rs, headers, length, n - 1, end);
    }
  }
}

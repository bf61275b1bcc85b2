/** The bytes that go into the Authenticode digest of a PE image (`calculate_authenticode_digest`). */
module Authenticode {
  import opened Basics
  import opened PeImage

  // ----- The raw sections, in file order -----

  datatype Raw = Raw(offset: nat, size: nat)

  /** The order in which tuples compare. */
  predicate Before(a: Raw, b: Raw) {
    a.offset < b.offset || (a.offset == b.offset && a.size <= b.size)
  }

  predicate InOrder(rs: seq<Raw>) {
    |rs| <= 1 || (Before(rs[0], rs[1]) && InOrder(rs[1..]))
  }

  function Insert(r: Raw, rs: seq<Raw>): seq<Raw> {
    if rs == [] || Before(r, rs[0]) then [r] + rs else [rs[0]] + Insert(r, rs[1..])
  }

  /** `sorted`. */
  function Sort(rs: seq<Raw>): seq<Raw> {
    if rs == [] then [] else Insert(rs[0], Sort(rs[1..]))
  }

  lemma {:induction false} InsertInserts(r: Raw, rs: seq<Raw>)
    ensures
      var out := Insert(r, rs);
      && multiset(out) == multiset([r]) + multiset(rs)
      && (out[0] == r || (rs != [] && out[0] == rs[0] && Before(rs[0], r)))
      && (InOrder(rs) ==> InOrder(out))
  {
    if rs != [] && !Before(r, rs[0]) {
      InsertInserts(r, rs[1..]);
      assert rs == [rs[0]] + rs[1..];
    }
  }

  /** Sorting puts the same elements in order. */
  lemma {:induction false} SortSorts(rs: seq<Raw>)
    ensures InOrder(Sort(rs)) && multiset(Sort(rs)) == multiset(rs)
  {
    if rs != [] {
      SortSorts(rs[1..]);
      InsertInserts(rs[0], Sort(rs[1..]));
      assert rs == [rs[0]] + rs[1..];
    }
  }

  lemma {:induction false} InOrderAt(rs: seq<Raw>, i: nat)
    requires InOrder(rs) && i + 1 < |rs|
    ensures rs[i].offset < rs[i + 1].offset || (rs[i].offset == rs[i + 1].offset && rs[i].size <= rs[i + 1].size)
  {
    if i > 0 {
      InOrderAt(rs[1..], i - 1);
    }
  }

  /** The sections in file order: by offset, and by size where two have the same offset. */
  lemma {:induction false} SortedByOffset(rs: seq<Raw>)
    ensures multiset(Sort(rs)) == multiset(rs)
    ensures forall i :: 0 <= i < |Sort(rs)| - 1 ==>
      var a, b := Sort(rs)[i], Sort(rs)[i + 1];
      a.offset < b.offset || (a.offset == b.offset && a.size <= b.size)
  {
    SortSorts(rs);
    forall i | 0 <= i < |Sort(rs)| - 1
      ensures
        var a, b := Sort(rs)[i], Sort(rs)[i + 1];
        a.offset < b.offset || (a.offset == b.offset && a.size <= b.size)
    {
      InOrderAt(Sort(rs), i);
    }
  }

  /** The sections that hold bytes. */
  function RawSections(sections: seq<Section>): seq<Raw> {
    if sections == [] then []
    else
      var s := sections[0];
      (if s.rawSize != 0 then [Raw(s.rawOffset, s.rawSize)] else []) + RawSections(sections[1..])
  }

  function InFileOrder(pe: Image): seq<Raw> {
    Sort(RawSections(pe.sections))
  }

  /** `image[lo:hi]`. */
  function Part(image: bytes, lo: nat, hi: nat): bytes
    requires lo <= hi <= |image|
    decreases hi - lo
  {
    if lo == hi then [] else Part(image, lo, hi - 1) + [image[hi - 1]]
  }

  lemma {:induction false} PartIsSlice(image: bytes, lo: nat, hi: nat)
    requires lo <= hi <= |image|
    ensures Part(image, lo, hi) == image[lo..hi]
    decreases hi - lo
  {
    if lo < hi {
      PartIsSlice(image, lo, hi - 1);
      assert image[lo..hi] == image[lo..hi - 1] + [image[hi - 1]];
    }
  }

  lemma {:induction false} PartLength(image: bytes, lo: nat, hi: nat)
    requires lo <= hi <= |image|
    ensures |Part(image, lo, hi)| == hi - lo
    decreases hi - lo
  {
    if lo < hi {
      PartLength(image, lo, hi - 1);
    }
  }

  // ----- What is hashed -----

  function EndBefore(rs: seq<Raw>, headers: nat, n: nat): nat
    requires n <= |rs|
  {
    if n == 0 then headers else rs[n - 1].offset + rs[n - 1].size
  }

  /** No two of the first `n` sections overlap, and none overlaps the headers. */
  predicate Apart(rs: seq<Raw>, headers: nat, n: nat)
    requires n <= |rs|
  {
    n == 0 || (Apart(rs, headers, n - 1) && EndBefore(rs, headers, n - 1) <= rs[n - 1].offset)
  }

  /** Each of the first `n` sections holds bytes and ends by `length`. */
  predicate Inside(rs: seq<Raw>, headers: nat, length: nat, n: nat)
    requires n <= |rs|
  {
    n == 0 || (Inside(rs, headers, length, n - 1) && rs[n - 1].size > 0 && headers <= rs[n - 1].offset
               && rs[n - 1].offset + rs[n - 1].size <= length)
  }

  /** `bytes_hashed` after `n` sections. */
  function HashedUpTo(rs: seq<Raw>, headers: nat, n: nat): (r: nat)
    requires n <= |rs|
    ensures r >= headers
  {
    if n == 0 then headers else HashedUpTo(rs, headers, n - 1) + rs[n - 1].size
  }

  predicate HasSecurityEntry(h: Header) {
    h.numberOfDirectories > SECURITY_DIRECTORY_INDEX
  }

  /** The layout of a header that passed the checks. */
  predicate Laid(h: Header, length: nat) {
    && 88 <= h.checksum && h.checksum + 4 <= h.sizeOfHeaders <= length
    && h.dataDirectories == h.checksum + 48
    && (HasSecurityEntry(h) ==> SecurityEntry(h) + 8 <= h.sizeOfHeaders)
  }

  function BehindChecksum(image: bytes, h: Header): bytes
    requires Laid(h, |image|)
  {
    if HasSecurityEntry(h)
    then Part(image, h.checksum + 4, SecurityEntry(h)) + Part(image, SecurityEntry(h) + 8, h.sizeOfHeaders)
    else Part(image, h.checksum + 4, h.sizeOfHeaders)
  }

  function HeaderBytes(image: bytes, h: Header): bytes
    requires Laid(h, |image|)
  {
    Part(image, 0, h.checksum) + BehindChecksum(image, h)
  }

  /** What has been hashed after the headers and `n` sections. */
  function HashedBytes(image: bytes, h: Header, rs: seq<Raw>, n: nat): bytes
    requires Laid(h, |image|) && n <= |rs| && Inside(rs, h.sizeOfHeaders, |image|, n)
  {
    if n == 0 then HeaderBytes(image, h)
    else HashedBytes(image, h, rs, n - 1) + Part(image, rs[n - 1].offset, rs[n - 1].offset + rs[n - 1].size)
  }

  /** The size of the certificate table at the end of the image. */
  function CertificateSize(image: bytes, h: Header): Result<nat, PeError>
    requires Laid(h, |image|)
  {
    if !HasSecurityEntry(h) then Ok(0)
    else
      var address := Field(image, SecurityEntry(h), 4);
      var size := Field(image, SecurityEntry(h) + 4, 4);
      if (address == 0) != (size == 0) || (size != 0 && address + size != |image|) then Err(CertificateTable)
      else Ok(size)
  }

  /** An accepted image: its layout, the size of its certificate table and the bytes that are hashed. */
  datatype Digested = Digested(layout: Image, certificate: nat, hashed: bytes)

  predicate Readable(image: bytes, pe: Image) {
    && Laid(pe.header, |image|)
    && Inside(InFileOrder(pe), pe.header.sizeOfHeaders, |image|, |InFileOrder(pe)|)
  }

  /** The headers, the sections and what follows as many bytes as those have, up to the certificate table. */
  function CoveredBytes(image: bytes, h: Header, rs: seq<Raw>, certificate: nat): bytes
    requires Laid(h, |image|) && Inside(rs, h.sizeOfHeaders, |image|, |rs|)
    requires HashedUpTo(rs, h.sizeOfHeaders, |rs|) + certificate <= |image|
  {
    HashedBytes(image, h, rs, |rs|) + Part(image, HashedUpTo(rs, h.sizeOfHeaders, |rs|), |image| - certificate)
  }

  /** What the digest of `image` covers, given its layout and the size of its certificate table. */
  function Covered(image: bytes, pe: Image, rs: seq<Raw>, certificate: nat): Result<Digested, PeError>
    requires Laid(pe.header, |image|) && Inside(rs, pe.header.sizeOfHeaders, |image|, |rs|)
  {
    var hashed := HashedUpTo(rs, pe.header.sizeOfHeaders, |rs|);
    if !Apart(rs, pe.header.sizeOfHeaders, |rs|) then Err(SectionsOverlap)
    else if hashed + certificate > |image| then Err(RegionsExceed)
    else Ok(Digested(pe, certificate, CoveredBytes(image, pe.header, rs, certificate)))
  }

  function HashInput(image: bytes): Result<Digested, PeError> {
    match Parse(image)
    case Err(e) => Err(e)
    case Ok(pe) =>
      ParsedIsReadable(image);
      match CertificateSize(image, pe.header)
      case Err(e) => Err(e)
      case Ok(certificate) => Covered(image, pe, InFileOrder(pe), certificate)
  }

  // ----- The sections of an accepted image lie inside it -----

  lemma {:induction false} SectionsInside(image: bytes, h: Header, n: nat, s: Section)
    requires h.sectionTable + n * PE_SECTION_HEADER_BYTES <= |image|
    requires SectionsUpTo(image, h, n).Ok? && s in SectionsUpTo(image, h, n).value
    ensures SectionInside(s, h.sizeOfHeaders, |image|)
  {
    if n > 0 && s in SectionsUpTo(image, h, n - 1).value {
      SectionsInside(image, h, n - 1, s);
    }
  }

  lemma {:induction false} RawComesFrom(sections: seq<Section>, r: Raw) returns (s: Section)
    requires r in RawSections(sections)
    ensures s in sections && s.rawSize == r.size > 0 && s.rawOffset == r.offset
  {
    if sections[0].rawSize != 0 && r == Raw(sections[0].rawOffset, sections[0].rawSize) {
      s := sections[0];
    } else {
      s := RawComesFrom(sections[1..], r);
    }
  }

  lemma {:induction false} SameElements(a: seq<Raw>, b: seq<Raw>, i: nat)
    requires multiset(a) == multiset(b) && i < |a|
    ensures a[i] in b
  {
    assert a[i] in multiset(a);
  }

  lemma {:induction false} EachInside(image: bytes, n: nat)
    requires Parse(image).Ok?
    requires n <= |InFileOrder(Parse(image).value)|
    ensures Inside(InFileOrder(Parse(image).value), Parse(image).value.header.sizeOfHeaders, |image|, n)
  {
    if n > 0 {
      EachInside(image, n - 1);
      OneInside(image, n - 1);
    }
  }

  lemma {:induction false} OneInside(image: bytes, i: nat)
    requires Parse(image).Ok?
    requires i < |InFileOrder(Parse(image).value)|
    ensures
      var r := InFileOrder(Parse(image).value)[i];
      r.size > 0 && Parse(image).value.header.sizeOfHeaders <= r.offset && r.offset + r.size <= |image|
  {
    var pe := Parse(image).value;
    var rs := InFileOrder(pe);
    SortSorts(RawSections(pe.sections));
    SameElements(rs, RawSections(pe.sections), i);
    var s := RawComesFrom(pe.sections, rs[i]);
    HeaderFacts(image);
    SectionsInside(image, pe.header, pe.header.sectionCount, s);
  }

  lemma {:induction false} ParsedIsReadable(image: bytes)
    requires Parse(image).Ok?
    ensures Readable(image, Parse(image).value)
  {
    HeaderFacts(image);
    EachInside(image, |InFileOrder(Parse(image).value)|);
  }

  // ----- The source, step by step -----

  /** The hashed part of the headers, and the size of the certificate table. */
  method HashHeaders(image: bytes, h: Header) returns (hashed: bytes, r: Result<nat, PeError>)
    requires Laid(h, |image|)
    ensures r == CertificateSize(image, h)
    ensures r.Ok? ==> hashed == HeaderBytes(image, h)
  {
    PartIsSlice(image, 0, h.checksum);
    hashed := image[..h.checksum];
    if h.numberOfDirectories <= SECURITY_DIRECTORY_INDEX {
      PartIsSlice(image, h.checksum + 4, h.sizeOfHeaders);
      return hashed + image[h.checksum + 4..h.sizeOfHeaders], Ok(0);
    }
    var securityDirectory := h.dataDirectories + SECURITY_DIRECTORY_INDEX * 8;
    if securityDirectory + 8 > h.sizeOfHeaders {
      return hashed, Err(SecurityDirectory);
    }
    EntrySlices(image, h, hashed);
    hashed := hashed + image[h.checksum + 4..securityDirectory];
    hashed := hashed + image[securityDirectory + 8..h.sizeOfHeaders];
    r := ReadCertificateSize(image, h, securityDirectory);
  }

  /** The two fields of the security entry, which must name the end of the image or nothing. */
  method ReadCertificateSize(image: bytes, h: Header, securityDirectory: nat) returns (r: Result<nat, PeError>)
    requires Laid(h, |image|) && HasSecurityEntry(h) && securityDirectory == SecurityEntry(h)
    ensures r == CertificateSize(image, h)
  {
    var address := ReadUnsigned(image, securityDirectory, 4, "certificate address").value;
    var size := ReadUnsigned(image, securityDirectory + 4, 4, "certificate size").value;
    if (address == 0) != (size == 0) || (size != 0 && address + size != |image|) {
      return Err(CertificateTable);
    }
    return Ok(size);
  }

  lemma {:induction false} EntrySlices(image: bytes, h: Header, front: bytes)
    requires Laid(h, |image|) && HasSecurityEntry(h)
    ensures front + image[h.checksum + 4..SecurityEntry(h)] + image[SecurityEntry(h) + 8..h.sizeOfHeaders]
      == front + BehindChecksum(image, h)
  {
    var before, behind := image[h.checksum + 4..SecurityEntry(h)], image[SecurityEntry(h) + 8..h.sizeOfHeaders];
    EntryParts(image, h);
    Associate(front, before, behind);
  }

  lemma {:induction false} EntryParts(image: bytes, h: Header)
    requires Laid(h, |image|) && HasSecurityEntry(h)
    ensures BehindChecksum(image, h)
      == image[h.checksum + 4..SecurityEntry(h)] + image[SecurityEntry(h) + 8..h.sizeOfHeaders]
  {
    PartIsSlice(image, h.checksum + 4, SecurityEntry(h));
    PartIsSlice(image, SecurityEntry(h) + 8, h.sizeOfHeaders);
  }

  lemma {:induction false} OverlapStays(rs: seq<Raw>, headers: nat, m: nat, n: nat)
    requires m <= n <= |rs| && !Apart(rs, headers, m)
    ensures !Apart(rs, headers, n)
  {
    if m < n {
      OverlapStays(rs, headers, m, n - 1);
    }
  }

  lemma {:induction false} InsidePrefix(rs: seq<Raw>, headers: nat, length: nat, m: nat, n: nat)
    requires m <= n <= |rs| && Inside(rs, headers, length, n)
    ensures Inside(rs, headers, length, m)
  {
    if m < n {
      InsidePrefix(rs, headers, length, m, n - 1);
    }
  }

  /** The loop over the sorted sections. */
  method HashSections(image: bytes, h: Header, rs: seq<Raw>, front: bytes) returns (r: Result<(bytes, nat), PeError>)
    requires Laid(h, |image|) && Inside(rs, h.sizeOfHeaders, |image|, |rs|) && front == HeaderBytes(image, h)
    ensures r.Ok? <==> Apart(rs, h.sizeOfHeaders, |rs|)
    ensures r.Err? ==> r.error == SectionsOverlap
    ensures r.Ok? ==> r.value == (HashedBytes(image, h, rs, |rs|), HashedUpTo(rs, h.sizeOfHeaders, |rs|))
  {
    var hashed := front;
    var bytesHashed := h.sizeOfHeaders;
    var previousSectionEnd := h.sizeOfHeaders;
    InsidePrefix(rs, h.sizeOfHeaders, |image|, 0, |rs|);
    var i := 0;
    while i < |rs|
      invariant 0 <= i <= |rs|
      invariant Inside(rs, h.sizeOfHeaders, |image|, i) && Apart(rs, h.sizeOfHeaders, i)
      invariant previousSectionEnd == EndBefore(rs, h.sizeOfHeaders, i)
      invariant bytesHashed == HashedUpTo(rs, h.sizeOfHeaders, i)
      invariant hashed == HashedBytes(image, h, rs, i)
    {
      InsidePrefix(rs, h.sizeOfHeaders, |image|, i + 1, |rs|);
      var offset, size := rs[i].offset, rs[i].size;
      if offset < previousSectionEnd {
        OverlapStays(rs, h.sizeOfHeaders, i + 1, |rs|);
        return Err(SectionsOverlap);
      }
      PartIsSlice(image, offset, offset + size);
      hashed := hashed + image[offset..offset + size];
      bytesHashed := bytesHashed + size;
      previousSectionEnd := offset + size;
      i := i + 1;
    }
    return Ok((hashed, bytesHashed));
  }

  /** `calculate_authenticode_digest`, up to the hash function. */
  method AuthenticodeInput(image: bytes) returns (r: Result<Digested, PeError>)
    ensures r == HashInput(image)
  {
    var pe :- ParsePeImage(image);
    ParsedIsReadable(image);
    var front, size := HashHeaders(image, pe.header);
    if size.Err? {
      return Err(size.error);
    }
    r := HashRest(image, pe, InFileOrder(pe), front, size.value);
  }

  method HashRest(image: bytes, pe: Image, rs: seq<Raw>, front: bytes, certificateSize: nat)
    returns (r: Result<Digested, PeError>)
    requires Laid(pe.header, |image|) && Inside(rs, pe.header.sizeOfHeaders, |image|, |rs|)
    requires front == HeaderBytes(image, pe.header)
    ensures r == Covered(image, pe, rs, certificateSize)
  {
    var sections :- HashSections(image, pe.header, rs, front);
    var hashed, bytesHashed := sections.0, sections.1;
    if bytesHashed + certificateSize > |image| {
      return Err(RegionsExceed);
    }
    var trailingBytes := |image| - certificateSize - bytesHashed;
    PartIsSlice(image, bytesHashed, bytesHashed + trailingBytes);
    if trailingBytes != 0 {
      hashed := hashed + image[bytesHashed..bytesHashed + trailingBytes];
    }
    assert hashed == sections.0 + image[bytesHashed..bytesHashed + trailingBytes];
    return Ok(Digested(pe, certificateSize, hashed));
  }

  // ----- The size of what is hashed -----

  lemma {:induction false} HeaderBytesLength(image: bytes, h: Header)
    requires Laid(h, |image|)
    ensures |HeaderBytes(image, h)| == h.sizeOfHeaders - (if HasSecurityEntry(h) then 12 else 4)
  {
    PartLength(image, 0, h.checksum);
    if HasSecurityEntry(h) {
      PartLength(image, h.checksum + 4, SecurityEntry(h));
      PartLength(image, SecurityEntry(h) + 8, h.sizeOfHeaders);
    } else {
      PartLength(image, h.checksum + 4, h.sizeOfHeaders);
    }
  }

  lemma {:induction false} HashedBytesLength(image: bytes, h: Header, rs: seq<Raw>, n: nat)
    requires Laid(h, |image|) && n <= |rs| && Inside(rs, h.sizeOfHeaders, |image|, n)
    ensures
      |HashedBytes(image, h, rs, n)| == HashedUpTo(rs, h.sizeOfHeaders, n) - (if HasSecurityEntry(h) then 12 else 4)
  {
    if n == 0 {
      HeaderBytesLength(image, h);
    } else {
      HashedBytesLength(image, h, rs, n - 1);
      PartLength(image, rs[n - 1].offset, rs[n - 1].offset + rs[n - 1].size);
    }
  }

  /** The two fields that say where the checksum and the security entry are. */
  predicate PartsRead(image: bytes, h: Header) {
    && 0x40 <= |image| && h.checksum == Field(image, 0x3c, 4) + 88
    && h.checksum + 48 <= |image| && h.numberOfDirectories == Field(image, h.checksum + 44, 4)
    && h.checksum + 48 <= h.sizeOfHeaders
  }

  lemma {:induction false} ParsedPartsRead(image: bytes)
    requires Parse(image).Ok?
    ensures PartsRead(image, Parse(image).value.header)
  {
  }

  lemma {:induction false} AcceptedIsCovered(image: bytes, d: Digested)
    requires HashInput(image) == Ok(d)
    ensures Parse(image) == Ok(d.layout) && Readable(image, d.layout)
    ensures Covered(image, d.layout, InFileOrder(d.layout), d.certificate) == Ok(d)
    ensures !HasSecurityEntry(d.layout.header) ==> d.certificate == 0
  {
    ParsedIsReadable(image);
  }

  /** With or without gaps, what is hashed is 12 bytes and the certificate shorter than the image. */
  lemma {:induction false} HashInputLength(image: bytes, d: Digested)
    requires HashInput(image) == Ok(d)
    ensures |d.hashed| == |image| - d.certificate - (if HasSecurityEntry(d.layout.header) then 12 else 4)
    ensures !HasSecurityEntry(d.layout.header) ==> d.certificate == 0
  {
    AcceptedIsCovered(image, d);
    CoveredLength(image, d.layout, InFileOrder(d.layout), d);
  }

  lemma {:induction false} CoveredLength(image: bytes, pe: Image, rs: seq<Raw>, d: Digested)
    requires Laid(pe.header, |image|) && Inside(rs, pe.header.sizeOfHeaders, |image|, |rs|)
    requires Covered(image, pe, rs, d.certificate) == Ok(d)
    ensures |d.hashed| == |image| - d.certificate - (if HasSecurityEntry(pe.header) then 12 else 4)
  {
    HashedBytesLength(image, pe.header, rs, |rs|);
    PartLength(image, HashedUpTo(rs, pe.header.sizeOfHeaders, |rs|), |image| - d.certificate);
  }

  // ----- Images without gaps -----

  /** Each of the first `n` sections begins where the one before ends. */
  predicate Adjacent(rs: seq<Raw>, headers: nat, n: nat)
    requires n <= |rs|
  {
    n == 0 || (Adjacent(rs, headers, n - 1) && rs[n - 1].offset == EndBefore(rs, headers, n - 1))
  }

  predicate GapFree(pe: Image) {
    Adjacent(InFileOrder(pe), pe.header.sizeOfHeaders, |InFileOrder(pe)|)
  }

  /** Byte `k` belongs to the checksum or to the security entry. */
  predicate Unpinned(h: Header, k: nat) {
    h.checksum <= k < h.checksum + 4 || (HasSecurityEntry(h) && SecurityEntry(h) <= k < SecurityEntry(h) + 8)
  }

  /** The image below `end` without its checksum and its security entry. */
  function Unsigned(image: bytes, h: Header, end: nat): bytes
    requires end <= |image|
  {
    if end == 0 then [] else Unsigned(image, h, end - 1) + (if Unpinned(h, end - 1) then [] else [image[end - 1]])
  }

  lemma {:induction false} UnsignedKeeps(image: bytes, h: Header, lo: nat, hi: nat)
    requires lo <= hi <= |image|
    requires forall k :: lo <= k < hi ==> !Unpinned(h, k)
    ensures Unsigned(image, h, hi) == Unsigned(image, h, lo) + Part(image, lo, hi)
    decreases hi - lo
  {
    if lo < hi {
      UnsignedKeeps(image, h, lo, hi - 1);
    }
  }

  lemma {:induction false} UnsignedDrops(image: bytes, h: Header, lo: nat, hi: nat)
    requires lo <= hi <= |image|
    requires forall k :: lo <= k < hi ==> Unpinned(h, k)
    ensures Unsigned(image, h, hi) == Unsigned(image, h, lo)
  {
    if lo < hi {
      UnsignedDrops(image, h, lo, hi - 1);
    }
  }

  lemma {:induction false} BehindChecksumUnsigned(image: bytes, h: Header)
    requires Laid(h, |image|)
    ensures Unsigned(image, h, h.sizeOfHeaders) == Unsigned(image, h, h.checksum + 4) + BehindChecksum(image, h)
  {
    if HasSecurityEntry(h) {
      UnsignedKeeps(image, h, h.checksum + 4, SecurityEntry(h));
      UnsignedDrops(image, h, SecurityEntry(h), SecurityEntry(h) + 8);
      UnsignedKeeps(image, h, SecurityEntry(h) + 8, h.sizeOfHeaders);
      Associate(Unsigned(image, h, h.checksum + 4), Part(image, h.checksum + 4, SecurityEntry(h)),
              Part(image, SecurityEntry(h) + 8, h.sizeOfHeaders));
    } else {
      UnsignedKeeps(image, h, h.checksum + 4, h.sizeOfHeaders);
    }
  }

  lemma {:induction false} HeadersAreUnsigned(image: bytes, h: Header)
    requires Laid(h, |image|)
    ensures Unsigned(image, h, h.sizeOfHeaders) == HeaderBytes(image, h)
  {
    UnsignedKeeps(image, h, 0, h.checksum);
    UnsignedDrops(image, h, h.checksum, h.checksum + 4);
    BehindChecksumUnsigned(image, h);
  }

  lemma {:induction false} AdjacentBytes(image: bytes, h: Header, rs: seq<Raw>, n: nat)
    requires Laid(h, |image|) && n <= |rs|
    requires Inside(rs, h.sizeOfHeaders, |image|, n) && Adjacent(rs, h.sizeOfHeaders, n)
    ensures EndBefore(rs, h.sizeOfHeaders, n) == HashedUpTo(rs, h.sizeOfHeaders, n) <= |image|
    ensures HashedBytes(image, h, rs, n) == Unsigned(image, h, HashedUpTo(rs, h.sizeOfHeaders, n))
  {
    if n == 0 {
      HeadersAreUnsigned(image, h);
    } else {
      AdjacentBytes(image, h, rs, n - 1);
      UnsignedKeeps(image, h, HashedUpTo(rs, h.sizeOfHeaders, n - 1), HashedUpTo(rs, h.sizeOfHeaders, n));
    }
  }

  /** What an accepted image without gaps feeds to the hash is the image without those three parts. */
  lemma {:induction false} GapFreeCoversImage(image: bytes, d: Digested)
    requires HashInput(image) == Ok(d) && GapFree(d.layout)
    ensures IsUnsigned(image, d)
  {
    AcceptedIsCovered(image, d);
    AdjacentCovers(image, d.layout, InFileOrder(d.layout), d);
  }

  ghost predicate IsUnsigned(image: bytes, d: Digested) {
    && Laid(d.layout.header, |image|) && d.layout.header.sizeOfHeaders <= |image| - d.certificate
    && d.hashed == Unsigned(image, d.layout.header, |image| - d.certificate)
  }

  lemma {:induction false} AdjacentCovers(image: bytes, pe: Image, rs: seq<Raw>, d: Digested)
    requires Laid(pe.header, |image|) && Inside(rs, pe.header.sizeOfHeaders, |image|, |rs|)
    requires Adjacent(rs, pe.header.sizeOfHeaders, |rs|) && Covered(image, pe, rs, d.certificate) == Ok(d)
    ensures IsUnsigned(image, d)
  {
    AdjacentBytes(image, pe.header, rs, |rs|);
    UnsignedKeeps(image, pe.header, HashedUpTo(rs, pe.header.sizeOfHeaders, |rs|), |image| - d.certificate);
  }

  // ----- What the digest pins -----

  /** `a` and `b` agree below `end`, but for the checksum and the security entry of `a`. */
  ghost predicate AgreeBelow(a: bytes, b: bytes, h: Header, end: nat) {
    && end <= |a| && end <= |b|
    && forall k :: 0 <= k < end && !Unpinned(h, k) ==> a[k] == b[k]
  }

  lemma {:induction false} LittleSame(a: bytes, b: bytes, lo: nat, hi: nat)
    requires lo <= hi <= |a| && hi <= |b|
    requires forall k :: lo <= k < hi ==> a[k] == b[k]
    ensures Little(a, lo, hi) == Little(b, lo, hi)
    decreases hi - lo
  {
    if lo < hi {
      LittleSame(a, b, lo + 1, hi);
    }
  }

  lemma {:induction false} FieldSame(a: bytes, b: bytes, h: Header, end: nat, offset: nat, length: nat)
    requires AgreeBelow(a, b, h, end) && offset + length <= end
    requires forall k :: offset <= k < offset + length ==> !Unpinned(h, k)
    ensures Field(a, offset, length) == Field(b, offset, length)
  {
    LittleSame(a, b, offset, offset + length);
  }

  /** Where the two unpinned parts are is itself pinned. */
  lemma {:induction false} SameUnpinned(a: bytes, b: bytes, g: Header, h: Header, end: nat)
    requires PartsRead(a, g) && PartsRead(b, h) && Laid(g, |a|) && Laid(h, |b|)
    requires g.sizeOfHeaders <= end && AgreeBelow(a, b, g, end)
    ensures SameParts(g, h)
  {
    FieldSame(a, b, g, end, 0x3c, 4);
    FieldSame(a, b, g, end, g.checksum + 44, 4);
  }

  predicate SameParts(g: Header, h: Header) {
    g.checksum == h.checksum && g.dataDirectories == h.dataDirectories && g.numberOfDirectories == h.numberOfDirectories
  }

  // ----- Same layout -----

  lemma {:induction false} SectionSame(a: bytes, b: bytes, h: Header, end: nat, at: nat)
    requires AgreeBelow(a, b, h, end) && at + PE_SECTION_HEADER_BYTES <= end
    requires forall k :: at <= k < at + PE_SECTION_HEADER_BYTES ==> !Unpinned(h, k)
    ensures SectionAt(a, at) == SectionAt(b, at)
  {
    assert a[at..at + 8] == b[at..at + 8];
    FieldSame(a, b, h, end, at + 8, 4);
    FieldSame(a, b, h, end, at + 12, 4);
    FieldSame(a, b, h, end, at + 16, 4);
    FieldSame(a, b, h, end, at + 20, 4);
  }

  lemma {:induction false} SectionsSame(a: bytes, b: bytes, h: Header, end: nat, n: nat)
    requires AgreeBelow(a, b, h, end) && h.sectionTable + n * PE_SECTION_HEADER_BYTES <= end
    requires forall k :: h.sectionTable <= k ==> !Unpinned(h, k)
    requires SectionsUpTo(a, h, n).Ok? && (|a| == |b| || SectionsUpTo(b, h, n).Ok?)
    ensures SectionsUpTo(a, h, n) == SectionsUpTo(b, h, n)
  {
    if n > 0 {
      SectionsSame(a, b, h, end, n - 1);
      SectionSame(a, b, h, end, h.sectionTable + (n - 1) * PE_SECTION_HEADER_BYTES);
    }
  }

  lemma {:induction false} SameHeader(a: bytes, b: bytes, end: nat)
    requires Parse(a).Ok? && Parse(b).Ok? && Parse(a).value.header.sizeOfHeaders <= end
    requires AgreeBelow(a, b, Parse(a).value.header, end)
    ensures Parse(b).value.header == Parse(a).value.header
  {
    HeaderIsRead(a);
    HeaderIsRead(b);
    SameHeaderParts(a, b, Parse(a).value.header, Parse(b).value.header, end);
  }

  /** What the header is read from, with the size of the optional header told by the number of directories. */
  predicate IsRead(image: bytes, h: Header) {
    && 0x40 <= |image| && 88 <= h.checksum && h.checksum + 48 <= h.sizeOfHeaders <= |image|
    && h.checksum == Field(image, 0x3c, 4) + 88
    && h == Header(h.checksum, h.checksum + 48, Field(image, h.checksum + 44, 4), Field(image, h.checksum - 4, 4),
                   h.checksum + 48 + 8 * h.numberOfDirectories, Field(image, h.checksum - 82, 2))
  }

  lemma {:induction false} HeaderIsRead(image: bytes)
    requires Parse(image).Ok?
    ensures IsRead(image, Parse(image).value.header)
  {
    HeaderFacts(image);
  }

  lemma {:induction false} SameHeaderParts(a: bytes, b: bytes, g: Header, h: Header, end: nat)
    requires IsRead(a, g) && IsRead(b, h) && g.sizeOfHeaders <= end && AgreeBelow(a, b, g, end)
    ensures g == h
  {
    FieldSame(a, b, g, end, 0x3c, 4);
    FieldSame(a, b, g, end, g.checksum + 44, 4);
    FieldSame(a, b, g, end, g.checksum - 4, 4);
    FieldSame(a, b, g, end, g.checksum - 82, 2);
  }

  /** Two images that agree but for the unpinned parts have the same layout. */
  lemma {:induction false} SameLayout(a: bytes, b: bytes, end: nat)
    requires Parse(a).Ok? && Parse(b).Ok? && Parse(a).value.header.sizeOfHeaders <= end
    requires AgreeBelow(a, b, Parse(a).value.header, end)
    ensures Parse(a).value == Parse(b).value
  {
    SameHeader(a, b, end);
    HeaderFacts(a);
    var h := Parse(a).value.header;
    SectionsSame(a, b, h, end, h.sectionCount);
  }

  // ----- What the digest pins: the two directions -----

  lemma {:induction false} AgreeingHashAlike(a: bytes, b: bytes, g: Header, h: Header, end: nat)
    requires SameParts(g, h) && AgreeBelow(a, b, g, end)
    ensures Unsigned(a, g, end) == Unsigned(b, h, end)
  {
    if end > 0 {
      AgreeingHashAlike(a, b, g, h, end - 1);
    }
  }

  /** Where byte `k` of the image is in what is hashed. */
  function Place(h: Header, k: nat): nat
    requires !Unpinned(h, k) && 88 <= h.checksum && h.dataDirectories == h.checksum + 48
  {
    if k < h.checksum then k
    else if HasSecurityEntry(h) && k >= SecurityEntry(h) then k - 12
    else k - 4
  }

  /** How long `Unsigned` is. */
  function Kept(h: Header, end: nat): nat {
    if end == 0 then 0 else Kept(h, end - 1) + (if Unpinned(h, end - 1) then 0 else 1)
  }

  lemma {:induction false} KeptIsPlace(h: Header, k: nat)
    requires 88 <= h.checksum && h.dataDirectories == h.checksum + 48
    ensures
      Kept(h, k)
      == k - Max(0, Min(4, k - h.checksum)) - (if HasSecurityEntry(h) then Max(0, Min(8, k - SecurityEntry(h))) else 0)
  {
    if k > 0 {
      KeptIsPlace(h, k - 1);
    }
  }

  lemma {:induction false} UnsignedLength(image: bytes, h: Header, end: nat)
    requires end <= |image|
    ensures |Unsigned(image, h, end)| == Kept(h, end)
  {
    if end > 0 {
      UnsignedLength(image, h, end - 1);
    }
  }

  lemma {:induction false} Placed(image: bytes, h: Header, end: nat, k: nat)
    requires 88 <= h.checksum && h.dataDirectories == h.checksum + 48
    requires end <= |image| && k < end && !Unpinned(h, k)
    ensures Place(h, k) < |Unsigned(image, h, end)|
    ensures Unsigned(image, h, end)[Place(h, k)] == image[k]
  {
    if k == end - 1 {
      UnsignedLength(image, h, k);
      KeptIsPlace(h, k);
    } else {
      Placed(image, h, end - 1, k);
    }
  }

  lemma {:induction false} HashedAlikeAgree(a: bytes, b: bytes, g: Header, h: Header, end: nat, last: nat)
    requires Laid(g, |a|) && Laid(h, |b|) && SameParts(g, h)
    requires g.sizeOfHeaders <= end <= |a| && h.sizeOfHeaders <= last <= |b|
    requires Unsigned(a, g, end) == Unsigned(b, h, last)
    ensures end == last && AgreeBelow(a, b, g, end)
  {
    UnsignedLength(a, g, end);
    UnsignedLength(b, h, last);
    KeptIsPlace(g, end);
    KeptIsPlace(h, last);
    forall k | 0 <= k < end && !Unpinned(g, k) ensures a[k] == b[k] {
      Placed(a, g, end, k);
      Placed(b, h, last, k);
    }
  }

  // ----- Images with gaps -----

  /** The first section that does not begin where the one before ends, and the byte that nothing hashes. */
  lemma {:induction false} FirstGap(rs: seq<Raw>, headers: nat, length: nat, n: nat) returns (k: nat)
    requires n <= |rs| && Apart(rs, headers, n) && Inside(rs, headers, length, n) && !Adjacent(rs, headers, n)
    ensures k < n && EndBefore(rs, headers, k) == HashedUpTo(rs, headers, k) < rs[k].offset
    ensures EndBefore(rs, headers, k) < HashedUpTo(rs, headers, n)
  {
    if Adjacent(rs, headers, n - 1) {
      k := n - 1;
      AdjacentEnds(rs, headers, n - 1);
    } else {
      k := FirstGap(rs, headers, length, n - 1);
    }
  }

  lemma {:induction false} AdjacentEnds(rs: seq<Raw>, headers: nat, n: nat)
    requires n <= |rs| && Adjacent(rs, headers, n)
    ensures EndBefore(rs, headers, n) == HashedUpTo(rs, headers, n)
  {
    if n > 0 {
      AdjacentEnds(rs, headers, n - 1);
    }
  }

  /** The sections before `k` end before the gap and the others begin after it. */
  lemma {:induction false} SectionMisses(rs: seq<Raw>, headers: nat, length: nat, n: nat, k: nat, j: nat)
    requires n <= |rs| && Apart(rs, headers, n) && Inside(rs, headers, length, n) && k < n && j < n
    ensures j < k ==> rs[j].offset + rs[j].size <= EndBefore(rs, headers, k)
    ensures k <= j ==> rs[k].offset <= rs[j].offset
    ensures EndBefore(rs, headers, j) >= headers
  {
    if j > 0 {
      SectionMisses(rs, headers, length, n, k, j - 1);
      NthApart(rs, headers, length, n, j - 1);
      NthApart(rs, headers, length, n, j);
    }
    if j < k {
      EndsGrow(rs, headers, length, n, j, k);
    }
  }

  lemma {:induction false} NthApart(rs: seq<Raw>, headers: nat, length: nat, n: nat, j: nat)
    requires j < n <= |rs| && Apart(rs, headers, n) && Inside(rs, headers, length, n)
    ensures EndBefore(rs, headers, j) <= rs[j].offset && rs[j].size > 0 && headers <= rs[j].offset
  {
    if j < n - 1 {
      NthApart(rs, headers, length, n - 1, j);
    }
  }

  lemma {:induction false} EndsGrow(rs: seq<Raw>, headers: nat, length: nat, n: nat, j: nat, k: nat)
    requires j < k < n <= |rs| && Apart(rs, headers, n) && Inside(rs, headers, length, n)
    ensures rs[j].offset + rs[j].size <= EndBefore(rs, headers, k)
  {
    if j < k - 1 {
      EndsGrow(rs, headers, length, n, j, k - 1);
      NthApart(rs, headers, length, n, k - 1);
    }
  }

  /** `b` is `a` with another byte, or the same, at `p`. */
  ghost predicate DiffersAt(a: bytes, b: bytes, p: nat) {
    && p < |a| == |b|
    && forall k :: 0 <= k < |a| && k != p ==> b[k] == a[k]
  }

  lemma {:induction false} PartMisses(image: bytes, other: bytes, p: nat, lo: nat, hi: nat)
    requires DiffersAt(image, other, p) && lo <= hi <= |image| && !(lo <= p < hi)
    ensures Part(other, lo, hi) == Part(image, lo, hi)
    decreases hi - lo
  {
    if lo < hi {
      PartMisses(image, other, p, lo, hi - 1);
    }
  }

  /** None of the first `n` sections holds byte `p`. */
  predicate Misses(rs: seq<Raw>, p: nat, n: nat)
    requires n <= |rs|
  {
    n == 0 || (Misses(rs, p, n - 1) && !(rs[n - 1].offset <= p < rs[n - 1].offset + rs[n - 1].size))
  }

  lemma {:induction false} HashedBytesMiss(image: bytes, other: bytes, p: nat, h: Header, rs: seq<Raw>, n: nat)
    requires Laid(h, |image|) && n <= |rs| && Inside(rs, h.sizeOfHeaders, |image|, n)
    requires DiffersAt(image, other, p) && Misses(rs, p, n) && h.sizeOfHeaders <= p
    ensures HashedBytes(other, h, rs, n) == HashedBytes(image, h, rs, n)
  {
    if n == 0 {
      HeaderBytesMiss(image, other, p, h);
    } else {
      HashedBytesMiss(image, other, p, h, rs, n - 1);
      PartMisses(image, other, p, rs[n - 1].offset, rs[n - 1].offset + rs[n - 1].size);
    }
  }

  lemma {:induction false} AllMiss(rs: seq<Raw>, headers: nat, length: nat, k: nat, p: nat, n: nat)
    requires Apart(rs, headers, |rs|) && Inside(rs, headers, length, |rs|) && k < |rs| && n <= |rs|
    requires EndBefore(rs, headers, k) <= p < rs[k].offset
    ensures Misses(rs, p, n)
  {
    if n > 0 {
      AllMiss(rs, headers, length, k, p, n - 1);
      GapMisses(rs, headers, length, |rs|, k, n - 1, p);
    }
  }

  lemma {:induction false} GapMisses(rs: seq<Raw>, headers: nat, length: nat, n: nat, k: nat, j: nat, p: nat)
    requires n <= |rs| && Apart(rs, headers, n) && Inside(rs, headers, length, n) && k < n && j < n
    requires EndBefore(rs, headers, k) <= p < rs[k].offset
    ensures !(rs[j].offset <= p < rs[j].offset + rs[j].size)
  {
    SectionMisses(rs, headers, length, n, k, j);
  }

  lemma {:induction false} HeaderBytesMiss(image: bytes, other: bytes, p: nat, h: Header)
    requires Laid(h, |image|) && DiffersAt(image, other, p) && h.sizeOfHeaders <= p
    ensures HeaderBytes(other, h) == HeaderBytes(image, h)
  {
    PartMisses(image, other, p, 0, h.checksum);
    BehindChecksumMisses(image, other, p, h);
  }

  lemma {:induction false} BehindChecksumMisses(image: bytes, other: bytes, p: nat, h: Header)
    requires Laid(h, |image|) && DiffersAt(image, other, p) && h.sizeOfHeaders <= p
    ensures BehindChecksum(other, h) == BehindChecksum(image, h)
  {
    if HasSecurityEntry(h) {
      PartMisses(image, other, p, h.checksum + 4, SecurityEntry(h));
      PartMisses(image, other, p, SecurityEntry(h) + 8, h.sizeOfHeaders);
    } else {
      PartMisses(image, other, p, h.checksum + 4, h.sizeOfHeaders);
    }
  }

  lemma {:induction false} CertificateMisses(image: bytes, other: bytes, p: nat, h: Header)
    requires Laid(h, |image|) && DiffersAt(image, other, p) && h.sizeOfHeaders <= p
    ensures CertificateSize(other, h) == CertificateSize(image, h)
  {
    if HasSecurityEntry(h) {
      LittleSame(image, other, SecurityEntry(h), SecurityEntry(h) + 4);
      LittleSame(image, other, SecurityEntry(h) + 4, SecurityEntry(h) + 8);
    }
  }

  lemma {:induction false} CoveredBytesMiss(image: bytes, other: bytes, p: nat, h: Header, rs: seq<Raw>,
      certificate: nat)
    requires Laid(h, |image|) && Inside(rs, h.sizeOfHeaders, |image|, |rs|)
    requires HashedUpTo(rs, h.sizeOfHeaders, |rs|) + certificate <= |image|
    requires DiffersAt(image, other, p) && Misses(rs, p, |rs|)
    requires h.sizeOfHeaders <= p < HashedUpTo(rs, h.sizeOfHeaders, |rs|)
    ensures CoveredBytes(other, h, rs, certificate) == CoveredBytes(image, h, rs, certificate)
  {
    HashedBytesMiss(image, other, p, h, rs, |rs|);
    PartMisses(image, other, p, HashedUpTo(rs, h.sizeOfHeaders, |rs|), |image| - certificate);
  }

  /** The headers are read from the headers. */
  lemma {:induction false} HeaderReadsHeaders(a: bytes, b: bytes)
    requires ParseHeader(a).Ok? && |a| == |b|
    requires forall k :: 0 <= k < ParseHeader(a).value.sizeOfHeaders ==> a[k] == b[k]
    ensures ParseHeader(b) == ParseHeader(a)
  {
    HeaderFacts(a);
    var h := ParseHeader(a).value;
    var pe := h.checksum - 88;
    SameLeading(a, b, pe, h.sizeOfHeaders);
    SameHeaderFields(a, b, pe, h.sizeOfHeaders);
    SameFieldsParse(a, b, pe);
  }

  /** All that the header is read from is the same in both images. */
  predicate SameFields(a: bytes, b: bytes, pe: nat)
    requires |a| == |b| && 0x40 <= |a| && pe + 136 <= |a|
  {
    && a[..2] == b[..2] && a[pe..pe + 4] == b[pe..pe + 4] && Field(a, 0x3c, 4) == Field(b, 0x3c, 4)
    && Field(a, pe + 4, 2) == Field(b, pe + 4, 2) && Field(a, pe + 6, 2) == Field(b, pe + 6, 2)
    && Field(a, pe + 20, 2) == Field(b, pe + 20, 2) && Field(a, pe + 24, 2) == Field(b, pe + 24, 2)
    && Field(a, pe + 92, 2) == Field(b, pe + 92, 2) && Field(a, pe + 80, 4) == Field(b, pe + 80, 4)
    && Field(a, pe + 84, 4) == Field(b, pe + 84, 4) && Field(a, pe + 132, 4) == Field(b, pe + 132, 4)
  }

  lemma {:induction false} SameFieldsParse(a: bytes, b: bytes, pe: nat)
    requires ParseHeader(a).Ok? && |a| == |b| && 0x40 <= |a| && pe + 136 <= |a|
    requires pe == Field(a, 0x3c, 4) && SameFields(a, b, pe)
    ensures ParseHeader(b) == ParseHeader(a)
  {
    var size := Field(a, pe + 20, 2);
    assert PeOffset(a) == Ok(pe) && OptionalHeaderSize(a, pe) == Ok(size);
    SamePlace(a, b, pe, size);
    SameStep(a, b, pe, size);
  }

  lemma {:induction false} SamePlace(a: bytes, b: bytes, pe: nat, size: nat)
    requires |a| == |b| && 0x40 <= |a| && pe + 136 <= |a| && SameFields(a, b, pe)
    requires PeOffset(a) == Ok(pe) && OptionalHeaderSize(a, pe) == Ok(size)
    ensures PeOffset(b) == Ok(pe) && OptionalHeaderSize(b, pe) == Ok(size)
    ensures HeaderOf(b, pe, size) == HeaderOf(a, pe, size) && IsEfiApplication(b, pe) == IsEfiApplication(a, pe)
  {
  }

  lemma {:induction false} SameStep(a: bytes, b: bytes, pe: nat, size: nat)
    requires |a| == |b| && pe + 136 <= |a|
    requires PeOffset(a) == Ok(pe) && OptionalHeaderSize(a, pe) == Ok(size)
    requires PeOffset(b) == Ok(pe) && OptionalHeaderSize(b, pe) == Ok(size)
    requires HeaderOf(b, pe, size) == HeaderOf(a, pe, size) && IsEfiApplication(b, pe) == IsEfiApplication(a, pe)
    requires Field(a, pe + 80, 4) == Field(b, pe + 80, 4)
    ensures ParseHeader(b) == ParseHeader(a)
  {
  }

  lemma {:induction false} SameHeaderFields(a: bytes, b: bytes, pe: nat, end: nat)
    requires |a| == |b| && end <= |a| && 0x40 <= end && pe + 136 <= end
    requires forall k :: 0 <= k < end ==> a[k] == b[k]
    ensures Field(a, 0x3c, 4) == Field(b, 0x3c, 4)
    ensures Field(a, pe + 4, 2) == Field(b, pe + 4, 2) && Field(a, pe + 6, 2) == Field(b, pe + 6, 2)
    ensures Field(a, pe + 20, 2) == Field(b, pe + 20, 2) && Field(a, pe + 24, 2) == Field(b, pe + 24, 2)
    ensures Field(a, pe + 92, 2) == Field(b, pe + 92, 2) && Field(a, pe + 80, 4) == Field(b, pe + 80, 4)
    ensures Field(a, pe + 84, 4) == Field(b, pe + 84, 4) && Field(a, pe + 132, 4) == Field(b, pe + 132, 4)
  {
    LittleSame(a, b, 0x3c, 0x40);
    LittleSame(a, b, pe + 4, pe + 6);
    LittleSame(a, b, pe + 6, pe + 8);
    LittleSame(a, b, pe + 20, pe + 22);
    LittleSame(a, b, pe + 24, pe + 26);
    LittleSame(a, b, pe + 92, pe + 94);
    LittleSame(a, b, pe + 80, pe + 84);
    LittleSame(a, b, pe + 84, pe + 88);
    LittleSame(a, b, pe + 132, pe + 136);
  }

  lemma {:induction false} SameLeading(a: bytes, b: bytes, pe: nat, end: nat)
    requires |a| == |b| && 2 <= end <= |a| && pe + 4 <= end
    requires forall k :: 0 <= k < end ==> a[k] == b[k]
    ensures a[..2] == b[..2] && a[pe..pe + 4] == b[pe..pe + 4]
  {
  }

  lemma {:induction false} ParseReadsHeaders(a: bytes, b: bytes)
    requires Parse(a).Ok? && |a| == |b|
    requires forall k :: 0 <= k < Parse(a).value.header.sizeOfHeaders ==> a[k] == b[k]
    ensures Parse(b) == Parse(a)
  {
    HeaderReadsHeaders(a, b);
    HeaderFacts(a);
    var h := ParseHeader(a).value;
    SectionsSame(a, b, h, h.sizeOfHeaders, h.sectionCount);
  }

  /**
   Whenever an accepted image has a gap before a section, some byte that belongs to neither
   the headers nor the certificate can be anything.
   */
  lemma {:induction false} GapEscapesDigest(image: bytes, d: Digested) returns (p: nat)
    requires HashInput(image) == Ok(d) && !GapFree(d.layout)
    ensures d.layout.header.sizeOfHeaders <= p < |image| - d.certificate
    ensures forall other :: DiffersAt(image, other, p) ==> HashInput(other) == Ok(d)
  {
    AcceptedIsCovered(image, d);
    var rs, headers := InFileOrder(d.layout), d.layout.header.sizeOfHeaders;
    var k := FirstGap(rs, headers, |image|, |rs|);
    p := EndBefore(rs, headers, k);
    forall other | DiffersAt(image, other, p) ensures HashInput(other) == Ok(d) {
      AllMiss(rs, headers, |image|, k, p, |rs|);
      EscapesAt(image, other, d, p);
    }
  }

  lemma {:induction false} EscapesAt(image: bytes, other: bytes, d: Digested, p: nat)
    requires HashInput(image) == Ok(d) && DiffersAt(image, other, p)
    requires
      var rs, headers := InFileOrder(d.layout), d.layout.header.sizeOfHeaders;
      Misses(rs, p, |rs|) && headers <= p < HashedUpTo(rs, headers, |rs|)
    ensures HashInput(other) == Ok(d)
  {
    AcceptedIsCovered(image, d);
    OtherCovered(image, other, p, d.layout, InFileOrder(d.layout), d);
    ParseReadsHeaders(image, other);
    CertificateMisses(image, other, p, d.layout.header);
  }

  lemma {:induction false} OtherCovered(image: bytes, other: bytes, p: nat, pe: Image, rs: seq<Raw>, d: Digested)
    requires Laid(pe.header, |image|) && Inside(rs, pe.header.sizeOfHeaders, |image|, |rs|)
    requires Covered(image, pe, rs, d.certificate) == Ok(d)
    requires DiffersAt(image, other, p) && Misses(rs, p, |rs|)
    requires pe.header.sizeOfHeaders <= p < HashedUpTo(rs, pe.header.sizeOfHeaders, |rs|)
    ensures Covered(other, pe, rs, d.certificate) == Ok(d)
  {
    CoveredBytesMiss(image, other, p, pe.header, rs, d.certificate);
  }
}

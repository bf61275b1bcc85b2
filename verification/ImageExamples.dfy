/** Small images: accepted with and without a gap before their section, and with one in the certificate. */
module ImageExamples {
  import opened Basics
  import opened PeImage
  import opened Authenticode
  import opened DigestCoverage

  const IMAGE_BYTES := 242
  const HEADERS_END: byte := 240

  /**
   Byte `i` of an image whose one section holds a single byte at `rawOffset`. The PE header
   is at 64, the optional header at 88, without data directories, and the section table at 200.
   */
  function ByteAt(i: nat, rawOffset: byte): byte {
    match i
    case 0 => 0x4D
    case 1 => 0x5A
    case 60 => 64
    case 64 => 0x50
    case 65 => 0x45
    case 68 => 0x64
    case 69 => 0x86
    case 70 => 1
    case 84 => 112
    case 88 => 0x0b
    case 89 => 0x02
    case 144 => 255
    case 148 => HEADERS_END
    case 156 => 10
    case 212 => HEADERS_END
    case 216 => 1
    case 220 => rawOffset
    case _ => 0
  }

  function SmallImage(rawOffset: byte): bytes {
    seq(IMAGE_BYTES, i requires 0 <= i < IMAGE_BYTES => ByteAt(i, rawOffset))
  }

  /** A field that holds less than 256. */
  lemma {:induction false} LowField(image: bytes, at: nat, length: nat)
    requires 0 < length && at + length <= |image| && forall k :: at < k < at + length ==> image[k] == 0
    ensures Field(image, at, length) == image[at]
  {
    ZeroField(image, at + 1, at + length);
  }

  lemma {:induction false} ZeroField(image: bytes, lo: nat, hi: nat)
    requires lo <= hi <= |image| && forall k :: lo <= k < hi ==> image[k] == 0
    ensures Little(image, lo, hi) == 0
    decreases hi - lo
  {
    if lo < hi {
      ZeroField(image, lo + 1, hi);
    }
  }

  lemma {:induction false} TwoBytes(image: bytes, at: nat)
    requires at + 2 <= |image|
    ensures Field(image, at, 2) == image[at] as int + 256 * image[at + 1] as int
  {
    assert Little(image, at + 2, at + 2) == 0;
    assert Little(image, at + 1, at + 2) == image[at + 1];
  }

  const HEADER := Header(152, 200, 0, HEADERS_END as int, 200, 1)

  /** What the fields of the headers hold. */
  predicate SmallFields(image: bytes) {
    && |image| == IMAGE_BYTES && image[..2] == MZ && Field(image, 60, 4) == 64 && image[64..68] == PE00
    && Field(image, 70, 2) == 1 && Field(image, 84, 2) == 112 && IsEfiApplication(image, 64)
    && Field(image, 144, 4) == 255 && Field(image, 148, 4) == HEADERS_END as int && Field(image, 196, 4) == 0
  }

  lemma {:induction false} SmallLayout(rawOffset: byte)
    ensures SmallFields(SmallImage(rawOffset))
  {
    var image := SmallImage(rawOffset);
    assert image[..2] == MZ && image[64..68] == PE00;
    LowField(image, 60, 4);
    LowField(image, 70, 2);
    LowField(image, 84, 2);
    LowField(image, 144, 4);
    LowField(image, 148, 4);
    LowField(image, 196, 4);
    LowField(image, 156, 2);
    TwoBytes(image, 68);
    TwoBytes(image, 88);
  }

  lemma {:induction false} SmallHeader(image: bytes)
    requires SmallFields(image)
    ensures ParseHeader(image) == Ok(HEADER)
  {
    assert PeOffset(image) == Ok(64);
    assert OptionalHeaderSize(image, 64) == Ok(112);
    assert HeaderOf(image, 64, 112) == HEADER;
  }

  lemma {:induction false} SmallSection(rawOffset: byte)
    ensures
      var s := SectionAt(SmallImage(rawOffset), 200);
      s.rawSize == 1 && s.rawOffset == rawOffset && s.virtualAddress == HEADERS_END
  {
    var image := SmallImage(rawOffset);
    LowField(image, 212, 4);
    LowField(image, 216, 4);
    LowField(image, 220, 4);
  }

  lemma {:induction false} TableOfOne(image: bytes, h: Header)
    requires h.sectionTable + PE_SECTION_HEADER_BYTES <= |image|
    requires SectionInside(SectionAt(image, h.sectionTable), h.sizeOfHeaders, |image|)
    ensures SectionsUpTo(image, h, 1) == Ok([SectionAt(image, h.sectionTable)])
  {
    var none: seq<Section> := [];
    var s := SectionAt(image, h.sectionTable);
    assert SectionsUpTo(image, h, 0) == Ok(none);
    assert SectionsUpTo(image, h, 1) == Ok(none + [s]);
    assert none + [s] == [s];
  }

  lemma {:induction false} OneSectionParses(image: bytes, h: Header)
    requires ParseHeader(image) == Ok(h) && h.sectionCount == 1
    requires h.sectionTable + PE_SECTION_HEADER_BYTES <= |image|
    requires SectionInside(SectionAt(image, h.sectionTable), h.sizeOfHeaders, |image|)
    ensures Parse(image) == Ok(Image(h, [SectionAt(image, h.sectionTable)]))
  {
    TableOfOne(image, h);
  }

  lemma {:induction false} OneRaw(h: Header, s: Section)
    requires s.rawSize == 1
    ensures InFileOrder(Image(h, [s])) == [Raw(s.rawOffset, 1)]
  {
    assert RawSections([s]) == [Raw(s.rawOffset, 1)] + RawSections([]);
    assert Sort([Raw(s.rawOffset, 1)]) == Insert(Raw(s.rawOffset, 1), Sort([]));
  }

  lemma {:induction false} OneSection(image: bytes, pe: Image, rs: seq<Raw>)
    requires pe.header == HEADER && |image| == IMAGE_BYTES && Inside(rs, HEADERS_END, |image|, |rs|)
    requires |rs| == 1 && rs[0].size == 1 && HEADERS_END <= rs[0].offset
    requires Laid(HEADER, |image|)
    ensures CertificateSize(image, HEADER) == Ok(0)
    ensures Covered(image, pe, rs, 0).Ok? && Covered(image, pe, rs, 0).value.layout == pe
    ensures Adjacent(rs, HEADERS_END, 1) <==> rs[0].offset == HEADERS_END
  {
    assert Apart(rs, HEADERS_END, 0) && HashedUpTo(rs, HEADERS_END, 0) == HEADERS_END;
    assert HashedUpTo(rs, HEADERS_END, 1) == 241;
  }

  /**
   The image is accepted with its section right behind the headers, where it has no gap,
   and one byte further, where it has one.
   */
  lemma {:induction false} GapMayBeAccepted(rawOffset: byte) returns (d: Digested)
    requires rawOffset == 240 || rawOffset == 241
    ensures HashInput(SmallImage(rawOffset)) == Ok(d) && InFileOrder(d.layout) == [Raw(rawOffset, 1)]
    ensures d.layout.header == HEADER && (GapFree(d.layout) <==> rawOffset == 240)
  {
    var image := SmallImage(rawOffset);
    var s := SectionAt(image, 200);
    SmallLayout(rawOffset);
    SmallHeader(image);
    SmallSection(rawOffset);
    OneSectionParses(image, HEADER);
    OneRaw(HEADER, s);
    ParsedIsReadable(image);
    OneSection(image, Image(HEADER, [s]), [Raw(rawOffset, 1)]);
    d := HashInput(image).value;
  }

  /** Accepted images that differ outside headers and certificate, with one digest between them. */
  lemma {:induction false} ManyImagesOneDigest(x: byte)
    ensures
      var image := SmallImage(241);
      HashInput(image).Ok? && HashInput(image[240 := x]) == HashInput(image)
  {
    var image := SmallImage(241);
    var d := GapMayBeAccepted(241);
    OneMisses(InFileOrder(d.layout), 240);
    Escapes(image, x, d);
  }

  lemma {:induction false} Escapes(image: bytes, x: byte, d: Digested)
    requires HashInput(image) == Ok(d) && |image| == IMAGE_BYTES && d.layout.header.sizeOfHeaders <= 240
    requires
      var rs := InFileOrder(d.layout);
      Misses(rs, 240, |rs|) && 240 < HashedUpTo(rs, d.layout.header.sizeOfHeaders, |rs|)
    ensures HashInput(image[240 := x]) == HashInput(image)
  {
    EscapesAt(image, image[240 := x], d, 240);
  }

  lemma {:induction false} OneMisses(rs: seq<Raw>, p: nat)
    requires |rs| == 1 && p < rs[0].offset && rs[0].size == 1
    ensures Misses(rs, p, 1) && HashedUpTo(rs, HEADERS_END, 1) == 241
  {
    assert Misses(rs, p, 0) && HashedUpTo(rs, HEADERS_END, 0) == HEADERS_END;
  }

  // ----- A section in the certificate table -----

  const SIGNED_BYTES := 222
  const SIGNED_HEADERS_END: byte := 220
  const SIGNED_HEADER := Header(92, 140, 5, SIGNED_HEADERS_END as int, 180, 1)

  /**
   Byte `i` of an image with five data directories, whose last byte is its certificate table and
   whose one section holds a single byte at `rawOffset`. The PE header begins at 4.
   */
  function SignedByteAt(i: nat, rawOffset: byte): byte {
    match i
    case 0 => 0x4D
    case 1 => 0x5A
    case 4 => 0x50
    case 5 => 0x45
    case 8 => 0x64
    case 9 => 0x86
    case 10 => 1
    case 24 => 152
    case 28 => 0x0b
    case 29 => 0x02
    case 60 => 4
    case 84 => 255
    case 88 => SIGNED_HEADERS_END
    case 96 => 10
    case 136 => 5
    case 172 => 221
    case 176 => 1
    case 192 => SIGNED_HEADERS_END
    case 196 => 1
    case 200 => rawOffset
    case _ => 0
  }

  function SignedImage(rawOffset: byte): bytes {
    seq(SIGNED_BYTES, i requires 0 <= i < SIGNED_BYTES => SignedByteAt(i, rawOffset))
  }

  predicate SignedFields(image: bytes) {
    && |image| == SIGNED_BYTES && image[..2] == MZ && Field(image, 60, 4) == 4 && image[4..8] == PE00
    && Field(image, 10, 2) == 1 && Field(image, 24, 2) == 152 && IsEfiApplication(image, 4)
    && Field(image, 84, 4) == 255 && Field(image, 88, 4) == SIGNED_HEADERS_END as int && Field(image, 136, 4) == 5
  }

  lemma {:induction false} SignedLayout(rawOffset: byte)
    ensures SignedFields(SignedImage(rawOffset))
  {
    var image := SignedImage(rawOffset);
    assert image[..2] == MZ && image[4..8] == PE00;
    LowField(image, 60, 4);
    LowField(image, 10, 2);
    LowField(image, 24, 2);
    LowField(image, 84, 4);
    LowField(image, 88, 4);
    LowField(image, 136, 4);
    LowField(image, 96, 2);
    TwoBytes(image, 8);
    TwoBytes(image, 28);
  }

  lemma {:induction false} SignedHeader(image: bytes)
    requires SignedFields(image)
    ensures ParseHeader(image) == Ok(SIGNED_HEADER)
  {
    assert PeOffset(image) == Ok(4);
    assert OptionalHeaderSize(image, 4) == Ok(152);
    assert HeaderOf(image, 4, 152) == SIGNED_HEADER;
  }

  lemma {:induction false} SignedSection(rawOffset: byte)
    ensures
      var s := SectionAt(SignedImage(rawOffset), 180);
      s.rawSize == 1 && s.rawOffset == rawOffset && s.virtualAddress == SIGNED_HEADERS_END
  {
    var image := SignedImage(rawOffset);
    LowField(image, 192, 4);
    LowField(image, 196, 4);
    LowField(image, 200, 4);
  }

  lemma {:induction false} SignedCertificate(rawOffset: byte)
    ensures CertificateSize(SignedImage(rawOffset), SIGNED_HEADER) == Ok(1)
  {
    var image := SignedImage(rawOffset);
    LowField(image, 172, 4);
    LowField(image, 176, 4);
  }

  lemma {:induction false} OneSignedSection(image: bytes, pe: Image, rs: seq<Raw>)
    requires pe.header == SIGNED_HEADER && |image| == SIGNED_BYTES && Inside(rs, SIGNED_HEADERS_END, |image|, |rs|)
    requires |rs| == 1 && rs[0].size == 1 && Laid(SIGNED_HEADER, |image|)
    ensures Covered(image, pe, rs, 1).Ok?
    ensures Covered(image, pe, rs, 1).value.layout == pe && Covered(image, pe, rs, 1).value.certificate == 1
    ensures Inside(rs, SIGNED_HEADERS_END, 221, 1) <==> rs[0].offset == SIGNED_HEADERS_END
  {
    assert Inside(rs, SIGNED_HEADERS_END, |image|, 0) && Inside(rs, SIGNED_HEADERS_END, 221, 0);
    assert Apart(rs, SIGNED_HEADERS_END, 0) && HashedUpTo(rs, SIGNED_HEADERS_END, 0) == SIGNED_HEADERS_END;
    assert HashedUpTo(rs, SIGNED_HEADERS_END, 1) == 221;
  }

  /**
   The image is accepted with its section before the certificate table, where signing leaves the
   digest input alone, and in it, where some other signature does not.
   */
  lemma {:induction false} SignatureMayBeHashed(rawOffset: byte) returns (d: Digested)
    requires rawOffset == 220 || rawOffset == 221
    ensures HashInput(SignedImage(rawOffset)) == Ok(d)
    ensures SurvivesSigning(SignedImage(rawOffset), d) <==> rawOffset == 220
  {
    var image := SignedImage(rawOffset);
    var s := SectionAt(image, 180);
    SignedLayout(rawOffset);
    SignedHeader(image);
    SignedSection(rawOffset);
    OneSectionParses(image, SIGNED_HEADER);
    OneRaw(SIGNED_HEADER, s);
    ParsedIsReadable(image);
    SignedCertificate(rawOffset);
    OneSignedSection(image, Image(SIGNED_HEADER, [s]), [Raw(rawOffset, 1)]);
    d := HashInput(image).value;
    SurvivesSigningIff(image, d);
  }
}

/**
 The layout check of a PE32+ image and the bytes that its Authenticode digest covers
 ("Windows Authenticode Portable Executable Signature Format", section "Calculating the
 PE Image Hash"). The hash function itself is applied to the bytes returned here.
 */
module PeImage {
  import opened Basics

  const AMD64_MACHINE := 0x8664
  const EFI_APPLICATION_SUBSYSTEM := 10
  const MAXIMUM_PE_DATA_DIRECTORIES := 16
  const MAXIMUM_PE_SECTIONS := 96
  const PE32_PLUS_MAGIC := 0x20b
  const PE32_PLUS_HEADER_BYTES := 112
  const PE_SECTION_HEADER_BYTES := 40
  const SECURITY_DIRECTORY_INDEX := 4
  const MZ: bytes := [0x4D, 0x5A]
  const PE00: bytes := [0x50, 0x45, 0, 0]

  datatype Section = Section(name: bytes, virtualSize: nat, virtualAddress: nat, rawSize: nat, rawOffset: nat)

  datatype Header = Header(
    checksum: nat,
    dataDirectories: nat,
    numberOfDirectories: nat,
    sizeOfHeaders: nat,
    sectionTable: nat,
    sectionCount: nat)

  datatype Image = Image(header: Header, sections: seq<Section>)

  datatype PeError =
    | DosHeader
    | FieldOutside(field: string)
    | Signature
    | OptionalHeaderOutside
    | NotEfiApplication
    | SectionCount
    | OptionalHeaderLayout
    | Headers
    | SectionOutside
    | SecurityDirectory
    | CertificateTable
    | SectionsOverlap
    | RegionsExceed

  // ----- Reading fields -----

  /** `int.from_bytes(image[lo:hi], "little")`. */
  function Little(image: bytes, lo: nat, hi: nat): nat
    requires lo <= hi <= |image|
    decreases hi - lo
  {
    if lo == hi then 0 else image[lo] + 256 * Little(image, lo + 1, hi)
  }

  /** The unsigned field of `length` bytes at `offset`. */
  function Field(image: bytes, offset: nat, length: nat): nat
    requires offset + length <= |image|
  {
    Little(image, offset, offset + length)
  }

  /** `read_pe_unsigned`. */
  function ReadUnsigned(image: bytes, offset: int, length: int, field: string): (r: Result<nat, PeError>)
    ensures r.Ok? <==> 0 <= offset && 0 < length && offset + length <= |image|
    ensures r.Err? ==> r.error == FieldOutside(field)
    ensures r.Ok? ==> r.value == Field(image, offset, length)
  {
    if offset < 0 || length <= 0 || offset + length > |image| then Err(FieldOutside(field))
    else Ok(Field(image, offset, length))
  }

  function Pow256(n: nat): nat {
    if n == 0 then 1 else 256 * Pow256(n - 1)
  }

  lemma {:induction false} LittleTells(a: bytes, i: nat, b: bytes, j: nat, n: nat)
    requires i + n <= |a| && j + n <= |b|
    ensures Little(a, i, i + n) < Pow256(n)
    ensures Little(a, i, i + n) == Little(b, j, j + n) <==> a[i..i + n] == b[j..j + n]
    decreases n
  {
    if n == 0 {
    } else {
      LittleTells(a, i + 1, b, j + 1, n - 1);
      assert a[i..i + n] == [a[i]] + a[i + 1..i + n];
      assert b[j..j + n] == [b[j]] + b[j + 1..j + n];
      SameDigits(a[i], Little(a, i + 1, i + n), b[j], Little(b, j + 1, j + n));
    }
  }

  lemma {:induction false} SameDigits(x: byte, more: nat, y: byte, rest: nat)
    ensures x + 256 * more == y + 256 * rest <==> x == y && more == rest
  {
  }

  /** A field that can be read is below 256^length; two have the same value exactly when their bytes are the same. */
  lemma {:induction false} FieldTells(a: bytes, i: int, b: bytes, j: int, length: int, field: string)
    requires ReadUnsigned(a, i, length, field).Ok? && ReadUnsigned(b, j, length, field).Ok?
    ensures ReadUnsigned(a, i, length, field).value < Pow256(length)
    ensures ReadUnsigned(a, i, length, field) == ReadUnsigned(b, j, length, field)
      <==> a[i..i + length] == b[j..j + length]
  {
    LittleTells(a, i, b, j, length);
  }

  // ----- The layout an image must have -----

  /** The PE signature is where the DOS header says. */
  function PeOffset(image: bytes): Result<nat, PeError> {
    if |image| < 64 || image[..2] != MZ then Err(DosHeader)
    else
      var pe := Field(image, 0x3c, 4);
      if pe + 4 <= |image| && image[pe..pe + 4] == PE00 then Ok(pe) else Err(Signature)
  }

  /** The optional header that follows the file header lies in the image. */
  function OptionalHeaderSize(image: bytes, pe: nat): Result<nat, PeError> {
    if |image| < pe + 6 then Err(FieldOutside("machine type"))
    else if |image| < pe + 8 then Err(FieldOutside("section count"))
    else if |image| < pe + 22 then Err(FieldOutside("optional header size"))
    else
      var size := Field(image, pe + 20, 2);
      if size < PE32_PLUS_HEADER_BYTES || pe + 24 + size > |image| then Err(OptionalHeaderOutside) else Ok(size)
  }

  predicate IsEfiApplication(image: bytes, pe: nat)
    requires pe + 136 <= |image|
  {
    && Field(image, pe + 4, 2) == AMD64_MACHINE
    && Field(image, pe + 24, 2) == PE32_PLUS_MAGIC
    && Field(image, pe + 92, 2) == EFI_APPLICATION_SUBSYSTEM
  }

  function HeaderOf(image: bytes, pe: nat, optionalSize: nat): Header
    requires pe + 136 <= |image|
  {
    Header(pe + 88, pe + 136, Field(image, pe + 132, 4), Field(image, pe + 84, 4), pe + 24 + optionalSize,
           Field(image, pe + 6, 2))
  }

  predicate HeadersFit(h: Header, sizeOfImage: nat, length: nat) {
    var tableEnd := h.sectionTable + h.sectionCount * PE_SECTION_HEADER_BYTES;
    && h.checksum + 4 <= h.sizeOfHeaders && tableEnd <= h.sizeOfHeaders
    && h.sizeOfHeaders < sizeOfImage && tableEnd < sizeOfImage && h.sizeOfHeaders <= length
  }

  predicate DirectoriesFit(h: Header) {
    && h.numberOfDirectories <= MAXIMUM_PE_DATA_DIRECTORIES
    && h.dataDirectories + h.numberOfDirectories * 8 == h.sectionTable
  }

  /** The headers, or the first check that they fail. */
  function ParseHeader(image: bytes): Result<Header, PeError> {
    match PeOffset(image)
    case Err(e) => Err(e)
    case Ok(pe) =>
      match OptionalHeaderSize(image, pe)
      case Err(e) => Err(e)
      case Ok(size) =>
        var h := HeaderOf(image, pe, size);
        if !IsEfiApplication(image, pe) then Err(NotEfiApplication)
        else if h.sectionCount == 0 || h.sectionCount > MAXIMUM_PE_SECTIONS then Err(SectionCount)
        else if !DirectoriesFit(h) then Err(OptionalHeaderLayout)
        else if !HeadersFit(h, Field(image, pe + 80, 4), |image|) then Err(Headers)
        else Ok(h)
  }

  function SectionAt(image: bytes, at: nat): Section
    requires at + PE_SECTION_HEADER_BYTES <= |image|
  {
    Section(image[at..at + 8], Field(image, at + 8, 4), Field(image, at + 12, 4), Field(image, at + 16, 4),
            Field(image, at + 20, 4))
  }

  /** An empty section may lie anywhere; any other is after the headers and inside the image. */
  predicate SectionInside(s: Section, headers: nat, length: nat) {
    s.rawSize == 0 || (s.virtualAddress >= headers && s.rawOffset >= headers && s.rawOffset + s.rawSize <= length)
  }

  /** The first `n` sections of the table. */
  function SectionsUpTo(image: bytes, h: Header, n: nat): Result<seq<Section>, PeError>
    requires h.sectionTable + n * PE_SECTION_HEADER_BYTES <= |image|
  {
    if n == 0 then Ok([])
    else
      match SectionsUpTo(image, h, n - 1)
      case Err(e) => Err(e)
      case Ok(front) =>
        var s := SectionAt(image, h.sectionTable + (n - 1) * PE_SECTION_HEADER_BYTES);
        if SectionInside(s, h.sizeOfHeaders, |image|) then Ok(front + [s]) else Err(SectionOutside)
  }

  function Parse(image: bytes): Result<Image, PeError> {
    match ParseHeader(image)
    case Err(e) => Err(e)
    case Ok(h) =>
      match SectionsUpTo(image, h, h.sectionCount)
      case Err(e) => Err(e)
      case Ok(sections) => Ok(Image(h, sections))
  }

  /** One turn of the loop over the section table. */
  method ReadSection(image: bytes, h: Header, index: nat) returns (r: Result<Section, PeError>)
    requires h.sectionTable + (index + 1) * PE_SECTION_HEADER_BYTES <= |image|
    ensures
      var s := SectionAt(image, h.sectionTable + index * PE_SECTION_HEADER_BYTES);
      r == if SectionInside(s, h.sizeOfHeaders, |image|) then Ok(s) else Err(SectionOutside)
  {
    var section := h.sectionTable + index * PE_SECTION_HEADER_BYTES;
    var name := image[section..section + 8];
    var virtualSize := ReadUnsigned(image, section + 8, 4, "section virtual size").value;
    var virtualAddress := ReadUnsigned(image, section + 12, 4, "section virtual address").value;
    var rawSize := ReadUnsigned(image, section + 16, 4, "section raw size").value;
    var rawOffset := ReadUnsigned(image, section + 20, 4, "section raw offset").value;
    if rawSize != 0
       && (virtualAddress < h.sizeOfHeaders || rawOffset < h.sizeOfHeaders || rawOffset + rawSize > |image|) {
      return Err(SectionOutside);
    }
    return Ok(Section(name, virtualSize, virtualAddress, rawSize, rawOffset));
  }

  /** The checks before the loop over the sections, in the order of the source. */
  method ReadHeader(image: bytes) returns (r: Result<Header, PeError>)
    ensures r == ParseHeader(image)
  {
    if |image| < 64 || image[..2] != MZ {
      return Err(DosHeader);
    }
    var pe := ReadUnsigned(image, 0x3c, 4, "PE header offset").value;
    if pe + 4 > |image| || image[pe..pe + 4] != PE00 {
      return Err(Signature);
    }
    var fileHeader := pe + 4;
    var machine :- ReadUnsigned(image, fileHeader, 2, "machine type");
    var sectionCount :- ReadUnsigned(image, fileHeader + 2, 2, "section count");
    var optionalHeaderSize :- ReadUnsigned(image, fileHeader + 16, 2, "optional header size");
    var optionalHeader := fileHeader + 20;
    var optionalHeaderEnd := optionalHeader + optionalHeaderSize;
    if optionalHeaderSize < PE32_PLUS_HEADER_BYTES || optionalHeaderEnd > |image| {
      return Err(OptionalHeaderOutside);
    }
    var magic := ReadUnsigned(image, optionalHeader, 2, "optional header magic").value;
    var subsystem := ReadUnsigned(image, optionalHeader + 68, 2, "subsystem").value;
    if machine != AMD64_MACHINE || magic != PE32_PLUS_MAGIC || subsystem != EFI_APPLICATION_SUBSYSTEM {
      return Err(NotEfiApplication);
    }
    if sectionCount == 0 || sectionCount > MAXIMUM_PE_SECTIONS {
      return Err(SectionCount);
    }
    var sizeOfHeaders := ReadUnsigned(image, optionalHeader + 60, 4, "header size").value;
    var sizeOfImage := ReadUnsigned(image, optionalHeader + 56, 4, "image size").value;
    var checksum := optionalHeader + 64;
    var numberOfDirectories := ReadUnsigned(image, optionalHeader + 108, 4, "data directory count").value;
    var dataDirectories := optionalHeader + 112;
    if numberOfDirectories > MAXIMUM_PE_DATA_DIRECTORIES
       || dataDirectories + numberOfDirectories * 8 != optionalHeaderEnd {
      return Err(OptionalHeaderLayout);
    }
    var sectionTable := optionalHeaderEnd;
    var sectionTableEnd := sectionTable + sectionCount * PE_SECTION_HEADER_BYTES;
    if checksum + 4 > sizeOfHeaders || sectionTableEnd > sizeOfHeaders || sizeOfHeaders >= sizeOfImage
       || sizeOfImage <= sectionTableEnd || sizeOfHeaders > |image| {
      return Err(Headers);
    }
    return Ok(Header(checksum, dataDirectories, numberOfDirectories, sizeOfHeaders, sectionTable, sectionCount));
  }

  /** The loop over the section table. */
  method ReadSections(image: bytes, h: Header) returns (r: Result<seq<Section>, PeError>)
    requires h.sectionTable + h.sectionCount * PE_SECTION_HEADER_BYTES <= |image|
    ensures r == SectionsUpTo(image, h, h.sectionCount)
  {
    var sections := [];
    var index := 0;
    while index < h.sectionCount
      invariant 0 <= index <= h.sectionCount
      invariant SectionsUpTo(image, h, index) == Ok(sections)
    {
      var section := ReadSection(image, h, index);
      if section.Err? {
        ErrorStays(image, h, index + 1, h.sectionCount);
        return Err(section.error);
      }
      sections := sections + [section.value];
      index := index + 1;
    }
    return Ok(sections);
  }

  /** `parse_pe_image`. */
  method ParsePeImage(image: bytes) returns (r: Result<Image, PeError>)
    ensures r == Parse(image)
  {
    var h :- ReadHeader(image);
    HeaderFacts(image);
    var sections :- ReadSections(image, h);
    return Ok(Image(h, sections));
  }

  lemma {:induction false} ErrorStays(image: bytes, h: Header, m: nat, n: nat)
    requires m <= n && h.sectionTable + n * PE_SECTION_HEADER_BYTES <= |image|
    requires SectionsUpTo(image, h, m).Err?
    ensures SectionsUpTo(image, h, n) == SectionsUpTo(image, h, m)
  {
    if m < n {
      ErrorStays(image, h, m, n - 1);
    }
  }

  /** The order of the layout. In particular the guard on the security directory never fires. */
  lemma {:induction false} HeaderFacts(image: bytes)
    requires ParseHeader(image).Ok?
    ensures
      var h := ParseHeader(image).value;
      && 88 <= h.checksum && h.dataDirectories == h.checksum + 48
      && h.sectionTable + h.sectionCount * PE_SECTION_HEADER_BYTES <= h.sizeOfHeaders <= |image|
      && h.dataDirectories + 8 * h.numberOfDirectories == h.sectionTable
      && (h.numberOfDirectories > SECURITY_DIRECTORY_INDEX ==> SecurityEntry(h) + 8 <= h.sizeOfHeaders)
  {
  }

  function SecurityEntry(h: Header): nat {
    h.dataDirectories + SECURITY_DIRECTORY_INDEX * 8
  }
}

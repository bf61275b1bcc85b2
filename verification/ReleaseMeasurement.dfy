/** What the published measurement of a release image says about its boot chain. */
module ReleaseMeasurement {
  import opened Basics
  import opened PeImage
  import opened Authenticode
  import opened DigestCoverage
  import opened Registers

  // ----- The embedded Linux image -----

  const LINUX: bytes := [0x2E, 0x6C, 0x69, 0x6E, 0x75, 0x78]

  /** `name.rstrip(b"\0")`. */
  function StripZeros(name: bytes): bytes {
    if name != [] && name[|name| - 1] == 0 then StripZeros(name[..|name| - 1]) else name
  }

  function LinuxSections(sections: seq<Section>): (r: seq<Section>)
    ensures forall s :: s in r ==> s in sections
  {
    if sections == [] then []
    else (if StripZeros(sections[0].name) == LINUX then [sections[0]] else []) + LinuxSections(sections[1..])
  }

  datatype LinuxError = Unreadable(error: PeError) | NotOneSection | SectionSize

  /** The one `.linux` section; Python slices stop at the end of the image. */
  function LinuxOf(image: bytes, sections: seq<Section>): Result<bytes, LinuxError> {
    var found := LinuxSections(sections);
    if |found| != 1 then Err(NotOneSection)
    else
      var s := found[0];
      if s.virtualSize == 0 || s.virtualSize > s.rawSize then Err(SectionSize)
      else Ok(image[Min(s.rawOffset, |image|)..Min(s.rawOffset + s.virtualSize, |image|)])
  }

  /** `extract_embedded_linux_image`. */
  function ExtractLinux(image: bytes): Result<bytes, LinuxError> {
    match Parse(image)
    case Err(e) => Err(Unreadable(e))
    case Ok(pe) => LinuxOf(image, pe.sections)
  }

  /** The name is `.linux`, padded with zeros. */
  predicate NamedLinux(s: Section) {
    LINUX <= s.name && forall k :: |LINUX| <= k < |s.name| ==> s.name[k] == 0
  }

  lemma {:induction false} StripZerosIsPadding(name: bytes)
    ensures StripZeros(name) == LINUX <==> LINUX <= name && forall k :: |LINUX| <= k < |name| ==> name[k] == 0
  {
    if name != [] && name[|name| - 1] == 0 {
      var front := name[..|name| - 1];
      StripZerosIsPadding(front);
      assert LINUX <= name ==> LINUX <= front by {
        if LINUX <= name {
          assert name[|LINUX| - 1] == LINUX[|LINUX| - 1];
        }
      }
    }
  }

  /** The only section named `.linux`. */
  ghost predicate OnlyLinux(sections: seq<Section>, k: nat) {
    && k < |sections| && NamedLinux(sections[k])
    && forall j :: 0 <= j < |sections| && j != k ==> !NamedLinux(sections[j])
  }

  lemma {:induction false} NoneFoundIff(sections: seq<Section>)
    ensures LinuxSections(sections) == [] <==> forall k :: 0 <= k < |sections| ==> !NamedLinux(sections[k])
  {
    if sections != [] {
      NoneFoundIff(sections[1..]);
      StripZerosIsPadding(sections[0].name);
      assert forall j :: 0 < j < |sections| ==> sections[j] == sections[1..][j - 1];
    }
  }

  /** One section is found exactly when one section is the only one named so. */
  lemma {:induction false} OneFound(sections: seq<Section>, k: nat)
    requires OnlyLinux(sections, k)
    ensures LinuxSections(sections) == [sections[k]]
  {
    StripZerosIsPadding(sections[0].name);
    OneMoreSection(sections);
    if k == 0 {
      NoneFoundIff(sections[1..]);
    } else {
      OneFound(sections[1..], k - 1);
    }
  }

  lemma {:induction false} OnlyOne(sections: seq<Section>) returns (k: nat)
    requires |LinuxSections(sections)| == 1
    ensures OnlyLinux(sections, k)
  {
    StripZerosIsPadding(sections[0].name);
    OneMoreSection(sections);
    if NamedLinux(sections[0]) {
      NoneFoundIff(sections[1..]);
      k := 0;
    } else {
      k := OnlyOne(sections[1..]);
      k := k + 1;
    }
  }

  lemma {:induction false} OneMoreSection(sections: seq<Section>)
    requires sections != []
    ensures OnlyLinux(sections, 0) <==>
      NamedLinux(sections[0]) && forall k :: 0 <= k < |sections[1..]| ==> !NamedLinux(sections[1..][k])
    ensures forall k: nat :: OnlyLinux(sections, k + 1) <==> !NamedLinux(sections[0]) && OnlyLinux(sections[1..], k)
  {
    forall k: nat ensures OnlyLinux(sections, k + 1) <==> !NamedLinux(sections[0]) && OnlyLinux(sections[1..], k) {
      if !NamedLinux(sections[0]) && OnlyLinux(sections[1..], k) {
        forall j | 0 <= j < |sections| && j != k + 1 ensures !NamedLinux(sections[j]) {
          assert j == 0 || sections[j] == sections[1..][j - 1];
        }
      }
      if OnlyLinux(sections, k + 1) {
        forall j | 0 <= j < |sections[1..]| && j != k ensures !NamedLinux(sections[1..][j]) {
          assert sections[1..][j] == sections[j + 1];
        }
      }
    }
    assert forall k :: 0 <= k < |sections[1..]| ==> sections[1..][k] == sections[k + 1];
    assert forall j :: 0 < j < |sections| ==> sections[j] == sections[1..][j - 1];
  }

  // ----- The register -----

  datatype MeasureError = InUki(uki: PeError) | InLinux(linux: PeError) | NotEmbedded(reason: LinuxError)

  /** The two digests of `get_efi_application_digests`, before hashing. */
  function Applications(uki: bytes): Result<(Digested, Digested), MeasureError> {
    match HashInput(uki)
    case Err(e) => Err(InUki(e))
    case Ok(u) =>
      match ExtractLinux(uki)
      case Err(e) => Err(NotEmbedded(e))
      case Ok(linux) =>
        match HashInput(linux)
        case Err(e) => Err(InLinux(e))
        case Ok(l) => Ok((u, l))
  }

  const CALLING := "Calling EFI Application from Boot Option"
  const SEPARATOR: bytes := [0, 0, 0, 0]
  const EXITING := "Exit Boot Services Invocation"
  const EXITED := "Exit Boot Services Returned with Success"

  /** What the firmware extends on the first boot from the disk. */
  function Events<D>(h: Hasher<D>, gpt: D, uki: D, linux: D): seq<D> {
    [h.sha(Ascii(CALLING)), h.sha(SEPARATOR), gpt, uki, linux, h.sha(Ascii(EXITING)), h.sha(Ascii(EXITED))]
  }

  /** `hash_and_extend`. */
  function HashAndExtend<D>(h: Hasher<D>, register: D, event: bytes): D {
    h.extend(register, h.sha(event))
  }

  /** `calculate_measurements`: the chain of extensions that gives RTMR1. */
  method CalculateRtmr1<D>(h: Hasher<D>, gpt: D, uki: D, linux: D) returns (rtmr1: D)
    ensures rtmr1 == RegisterOf(h, Events(h, gpt, uki, linux))
    ensures
      var called := h.extend(h.extend(h.zero, h.sha(Ascii(CALLING))), h.sha([0, 0, 0, 0]));
      var loaded := h.extend(h.extend(h.extend(called, gpt), uki), linux);
      rtmr1 == h.extend(h.extend(loaded, h.sha(Ascii(EXITING))), h.sha(Ascii(EXITED)))
  {
    ghost var events := Events(h, gpt, uki, linux);
    rtmr1 := h.zero;
    rtmr1 := HashAndExtend(h, rtmr1, Ascii(CALLING));
    Grow(h, events, 0);
    rtmr1 := HashAndExtend(h, rtmr1, SEPARATOR);
    Grow(h, events, 1);
    rtmr1 := h.extend(rtmr1, gpt);
    Grow(h, events, 2);
    rtmr1 := h.extend(rtmr1, uki);
    Grow(h, events, 3);
    rtmr1 := h.extend(rtmr1, linux);
    Grow(h, events, 4);
    rtmr1 := HashAndExtend(h, rtmr1, Ascii(EXITING));
    Grow(h, events, 5);
    rtmr1 := HashAndExtend(h, rtmr1, Ascii(EXITED));
    Grow(h, events, 6);
    assert events[..7] == events;
  }

  lemma {:induction false} Grow<D>(h: Hasher<D>, events: seq<D>, n: nat)
    requires n < |events|
    ensures RegisterOf(h, events[..n + 1]) == h.extend(RegisterOf(h, events[..n]), events[n])
  {
    assert events[..n + 1] == events[..n] + [events[n]];
    Extended(h, events[..n], events[n]);
  }

  lemma {:induction false} EventsTell<D(!new)>(h: Hasher<D>, g: D, u: D, l: D, gpt: D, uki: D, linux: D)
    requires CollisionFree(h)
    requires RegisterOf(h, Events(h, g, u, l)) == RegisterOf(h, Events(h, gpt, uki, linux))
    ensures g == gpt && u == uki && l == linux
  {
    RegisterTellsHistory(h, Events(h, g, u, l), Events(h, gpt, uki, linux));
    assert Events(h, g, u, l)[2] == g && Events(h, g, u, l)[3] == u && Events(h, g, u, l)[4] == l;
  }

  /** RTMR1 of a release: of the GPT event and the two digest inputs. */
  function Rtmr1<D>(h: Hasher<D>, gpt: bytes, uki: Digested, linux: Digested): D {
    RegisterOf(h, Events(h, h.sha(gpt), h.sha(uki.hashed), h.sha(linux.hashed)))
  }

  // ----- The kernel image follows from the digest of the image around it -----

  lemma {:induction false} RawOf(sections: seq<Section>, s: Section)
    requires s in sections && s.rawSize != 0
    ensures Raw(s.rawOffset, s.rawSize) in RawSections(sections)
  {
    if s != sections[0] {
      RawOf(sections[1..], s);
    }
  }

  lemma {:induction false} IndexIn(rs: seq<Raw>, sorted: seq<Raw>, r: Raw) returns (j: nat)
    requires multiset(rs) == multiset(sorted) && r in rs
    ensures j < |sorted| && sorted[j] == r
  {
    assert r in multiset(sorted);
    j :| 0 <= j < |sorted| && sorted[j] == r;
  }

  lemma {:induction false} SectionPlace(pe: Image, s: Section)
    requires s in pe.sections && s.rawSize != 0
    ensures Raw(s.rawOffset, s.rawSize) in InFileOrder(pe)
  {
    RawOf(pe.sections, s);
    SortSorts(RawSections(pe.sections));
    var j := IndexIn(RawSections(pe.sections), InFileOrder(pe), Raw(s.rawOffset, s.rawSize));
  }

  /** The kernel image is the beginning of one section, which is hashed whole. */
  lemma {:induction false} KernelSlice(a: bytes, b: bytes, pe: Image, s: Section)
    requires forall r :: r in InFileOrder(pe) ==> SameIn(a, b, r)
    requires s in pe.sections && 0 < s.virtualSize <= s.rawSize
    ensures s.rawOffset + s.virtualSize <= |a| && s.rawOffset + s.virtualSize <= |b|
    ensures a[s.rawOffset..s.rawOffset + s.virtualSize] == b[s.rawOffset..s.rawOffset + s.virtualSize]
  {
    SectionPlace(pe, s);
    assert SameIn(a, b, Raw(s.rawOffset, s.rawSize));
    ShorterSlice(a, b, s.rawOffset, s.rawOffset + s.virtualSize, s.rawOffset + s.rawSize);
  }

  lemma {:induction false} ShorterSlice(a: bytes, b: bytes, lo: nat, mid: nat, hi: nat)
    requires lo <= mid <= hi <= |a| && hi <= |b| && a[lo..hi] == b[lo..hi]
    ensures a[lo..mid] == b[lo..mid]
  {
    NestedSlice(a, lo, hi, lo, mid);
    NestedSlice(b, lo, hi, lo, mid);
  }

  lemma {:induction false} OnlySliceKept(a: bytes, b: bytes, pe: Image, found: seq<Section>)
    requires forall r :: r in InFileOrder(pe) ==> SameIn(a, b, r)
    requires forall s :: s in found ==> s in pe.sections
    ensures |found| == 1 && 0 < found[0].virtualSize <= found[0].rawSize ==>
      var lo, hi := found[0].rawOffset, found[0].rawOffset + found[0].virtualSize;
      hi <= |a| && hi <= |b| && a[lo..hi] == b[lo..hi]
  {
    if |found| == 1 && 0 < found[0].virtualSize <= found[0].rawSize {
      KernelSlice(a, b, pe, found[0]);
    }
  }

  lemma {:induction false} SameLinux(a: bytes, b: bytes, sections: seq<Section>)
    requires
      var found := LinuxSections(sections);
      |found| == 1 && 0 < found[0].virtualSize <= found[0].rawSize ==>
        var lo, hi := found[0].rawOffset, found[0].rawOffset + found[0].virtualSize;
        hi <= |a| && hi <= |b| && a[lo..hi] == b[lo..hi]
    ensures LinuxOf(a, sections) == LinuxOf(b, sections)
  {
  }

  lemma {:induction false} SameKernel(a: bytes, b: bytes, pe: Image)
    requires forall r :: r in InFileOrder(pe) ==> SameIn(a, b, r)
    ensures LinuxOf(a, pe.sections) == LinuxOf(b, pe.sections)
  {
    OnlySliceKept(a, b, pe, LinuxSections(pe.sections));
    SameLinux(a, b, pe.sections);
  }

  /** For any accepted unified kernel images, equal digest inputs mean the very same kernel image inside, or none. */
  lemma {:induction false} DigestFixesKernel(a: bytes, b: bytes, x: Digested, y: Digested)
    requires HashInput(a) == Ok(x) && HashInput(b) == Ok(y) && x.hashed == y.hashed
    ensures ExtractLinux(a) == ExtractLinux(b)
  {
    DigestFixesSections(a, b, x, y);
    SameKernel(a, b, x.layout);
    ExtractedFrom(a, x);
    ExtractedFrom(b, y);
  }

  lemma {:induction false} ExtractedFrom(image: bytes, d: Digested)
    requires HashInput(image) == Ok(d)
    ensures ExtractLinux(image) == LinuxOf(image, d.layout.sections)
  {
    AcceptedIsCovered(image, d);
  }

  /**
   From an image that has a digest input the kernel image is taken exactly when one section alone
   is named `.linux` and its virtual size is positive and within its raw data: it is as many bytes
   from the beginning of that section.
   */
  lemma {:induction false} KernelIsOf(image: bytes, d: Digested)
    requires HashInput(image) == Ok(d)
    ensures forall k: nat :: OnlyLinux(d.layout.sections, k) ==>
      var s := d.layout.sections[k];
      if 0 < s.virtualSize <= s.rawSize then
        && s.rawOffset + s.virtualSize <= |image|
        && ExtractLinux(image) == Ok(image[s.rawOffset..s.rawOffset + s.virtualSize])
      else ExtractLinux(image) == Err(SectionSize)
    ensures (forall k: nat :: !OnlyLinux(d.layout.sections, k)) ==> ExtractLinux(image) == Err(NotOneSection)
  {
    var sections := d.layout.sections;
    ExtractedFrom(image, d);
    forall k: nat | OnlyLinux(sections, k)
      ensures LinuxSections(sections) == [sections[k]]
      ensures 0 < sections[k].virtualSize <= sections[k].rawSize ==>
        sections[k].rawOffset + sections[k].virtualSize <= |image|
    {
      OneFound(sections, k);
      if 0 < sections[k].virtualSize <= sections[k].rawSize {
        SectionInImage(image, d, sections[k]);
      }
    }
    if |LinuxSections(sections)| == 1 {
      var k := OnlyOne(sections);
    }
  }

  lemma {:induction false} SectionInImage(image: bytes, d: Digested, s: Section)
    requires HashInput(image) == Ok(d) && s in d.layout.sections && s.rawSize != 0
    ensures s.rawOffset + s.rawSize <= |image|
  {
    AcceptedIsCovered(image, d);
    SectionPlace(d.layout, s);
    var i :| 0 <= i < |InFileOrder(d.layout)| && InFileOrder(d.layout)[i] == Raw(s.rawOffset, s.rawSize);
    OneInside(image, i);
  }

  // ----- What the register says of a release -----

  lemma {:induction false} ApplicationsOf(uki: bytes, x: (Digested, Digested))
    requires Applications(uki) == Ok(x)
    ensures HashInput(uki) == Ok(x.0) && ExtractLinux(uki).Ok? && HashInput(ExtractLinux(uki).value) == Ok(x.1)
  {
  }

  /** The digest of the unified kernel image leaves nothing open about the second one. */
  lemma {:induction false} SecondFollows(uki: bytes, ukiOther: bytes, x: (Digested, Digested), y: (Digested, Digested))
    requires Applications(uki) == Ok(x) && Applications(ukiOther) == Ok(y) && x.0.hashed == y.0.hashed
    ensures ExtractLinux(uki) == ExtractLinux(ukiOther) && x.0.layout == y.0.layout && x.1 == y.1
  {
    ApplicationsOf(uki, x);
    ApplicationsOf(ukiOther, y);
    DigestFixesKernel(uki, ukiOther, x.0, y.0);
    HashTellsLayout(uki, ukiOther, x.0, y.0);
  }

  /**
   Two releases have the same RTMR1 exactly when their partition table events and the digest
   inputs of their unified kernel images are the same. The kernel image inside is then the same too.
   */
  lemma {:induction false} Rtmr1Tells<D(!new)>(h: Hasher<D>, gpt: bytes, uki: bytes, other: bytes, ukiOther: bytes,
      x: (Digested, Digested), y: (Digested, Digested))
    requires CollisionFree(h) && Applications(uki) == Ok(x) && Applications(ukiOther) == Ok(y)
    ensures Rtmr1(h, gpt, x.0, x.1) == Rtmr1(h, other, y.0, y.1) <==> gpt == other && x.0.hashed == y.0.hashed
    ensures Rtmr1(h, gpt, x.0, x.1) == Rtmr1(h, other, y.0, y.1) ==>
      ExtractLinux(uki) == ExtractLinux(ukiOther) && x.0.layout == y.0.layout && x.1 == y.1
  {
    if Rtmr1(h, gpt, x.0, x.1) == Rtmr1(h, other, y.0, y.1) {
      EventsTell(h, h.sha(gpt), h.sha(x.0.hashed), h.sha(x.1.hashed),
                 h.sha(other), h.sha(y.0.hashed), h.sha(y.1.hashed));
      SecondFollows(uki, ukiOther, x, y);
    }
    if x.0.hashed == y.0.hashed {
      SecondFollows(uki, ukiOther, x, y);
    }
  }

  /**
   The RTMR1 of a release whose unified kernel image has no gap pins that image: whatever was
   booted, with or without gaps, has the same RTMR1 exactly when its partition table event is the
   same and its unified kernel image differs in nothing but checksum and signature.
   */
  lemma {:induction false} Rtmr1PinsRelease<D(!new)>(h: Hasher<D>, gpt: bytes, uki: bytes, other: bytes,
      ukiOther: bytes,
      x: (Digested, Digested), y: (Digested, Digested))
    requires CollisionFree(h) && Applications(uki) == Ok(x) && Applications(ukiOther) == Ok(y)
    requires GapFree(x.0.layout)
    ensures Rtmr1(h, gpt, x.0, x.1) == Rtmr1(h, other, y.0, y.1)
      <==> gpt == other && SameButSignature(uki, ukiOther, x.0, y.0)
  {
    Rtmr1Tells(h, gpt, uki, other, ukiOther, x, y);
    ApplicationsOf(uki, x);
    ApplicationsOf(ukiOther, y);
    DigestPinsImage(uki, ukiOther, x.0, y.0);
  }

  /** A release that was accepted and has this RTMR1. */
  ghost predicate Measures<D(!new)>(h: Hasher<D>, gpt: bytes, uki: bytes, x: (Digested, Digested), rtmr1: D) {
    Applications(uki) == Ok(x) && Rtmr1(h, gpt, x.0, x.1) == rtmr1
  }

  /** Every accepted release with this RTMR1 has the same unified kernel image but for its signature. */
  ghost predicate PinnedByRtmr1<D(!new)>(h: Hasher<D>, uki: bytes, x: (Digested, Digested), rtmr1: D) {
    forall other: bytes, ukiOther: bytes, y: (Digested, Digested) ::
      Measures(h, other, ukiOther, y, rtmr1) ==> SameButSignature(uki, ukiOther, x.0, y.0)
  }

  /** The exact condition at the level of the register: the unified kernel image has no gap. */
  lemma {:induction false} PinnedByRtmr1IffGapFree<D(!new)>(h: Hasher<D>, gpt: bytes, uki: bytes, x: (Digested,
      Digested), rtmr1: D)
    requires CollisionFree(h) && Measures(h, gpt, uki, x, rtmr1)
    ensures PinnedByRtmr1(h, uki, x, rtmr1) <==> GapFree(x.0.layout)
  {
    if GapFree(x.0.layout) {
      GapFreePinned(h, gpt, uki, x, rtmr1);
    } else {
      var ukiOther := SameRtmr1(uki, x);
      NotPinned(h, gpt, uki, x, rtmr1, ukiOther);
    }
  }

  lemma {:induction false} GapFreePinned<D(!new)>(h: Hasher<D>, gpt: bytes, uki: bytes, x: (Digested, Digested),
      rtmr1: D)
    requires CollisionFree(h) && Measures(h, gpt, uki, x, rtmr1) && GapFree(x.0.layout)
    ensures PinnedByRtmr1(h, uki, x, rtmr1)
  {
    forall other: bytes, ukiOther: bytes, y: (Digested, Digested) | Measures(h, other, ukiOther, y, rtmr1)
      ensures SameButSignature(uki, ukiOther, x.0, y.0)
    {
      Rtmr1PinsRelease(h, gpt, uki, other, ukiOther, x, y);
    }
  }

  lemma {:induction false} NotPinned<D(!new)>(h: Hasher<D>, gpt: bytes, uki: bytes, x: (Digested, Digested), rtmr1: D,
      ukiOther: bytes)
    requires Measures(h, gpt, uki, x, rtmr1)
    requires Applications(ukiOther) == Ok(x) && !SameButSignature(uki, ukiOther, x.0, x.0)
    ensures !PinnedByRtmr1(h, uki, x, rtmr1)
  {
    assert Measures(h, gpt, ukiOther, x, rtmr1);
  }

  /** Another unified kernel image with the very same two digest inputs. */
  lemma {:induction false} SameRtmr1(uki: bytes, x: (Digested, Digested)) returns (ukiOther: bytes)
    requires Applications(uki) == Ok(x) && !GapFree(x.0.layout)
    ensures Applications(ukiOther) == Ok(x) && !SameButSignature(uki, ukiOther, x.0, x.0)
  {
    ApplicationsOf(uki, x);
    var p := GapEscapesDigest(uki, x.0);
    ukiOther := OtherByte(uki, p);
    Accepted(uki, x.0);
    DiffersPinned(uki, ukiOther, x.0, p);
    DigestFixesKernel(uki, ukiOther, x.0, x.0);
  }
}

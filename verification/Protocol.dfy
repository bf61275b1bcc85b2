/** The frames of the worker protocol: what a message looks like on the wire. */
module Protocol {
  import opened Basics

  const HEADER_LENGTH_BYTES := 4
  const MAX_HEADER_BYTES := 64 * 1024
  const MAX_PAYLOAD_BYTES := 256 * 1024 * 1024
  const MAX_TOTAL_PAYLOAD_BYTES := 320 * 1024 * 1024

  // ----- Roles -----

  datatype Role = Source | Artifact | Text | Result | Image

  /** How roles are spelled and which media types they accept. */
  datatype Vocabulary = Vocabulary(
    value: Role -> string,
    role: string -> Option<Role>,
    accepts: (Role, string) -> bool)

  /** Spelling a role and reading it back gives the role. */
  ghost predicate Consistent(v: Vocabulary) {
    forall role :: v.role(v.value(role)) == Some(role)
  }

  // ----- Messages and headers -----

  datatype Payload = Payload(role: Role, mediaType: string, content: bytes)

  /** A message: the header without its payload descriptors, and the payloads in order. */
  datatype Message<H> = Message(header: H, payloads: seq<Payload>)

  /** One element of the decoded descriptor list; `None` is a missing value or one of another type. */
  datatype Descriptor = NotAnObject | Described(role: Option<string>, mediaType: Option<string>, length: Option<int>)

  /** A decoded header; no descriptor list when `payloads` is not a list. */
  datatype Header<H> = NotAnObject | Object(rest: H, descriptors: Option<seq<Descriptor>>)

  /** The JSON encoding of headers, which this model does not look into. */
  datatype Json<!H> = Json(
    encode: (H, seq<Descriptor>) -> bytes,
    decode: bytes -> Option<Header<H>>,
    roles: Vocabulary)

  ghost predicate RoundTrips<H(!new)>(json: Json<H>) {
    && Consistent(json.roles)
    && forall h, ds :: json.decode(json.encode(h, ds)) == Some(Object(h, Some(ds))) && |json.encode(h, ds)| >= 2
  }

  datatype CodecError =
    | HeaderLength
    | HeaderInvalid
    | HeaderNotObject
    | DescriptorsInvalid
    | DescriptorInvalid
    | RoleInvalid
    | MediaTypeInvalid
    | LengthInvalid
    | TotalExceeded
    | HeaderExceeded
    | Truncated
    | BackingFile

  // ----- Bytes of a frame -----

  function BigEndian(n: nat): bytes
    requires n < 0x1_0000_0000
  {
    [n / 0x100_0000, n / 0x1_0000 % 0x100, n / 0x100 % 0x100, n % 0x100]
  }

  function FromBigEndian(b: bytes): nat
    requires |b| == HEADER_LENGTH_BYTES
  {
    b[0] as int * 0x100_0000 + b[1] as int * 0x1_0000 + b[2] as int * 0x100 + b[3] as int
  }

  lemma {:induction false} BigEndianRoundTrip(n: nat)
    requires n < 0x1_0000_0000
    ensures FromBigEndian(BigEndian(n)) == n
  {
    Digits(n);
    Digits(n / 0x100);
    Digits(n / 0x1_0000);
    Quotients(n);
  }

  /** The number that the bytes are the digits of, the most significant first. */
  function Numeral(b: bytes): nat {
    if b == [] then 0 else 256 * Numeral(b[..|b| - 1]) + b[|b| - 1]
  }

  /** A length is read with the most significant byte first, and written so. */
  lemma {:induction false} BigEndianIsNumeral(b: bytes, n: nat)
    requires |b| == 4 && n < 0x1_0000_0000
    ensures FromBigEndian(b) == Numeral(b)
    ensures |BigEndian(n)| == 4 && Numeral(BigEndian(n)) == n
  {
    ReadsNumeral(b);
    ReadsNumeral(BigEndian(n));
    BigEndianRoundTrip(n);
  }

  lemma {:induction false} ReadsNumeral(b: bytes)
    requires |b| == 4
    ensures FromBigEndian(b) == Numeral(b)
  {
    assert b[..3][..2] == b[..2] && b[..2][..1] == b[..1] && b[..1][..0] == [];
    assert Numeral(b[..1]) == b[0] as int;
    assert Numeral(b[..2]) == 256 * (b[0] as int) + b[1] as int;
    assert Numeral(b[..3]) == 256 * Numeral(b[..2]) + b[2] as int;
  }

  lemma {:induction false} Digits(n: nat)
    ensures n == n / 0x100 * 0x100 + n % 0x100
  {
  }

  lemma {:induction false} Quotients(n: nat)
    ensures n / 0x100 / 0x100 == n / 0x1_0000
    ensures n / 0x1_0000 / 0x100 == n / 0x100_0000
  {
  }

  function DescriptorOf(v: Vocabulary, p: Payload): Descriptor {
    Described(Some(v.value(p.role)), Some(p.mediaType), Some(|p.content|))
  }

  function DescriptorsOf(v: Vocabulary, ps: seq<Payload>): seq<Descriptor> {
    seq(|ps|, i requires 0 <= i < |ps| => DescriptorOf(v, ps[i]))
  }

  /** The contents of the payloads from `i` on. */
  function ContentsFrom(ps: seq<Payload>, i: nat): bytes
    requires i <= |ps|
    decreases |ps| - i
  {
    if i == |ps| then [] else ps[i].content + ContentsFrom(ps, i + 1)
  }

  function Total(ps: seq<Payload>, n: nat): nat
    requires n <= |ps|
  {
    if n == 0 then 0 else Total(ps, n - 1) + |ps[n - 1].content|
  }

  function RolesOf(ps: seq<Payload>, n: nat): set<Role>
    requires n <= |ps|
  {
    if n == 0 then {} else RolesOf(ps, n - 1) + {ps[n - 1].role}
  }

  /** The first `n` payloads have distinct roles, fitting media types and permitted lengths. */
  predicate Permitted(v: Vocabulary, ps: seq<Payload>, n: nat)
    requires n <= |ps|
  {
    n == 0
    || (var p := ps[n - 1];
        && Permitted(v, ps, n - 1) && p.role !in RolesOf(ps, n - 1) && v.accepts(p.role, p.mediaType)
        && |p.content| <= MAX_PAYLOAD_BYTES && Total(ps, n) <= MAX_TOTAL_PAYLOAD_BYTES)
  }

  function EncodedHeader<H>(json: Json<H>, m: Message<H>): bytes {
    json.encode(m.header, DescriptorsOf(json.roles, m.payloads))
  }

  /** What `write` accepts; the roles of a message are the keys of a dictionary. */
  predicate Writable<H>(json: Json<H>, m: Message<H>) {
    Permitted(json.roles, m.payloads, |m.payloads|) && |EncodedHeader(json, m)| <= MAX_HEADER_BYTES
  }

  function Frame<H>(json: Json<H>, m: Message<H>): bytes
    requires Writable(json, m)
  {
    BigEndian(|EncodedHeader(json, m)|) + EncodedHeader(json, m) + ContentsFrom(m.payloads, 0)
  }

  // ----- Reading a frame from the bytes that are left -----

  /** The checks of one descriptor, given the roles and the total length received before it. */
  function Check(v: Vocabulary, d: Descriptor, roles: set<Role>, total: nat): Result<(Role, string, nat), CodecError> {
    if d.NotAnObject? then Err(DescriptorInvalid)
    else
      var role := if d.role.Some? then v.role(d.role.value) else None;
      if role.None? || role.value in roles then Err(RoleInvalid)
      else if d.mediaType.None? || !v.accepts(role.value, d.mediaType.value) then Err(MediaTypeInvalid)
      else if d.length.None? || d.length.value < 0 || d.length.value > MAX_PAYLOAD_BYTES then Err(LengthInvalid)
      else if total + d.length.value > MAX_TOTAL_PAYLOAD_BYTES then Err(TotalExceeded)
      else Ok((role.value, d.mediaType.value, d.length.value))
  }

  /** The checks of the next descriptor. */
  function CheckNext(v: Vocabulary, d: Descriptor, taken: seq<Payload>): Result<(Role, string, nat), CodecError> {
    Check(v, d, RolesOf(taken, |taken|), Total(taken, |taken|))
  }

  /** The payloads that follow a header, and what is left of the input. */
  function ParsePayloads(v: Vocabulary, ds: seq<Descriptor>, taken: seq<Payload>, input: bytes)
    : (Result<seq<Payload>, CodecError>, bytes)
    requires |taken| <= |ds|
    decreases |ds| - |taken|
  {
    if |taken| == |ds| then (Ok(taken), input)
    else
      match CheckNext(v, ds[|taken|], taken)
      case Err(e) => (Err(e), input)
      case Ok((role, mediaType, length)) =>
        if |input| < length then (Err(Truncated), [])
        else ParsePayloads(v, ds, taken + [Payload(role, mediaType, input[..length])], input[length..])
  }

  /** A frame, and what is left of the input. */
  function ParseFrame<H>(json: Json<H>, input: bytes): (Result<Message<H>, CodecError>, bytes) {
    if |input| < HEADER_LENGTH_BYTES then (Err(Truncated), [])
    else
      var length := FromBigEndian(input[..HEADER_LENGTH_BYTES]);
      var rest := input[HEADER_LENGTH_BYTES..];
      if length < 2 || length > MAX_HEADER_BYTES then (Err(HeaderLength), rest)
      else if |rest| < length then (Err(Truncated), [])
      else
        match json.decode(rest[..length])
        case None => (Err(HeaderInvalid), rest[length..])
        case Some(NotAnObject) => (Err(HeaderNotObject), rest[length..])
        case Some(Object(header, None)) => (Err(DescriptorsInvalid), rest[length..])
        case Some(Object(header, Some(ds))) =>
          var (payloads, left) := ParsePayloads(json.roles, ds, [], rest[length..]);
          (if payloads.Ok? then Ok(Message(header, payloads.value)) else Err(payloads.error), left)
  }

  // ----- Round trip -----

  lemma {:induction false} RolesPrefix(ps: seq<Payload>, n: nat, k: nat)
    requires k <= n <= |ps|
    ensures RolesOf(ps[..n], k) == RolesOf(ps, k) && Total(ps[..n], k) == Total(ps, k)
  {
    if k > 0 {
      RolesPrefix(ps, n, k - 1);
    }
  }

  lemma {:induction false} PermittedPrefix(v: Vocabulary, ps: seq<Payload>, n: nat, k: nat)
    requires k <= n <= |ps| && Permitted(v, ps, n)
    ensures Permitted(v, ps, k)
  {
    if k < n {
      PermittedPrefix(v, ps, n - 1, k);
    }
  }

  /** The descriptor that was written for a payload passes the checks. */
  lemma {:induction false} WrittenChecks(v: Vocabulary, ps: seq<Payload>, k: nat)
    requires Consistent(v) && k < |ps| && Permitted(v, ps, |ps|)
    ensures CheckNext(v, DescriptorOf(v, ps[k]), ps[..k]) == Ok((ps[k].role, ps[k].mediaType, |ps[k].content|))
  {
    PermittedPrefix(v, ps, |ps|, k + 1);
    RolesPrefix(ps, k, k);
  }

  /** One payload further. */
  lemma {:induction false} PayloadRead(v: Vocabulary, ps: seq<Payload>, k: nat, input: bytes)
    requires Consistent(v) && k < |ps| && Permitted(v, ps, |ps|)
    ensures
      ParsePayloads(v, DescriptorsOf(v, ps), ps[..k], input)
      == if |input| < |ps[k].content| then (Err(Truncated), [])
         else
           var payload := Payload(ps[k].role, ps[k].mediaType, input[..|ps[k].content|]);
           ParsePayloads(v, DescriptorsOf(v, ps), ps[..k] + [payload], input[|ps[k].content|..])
  {
    WrittenChecks(v, ps, k);
  }

  lemma {:induction false} ContentsSplit(content: bytes, more: bytes, rest: bytes)
    ensures (content + more + rest)[..|content|] == content
    ensures (content + more + rest)[|content|..] == more + rest
  {
  }

  lemma {:induction false} PayloadsRoundTrip(v: Vocabulary, ps: seq<Payload>, k: nat, rest: bytes)
    requires Consistent(v) && k <= |ps| && Permitted(v, ps, |ps|)
    ensures ParsePayloads(v, DescriptorsOf(v, ps), ps[..k], ContentsFrom(ps, k) + rest) == (Ok(ps), rest)
    decreases |ps| - k
  {
    if k == |ps| {
      assert ps[..k] == ps && ContentsFrom(ps, k) + rest == rest;
    } else {
      var content := ps[k].content;
      var input := ContentsFrom(ps, k) + rest;
      ContentsSplit(content, ContentsFrom(ps, k + 1), rest);
      PayloadRead(v, ps, k, input);
      assert ps[..k] + [ps[k]] == ps[..k + 1];
      PayloadsRoundTrip(v, ps, k + 1, rest);
    }
  }

  /** Reading what was written gives the message back and leaves what follows it. */
  lemma {:induction false} FrameRoundTrip<H(!new)>(json: Json<H>, m: Message<H>, rest: bytes)
    requires RoundTrips(json) && Writable(json, m)
    ensures ParseFrame(json, Frame(json, m) + rest) == (Ok(m), rest)
  {
    var e := EncodedHeader(json, m);
    var body := ContentsFrom(m.payloads, 0) + rest;
    FrameParts(json, m, rest);
    BigEndianRoundTrip(|e|);
    assert json.decode(e) == Some(Object(m.header, Some(DescriptorsOf(json.roles, m.payloads))));
    PayloadsRoundTrip(json.roles, m.payloads, 0, rest);
    assert m.payloads[..0] == [];
  }

  lemma {:induction false} FrameParts<H>(json: Json<H>, m: Message<H>, rest: bytes)
    requires Writable(json, m)
    ensures
      var e := EncodedHeader(json, m);
      var input := Frame(json, m) + rest;
      && |input| >= 4 + |e| && input[..4] == BigEndian(|e|) && input[4..][..|e|] == e
      && input[4..][|e|..] == ContentsFrom(m.payloads, 0) + rest
  {
  }

  // ----- Whole conversations -----

  function Conversation<H>(json: Json<H>, ms: seq<Message<H>>): bytes
    requires forall m :: m in ms ==> Writable(json, m)
  {
    if ms == [] then [] else Frame(json, ms[0]) + Conversation(json, ms[1..])
  }

  /** `n` reads in a row; the first error ends them. */
  function ParseMany<H>(json: Json<H>, input: bytes, n: nat): (Result<seq<Message<H>>, CodecError>, bytes)
    decreases n
  {
    if n == 0 then (Ok([]), input)
    else
      match ParseFrame(json, input)
      case (Err(e), rest) => (Err(e), rest)
      case (Ok(m), rest) =>
        var (more, left) := ParseMany(json, rest, n - 1);
        (if more.Ok? then Ok([m] + more.value) else more, left)
  }

  lemma {:induction false} OneMoreParsed<H(!new)>(json: Json<H>, input: bytes, m: Message<H>, tail: bytes,
      more: seq<Message<H>>,
      left: bytes)
    requires ParseFrame(json, input) == (Ok(m), tail) && ParseMany(json, tail, |more|) == (Ok(more), left)
    ensures ParseMany(json, input, |more| + 1) == (Ok([m] + more), left)
  {
  }

  lemma {:induction false} FirstFrame<H>(json: Json<H>, ms: seq<Message<H>>, rest: bytes)
    requires ms != [] && forall m :: m in ms ==> Writable(json, m)
    ensures Conversation(json, ms) + rest == Frame(json, ms[0]) + (Conversation(json, ms[1..]) + rest)
  {
    Associate(Frame(json, ms[0]), Conversation(json, ms[1..]), rest);
  }

  /** A conversation is read back message by message and nothing is left over. */
  lemma {:induction false} ConversationRoundTrip<H(!new)>(json: Json<H>, ms: seq<Message<H>>, rest: bytes)
    requires RoundTrips(json) && forall m :: m in ms ==> Writable(json, m)
    ensures ParseMany(json, Conversation(json, ms) + rest, |ms|) == (Ok(ms), rest)
  {
    if ms == [] {
      assert Conversation(json, ms) + rest == rest;
    } else {
      var tail := Conversation(json, ms[1..]) + rest;
      FirstFrame(json, ms, rest);
      FrameRoundTrip(json, ms[0], tail);
      ConversationRoundTrip(json, ms[1..], rest);
      OneMoreParsed(json, Conversation(json, ms) + rest, ms[0], tail, ms[1..], rest);
      assert ms == [ms[0]] + ms[1..];
    }
  }

  // ----- Truncation -----

  lemma {:induction false} PayloadsTruncated(v: Vocabulary, ps: seq<Payload>, k: nat, input: bytes)
    requires Consistent(v) && k <= |ps| && Permitted(v, ps, |ps|) && input < ContentsFrom(ps, k)
    ensures ParsePayloads(v, DescriptorsOf(v, ps), ps[..k], input) == (Err(Truncated), [])
    decreases |ps| - k
  {
    var content := ps[k].content;
    PayloadRead(v, ps, k, input);
    if |input| >= |content| {
      assert input[..|content|] == ContentsFrom(ps, k)[..|content|] == content;
      assert ps[..k] + [ps[k]] == ps[..k + 1];
      assert input[|content|..] < ContentsFrom(ps, k + 1) by {
        assert ContentsFrom(ps, k)[|content|..] == ContentsFrom(ps, k + 1);
        assert input == ContentsFrom(ps, k)[..|input|];
      }
      PayloadsTruncated(v, ps, k + 1, input[|content|..]);
    }
  }

  /** No strict prefix of a frame is read as a message: it is always reported as truncated. */
  lemma {:induction false} PrefixTruncated<H(!new)>(json: Json<H>, m: Message<H>, input: bytes)
    requires RoundTrips(json) && Writable(json, m) && input < Frame(json, m)
    ensures ParseFrame(json, input) == (Err(Truncated), [])
  {
    var e := EncodedHeader(json, m);
    var frame := Frame(json, m);
    FrameParts(json, m, []);
    assert frame + [] == frame && ContentsFrom(m.payloads, 0) + [] == ContentsFrom(m.payloads, 0);
    assert input == frame[..|input|];
    BigEndianRoundTrip(|e|);
    if |input| >= 4 {
      assert input[..4] == frame[..4];
      if |input| >= 4 + |e| {
        assert input[4..][..|e|] == frame[4..][..|e|];
        assert json.decode(e) == Some(Object(m.header, Some(DescriptorsOf(json.roles, m.payloads))));
        assert input[4..][|e|..] < ContentsFrom(m.payloads, 0) by {
          assert input[4..][|e|..] == ContentsFrom(m.payloads, 0)[..|input| - 4 - |e|];
        }
        assert m.payloads[..0] == [];
        PayloadsTruncated(json.roles, m.payloads, 0, input[4..][|e|..]);
      }
    }
  }

  // ----- What is accepted -----

  lemma {:induction false} ParsedPermitted(v: Vocabulary, ds: seq<Descriptor>, taken: seq<Payload>, input: bytes)
    requires |taken| <= |ds| && Permitted(v, taken, |taken|)
    requires ParsePayloads(v, ds, taken, input).0.Ok?
    ensures
      var ps := ParsePayloads(v, ds, taken, input).0.value;
      |ps| == |ds| && Permitted(v, ps, |ps|) && taken <= ps
    decreases |ds| - |taken|
  {
    if |taken| < |ds| {
      var (role, mediaType, length) := CheckNext(v, ds[|taken|], taken).value;
      var more := taken + [Payload(role, mediaType, input[..length])];
      assert more[..|taken|] == taken;
      PermittedAppend(v, taken, Payload(role, mediaType, input[..length]));
      ParsedPermitted(v, ds, more, input[length..]);
    }
  }

  lemma {:induction false} PermittedAppend(v: Vocabulary, ps: seq<Payload>, p: Payload)
    requires Permitted(v, ps, |ps|) && p.role !in RolesOf(ps, |ps|) && v.accepts(p.role, p.mediaType)
    requires |p.content| <= MAX_PAYLOAD_BYTES && Total(ps, |ps|) + |p.content| <= MAX_TOTAL_PAYLOAD_BYTES
    ensures Permitted(v, ps + [p], |ps| + 1)
  {
    RolesPrefix(ps + [p], |ps|, |ps|);
    assert (ps + [p])[..|ps|] == ps;
    PermittedSame(v, ps + [p], ps, |ps|);
  }

  lemma {:induction false} PermittedSame(v: Vocabulary, a: seq<Payload>, b: seq<Payload>, n: nat)
    requires n <= |a| && n <= |b| && a[..n] == b[..n]
    ensures Permitted(v, a, n) == Permitted(v, b, n) && Total(a, n) == Total(b, n)
    ensures RolesOf(a, n) == RolesOf(b, n)
  {
    if n > 0 {
      assert a[..n - 1] == a[..n][..n - 1] && b[..n - 1] == b[..n][..n - 1];
      assert a[n - 1] == a[..n][n - 1] && b[n - 1] == b[..n][n - 1];
      PermittedSame(v, a, b, n - 1);
    }
  }

  /** Whatever the input, a message that is read has distinct roles, fitting media types and sizes within the limits. */
  lemma {:induction false} AcceptedIsPermitted<H>(json: Json<H>, input: bytes)
    requires ParseFrame(json, input).0.Ok?
    ensures
      var ps := ParseFrame(json, input).0.value.payloads;
      && Permitted(json.roles, ps, |ps|) && Total(ps, |ps|) <= 335_544_320
      && (forall k :: 0 <= k < |ps| ==>
        json.roles.accepts(ps[k].role, ps[k].mediaType) && |ps[k].content| <= 268_435_456)
      && forall j, k :: 0 <= j < k < |ps| ==> ps[j].role != ps[k].role
  {
    var length := FromBigEndian(input[..4]);
    var rest := input[4..];
    var ds := json.decode(rest[..length]).value.descriptors.value;
    ParsedPermitted(json.roles, ds, [], rest[length..]);
    var ps := ParseFrame(json, input).0.value.payloads;
    forall k | 0 <= k < |ps|
      ensures json.roles.accepts(ps[k].role, ps[k].mediaType) && |ps[k].content| <= 268_435_456
    {
      PermittedAt(json.roles, ps, |ps|, k);
    }
    forall j, k | 0 <= j < k < |ps| ensures ps[j].role != ps[k].role {
      RolesApart(json.roles, ps, |ps|, j, k);
    }
  }

  lemma {:induction false} PermittedAt(v: Vocabulary, ps: seq<Payload>, n: nat, k: nat)
    requires k < n <= |ps| && Permitted(v, ps, n)
    ensures v.accepts(ps[k].role, ps[k].mediaType) && |ps[k].content| <= MAX_PAYLOAD_BYTES
    ensures ps[k].role in RolesOf(ps, n)
  {
    if k < n - 1 {
      PermittedAt(v, ps, n - 1, k);
    }
  }

  lemma {:induction false} RolesApart(v: Vocabulary, ps: seq<Payload>, n: nat, j: nat, k: nat)
    requires j < k < n <= |ps| && Permitted(v, ps, n)
    ensures ps[j].role != ps[k].role
  {
    if k < n - 1 {
      RolesApart(v, ps, n - 1, j, k);
    } else {
      PermittedAt(v, ps, n - 1, j);
    }
  }
}

/** The codec over streams that may return less than they are asked for. */
module ProtocolCodec {
  import opened Basics
  import opened Protocol

  const COPY_BUFFER_BYTES := 64 * 1024

  /** A stream to read from: how much one read returns is up to the stream. */
  class InputStream {
    var rest: bytes

    constructor (input: bytes)
      ensures rest == input
    {
      rest := input;
    }

    method Read(limit: nat) returns (chunk: bytes)
      requires limit > 0
      modifies this
      ensures |chunk| <= limit && chunk <= old(rest) && rest == old(rest)[|chunk|..]
      ensures chunk == [] <==> old(rest) == []
    {
      if rest == [] {
        return [];
      }
      var n :| 1 <= n <= limit && n <= |rest|;
      chunk := rest[..n];
      rest := rest[n..];
    }
  }

  class OutputStream {
    var written: bytes

    constructor ()
      ensures written == []
    {
      written := [];
    }

    method Write(b: bytes)
      modifies this
      ensures written == old(written) + b
    {
      written := written + b;
    }
  }

  /** `_read_exact`: the next `length` bytes, or everything that was left when there are not enough. */
  method ReadExact(stream: InputStream, length: nat) returns (r: Result<bytes, CodecError>)
    modifies stream
    ensures |old(stream.rest)| >= length ==>
      r == Ok(old(stream.rest)[..length]) && stream.rest == old(stream.rest)[length..]
    ensures |old(stream.rest)| < length ==> r == Err(Truncated) && stream.rest == []
  {
    var chunks: bytes := [];
    ghost var input := stream.rest;
    while |chunks| < length
      invariant |chunks| <= length && |chunks| <= |input|
      invariant chunks == input[..|chunks|] && stream.rest == input[|chunks|..]
      decreases length - |chunks|
    {
      ghost var n := |chunks|;
      var chunk := stream.Read(length - |chunks|);
      if chunk == [] {
        return Err(Truncated);
      }
      assert input[n..][..|chunk|] == input[n..n + |chunk|];
      chunks := chunks + chunk;
    }
    return Ok(chunks);
  }

  /** A payload in memory or in a file of its own. */
  class ProtocolPayload {
    const mediaType: string
    const length: nat
    const content: Option<bytes>
    /** What the file holds while it is open. */
    var file: Option<bytes>
    var cursor: nat

    ghost predicate Valid()
      reads this
    {
      && (content.Some? ==> file.None? && |content.value| == length)
      && (file.Some? ==> |file.value| == length)
    }

    /** The bytes of a payload; none once its file is closed. */
    ghost function Contents(): Option<bytes>
      reads this
    {
      if content.Some? then content else file
    }

    constructor FromBytes(b: bytes, media: string)
      ensures Valid() && Contents() == Some(b) && mediaType == media && content == Some(b)
    {
      mediaType, length, content, file, cursor := media, |b|, Some(b), None, 0;
    }

    constructor FromFile(b: bytes, media: string)
      ensures Valid() && Contents() == Some(b) && mediaType == media && file == Some(b) && content.None?
    {
      mediaType, length, content, file, cursor := media, |b|, None, Some(b), 0;
    }

    /** `read_bytes`. */
    method ReadBytes(maximum: Option<nat>) returns (r: Option<bytes>)
      requires Valid()
      modifies this`cursor
      ensures r == if maximum.Some? && length > maximum.value then None else Contents()
    {
      if maximum.Some? && length > maximum.value {
        return None;
      }
      if content.Some? {
        return content;
      }
      if file.None? {
        return None;
      }
      cursor := 0;
      r := Some(file.value[..Min(length + 1, |file.value|)]);
      assert r.value == file.value;
      cursor := |r.value|;
    }

    /** `write_to`. */
    method WriteTo(stream: OutputStream) returns (ok: bool)
      requires Valid()
      modifies stream, this`cursor
      ensures ok <==> Contents().Some?
      ensures stream.written == old(stream.written) + if ok then Contents().value else []
    {
      if content.Some? {
        stream.Write(content.value);
        return true;
      }
      if file.None? {
        return false;
      }
      ghost var b := file.value;
      cursor := 0;
      var remaining := length;
      while remaining > 0
        invariant file == Some(b) && content.None? && 0 <= remaining && cursor + remaining == length == |b|
        invariant stream.written == old(stream.written) + b[..cursor]
      {
        var size := Min(COPY_BUFFER_BYTES, remaining);
        var chunk := file.value[cursor..cursor + size];
        stream.Write(chunk);
        assert b[..cursor + size] == b[..cursor] + chunk;
        cursor := cursor + size;
        remaining := remaining - size;
      }
      assert b[..cursor] == b;
      return true;
    }

    /** `close`. */
    method Close()
      modifies this`file
      ensures file.None?
    {
      file := None;
    }
  }

  /** `ProtocolPayload.receive`: the next `length` bytes of the stream, into a new file. */
  method Receive(stream: InputStream, length: nat, mediaType: string)
    returns (r: Result<ProtocolPayload, CodecError>)
    modifies stream
    ensures |old(stream.rest)| >= length ==>
      && stream.rest == old(stream.rest)[length..]
      && r.Ok? && fresh(r.value) && r.value.Valid() && r.value.mediaType == mediaType
      && r.value.length == length && r.value.content.None? && r.value.file == Some(old(stream.rest)[..length])
    ensures |old(stream.rest)| < length ==> r == Err(Truncated) && stream.rest == []
  {
    ghost var input := stream.rest;
    var temporary: bytes := [];
    var remaining := length;
    while remaining > 0
      invariant 0 <= remaining <= length && |temporary| == length - remaining <= |input|
      invariant temporary == input[..|temporary|] && stream.rest == input[|temporary|..]
      decreases remaining
    {
      ghost var n := |temporary|;
      var chunk := stream.Read(Min(COPY_BUFFER_BYTES, remaining));
      if chunk == [] {
        return Err(Truncated);
      }
      assert input[n..][..|chunk|] == input[n..n + |chunk|];
      temporary := temporary + chunk;
      remaining := remaining - |chunk|;
    }
    var payload := new ProtocolPayload.FromFile(temporary, mediaType);
    return Ok(payload);
  }

  // ----- Reading -----

  datatype Entry = Entry(role: Role, payload: ProtocolPayload)

  /** The entry holds this payload. */
  ghost predicate Backs(e: Entry, p: Payload)
    reads e.payload
  {
    && e.role == p.role && e.payload.Valid() && e.payload.mediaType == p.mediaType
    && e.payload.Contents() == Some(p.content)
  }

  ghost predicate BacksAll(es: seq<Entry>, ps: seq<Payload>)
    reads set e <- es :: e.payload
  {
    |es| == |ps| && forall i :: 0 <= i < |es| ==> Backs(es[i], ps[i])
  }

  /** What is still to be read is what is left of the frame. */
  ghost predicate Remaining(v: Vocabulary, ds: seq<Descriptor>, taken: seq<Payload>, rest: bytes, input: bytes) {
    |taken| <= |ds| && ParsePayloads(v, ds, taken, rest) == ParsePayloads(v, ds, [], input)
  }

  /** The loop over the descriptors; whatever was received for a frame that is rejected is closed. */
  method ReadPayloads(v: Vocabulary, ds: seq<Descriptor>, stream: InputStream)
    returns (r: Result<seq<Entry>, CodecError>, ghost received: seq<Entry>)
    modifies stream
    ensures
      var parsed := ParsePayloads(v, ds, [], old(stream.rest));
      && stream.rest == parsed.1
      && (r.Err? ==> parsed.0 == Err(r.error))
      && (r.Ok? ==> parsed.0.Ok? && BacksAll(r.value, parsed.0.value) && received == r.value)
    ensures forall e :: e in received ==> fresh(e.payload) && (r.Err? ==> e.payload.file.None?)
  {
    ghost var input := stream.rest;
    ghost var taken: seq<Payload> := [];
    var payloads: seq<Entry> := [];
    var roles: set<Role> := {};
    var total := 0;
    while |payloads| < |ds|
      invariant Remaining(v, ds, taken, stream.rest, input) && BacksAll(payloads, taken)
      invariant roles == RolesOf(taken, |taken|) && total == Total(taken, |taken|)
      invariant forall e :: e in payloads ==> fresh(e.payload)
      decreases |ds| - |payloads|
    {
      var checked := Check(v, ds[|payloads|], roles, total);
      if checked.Err? {
        CloseAll(payloads);
        return Err(checked.error), payloads;
      }
      var (role, mediaType, length) := checked.value;
      var payload := Receive(stream, length, mediaType);
      if payload.Err? {
        CloseAll(payloads);
        return Err(payload.error), payloads;
      }
      ghost var more := Payload(role, mediaType, payload.value.file.value);
      TakenMore(taken, more);
      payloads := payloads + [Entry(role, payload.value)];
      taken := taken + [more];
      roles := roles + {role};
      total := total + length;
    }
    return Ok(payloads), payloads;
  }

  lemma {:induction false} TakenMore(taken: seq<Payload>, p: Payload)
    ensures RolesOf(taken + [p], |taken| + 1) == RolesOf(taken, |taken|) + {p.role}
    ensures Total(taken + [p], |taken| + 1) == Total(taken, |taken|) + |p.content|
  {
    RolesPrefix(taken + [p], |taken|, |taken|);
    assert (taken + [p])[..|taken|] == taken;
  }

  method CloseAll(payloads: seq<Entry>)
    modifies set e <- payloads :: e.payload
    ensures forall e :: e in payloads ==> e.payload.file.None?
  {
    var i := 0;
    while i < |payloads|
      invariant 0 <= i <= |payloads|
      invariant forall k :: 0 <= k < i ==> payloads[k].payload.file.None?
    {
      payloads[i].payload.Close();
      i := i + 1;
    }
  }

  /** A message whose payloads are objects. */
  datatype Envelope<H> = Envelope(header: H, payloads: seq<Entry>)

  /** `read`: exactly the frame at the front of the stream, whatever the sizes of the single reads. */
  method Read<H>(json: Json<H>, stream: InputStream)
    returns (r: Result<Envelope<H>, CodecError>, ghost received: seq<Entry>)
    modifies stream
    ensures
      var parsed := ParseFrame(json, old(stream.rest));
      && stream.rest == parsed.1
      && (r.Err? ==> parsed.0 == Err(r.error))
      && (r.Ok? ==> parsed.0.Ok? && r.value.header == parsed.0.value.header
                    && BacksAll(r.value.payloads, parsed.0.value.payloads) && received == r.value.payloads)
    ensures forall e :: e in received ==> fresh(e.payload) && (r.Err? ==> e.payload.file.None?)
  {
    received := [];
    var encodedLength :- ReadExact(stream, HEADER_LENGTH_BYTES);
    var headerLength := FromBigEndian(encodedLength);
    if headerLength < 2 || headerLength > MAX_HEADER_BYTES {
      return Err(HeaderLength), [];
    }
    var encodedHeader :- ReadExact(stream, headerLength);
    match json.decode(encodedHeader) {
      case None => return Err(HeaderInvalid), [];
      case Some(NotAnObject) => return Err(HeaderNotObject), [];
      case Some(Object(header, None)) => return Err(DescriptorsInvalid), [];
      case Some(Object(header, Some(descriptors))) =>
        var payloads;
        payloads, received := ReadPayloads(json.roles, descriptors, stream);
        if payloads.Err? {
          return Err(payloads.error), received;
        }
        return Ok(Envelope(header, payloads.value)), received;
    }
  }

  // ----- Writing -----

  /** `ps` is what the entries stand for; a closed payload still has its role, media type and length. */
  ghost predicate StandsFor(e: Entry, p: Payload)
    reads e.payload
  {
    && e.role == p.role && e.payload.Valid() && e.payload.mediaType == p.mediaType && e.payload.length == |p.content|
    && (e.payload.Contents().Some? ==> e.payload.Contents() == Some(p.content))
  }

  ghost predicate StandForAll(es: seq<Entry>, ps: seq<Payload>)
    reads set e <- es :: e.payload
  {
    |es| == |ps| && forall i :: 0 <= i < |es| ==> StandsFor(es[i], ps[i])
  }

  /** The first check of `write` that one of the first `n` payloads fails. */
  function FirstError(v: Vocabulary, ps: seq<Payload>, n: nat): Option<CodecError>
    requires n <= |ps|
  {
    if n == 0 then None
    else if FirstError(v, ps, n - 1).Some? then FirstError(v, ps, n - 1)
    else if !v.accepts(ps[n - 1].role, ps[n - 1].mediaType) then Some(MediaTypeInvalid)
    else if |ps[n - 1].content| > MAX_PAYLOAD_BYTES then Some(LengthInvalid)
    else if Total(ps, n) > MAX_TOTAL_PAYLOAD_BYTES then Some(TotalExceeded)
    else None
  }

  /** The roles of a message are the keys of a dictionary. */
  predicate DistinctRoles(ps: seq<Payload>, n: nat)
    requires n <= |ps|
  {
    n == 0 || (DistinctRoles(ps, n - 1) && ps[n - 1].role !in RolesOf(ps, n - 1))
  }

  /** The checks of the writer are those of the reader. */
  lemma {:induction false} WriterChecksLikeReader(v: Vocabulary, ps: seq<Payload>, n: nat)
    requires n <= |ps|
    ensures FirstError(v, ps, n).None? && DistinctRoles(ps, n) <==> Permitted(v, ps, n)
  {
    if n > 0 {
      WriterChecksLikeReader(v, ps, n - 1);
    }
  }

  lemma {:induction false} ErrorStays(v: Vocabulary, ps: seq<Payload>, m: nat, n: nat)
    requires m <= n <= |ps| && FirstError(v, ps, m).Some?
    ensures FirstError(v, ps, n) == FirstError(v, ps, m)
  {
    if m < n {
      ErrorStays(v, ps, m, n - 1);
    }
  }

  /** The loop that describes the payloads. */
  method Describe(v: Vocabulary, es: seq<Entry>,
      ghost ps: seq<Payload>) returns (r: Result<seq<Descriptor>, CodecError>)
    requires StandForAll(es, ps)
    ensures FirstError(v, ps, |ps|) == if r.Err? then Some(r.error) else None
    ensures r.Ok? ==> r.value == DescriptorsOf(v, ps)
  {
    var descriptors: seq<Descriptor> := [];
    var total := 0;
    var i := 0;
    while i < |es|
      invariant 0 <= i <= |es| && FirstError(v, ps, i) == None && total == Total(ps, i)
      invariant descriptors == DescriptorsOf(v, ps)[..i]
    {
      var payload := es[i].payload;
      assert StandsFor(es[i], ps[i]);
      if !v.accepts(es[i].role, payload.mediaType) {
        ErrorStays(v, ps, i + 1, |ps|);
        return Err(MediaTypeInvalid);
      }
      if payload.length > MAX_PAYLOAD_BYTES {
        ErrorStays(v, ps, i + 1, |ps|);
        return Err(LengthInvalid);
      }
      total := total + payload.length;
      if total > MAX_TOTAL_PAYLOAD_BYTES {
        ErrorStays(v, ps, i + 1, |ps|);
        return Err(TotalExceeded);
      }
      var role := Some(v.value(es[i].role));
      descriptors := descriptors + [Described(role, Some(payload.mediaType), Some(payload.length))];
      i := i + 1;
    }
    return Ok(descriptors);
  }

  /** The loop that writes the payloads. */
  method WritePayloads(es: seq<Entry>, ghost ps: seq<Payload>, stream: OutputStream) returns (ok: bool)
    requires StandForAll(es, ps)
    modifies stream, set e <- es :: e.payload`cursor
    ensures ok <==> forall e :: e in es ==> e.payload.Contents().Some?
    ensures ok ==> stream.written == old(stream.written) + ContentsFrom(ps, 0)
    ensures StandForAll(es, ps) && old(stream.written) <= stream.written
  {
    var i := 0;
    while i < |es|
      invariant 0 <= i <= |es| && StandForAll(es, ps)
      invariant forall k :: 0 <= k < |es| ==> es[k].payload.Contents() == old(es[k].payload.Contents())
      invariant forall k :: 0 <= k < i ==> es[k].payload.Contents().Some?
      invariant old(stream.written) <= stream.written
      invariant stream.written + ContentsFrom(ps, i) == old(stream.written) + ContentsFrom(ps, 0)
    {
      assert StandsFor(es[i], ps[i]);
      var ok := es[i].payload.WriteTo(stream);
      if !ok {
        assert es[i] in es;
        return false;
      }
      i := i + 1;
    }
    return true;
  }

  /** `write`: a whole frame, or nothing when the message may not be written. */
  method Write<H>(json: Json<H>, m: Envelope<H>, ghost ps: seq<Payload>, stream: OutputStream)
    returns (e: Option<CodecError>)
    requires StandForAll(m.payloads, ps) && DistinctRoles(ps, |ps|)
    modifies stream, set e <- m.payloads :: e.payload`cursor
    ensures
      e.None? <==> Writable(json, Message(m.header, ps)) && forall e :: e in m.payloads ==> e.payload.Contents().Some?
    ensures e.None? ==> stream.written == old(stream.written) + Frame(json, Message(m.header, ps))
    ensures !Writable(json, Message(m.header, ps)) ==> stream.written == old(stream.written)
    ensures old(stream.written) <= stream.written
  {
    WriterChecksLikeReader(json.roles, ps, |ps|);
    var descriptors := Describe(json.roles, m.payloads, ps);
    if descriptors.Err? {
      return Some(descriptors.error);
    }
    var encoded := json.encode(m.header, descriptors.value);
    if |encoded| > MAX_HEADER_BYTES {
      return Some(HeaderExceeded);
    }
    ghost var before := stream.written;
    stream.Write(BigEndian(|encoded|));
    stream.Write(encoded);
    var ok := WritePayloads(m.payloads, ps, stream);
    if !ok {
      return Some(BackingFile);
    }
    Regroup(before, BigEndian(|encoded|), encoded, ContentsFrom(ps, 0));
    return None;
  }

  // ----- Conversations -----

  ghost predicate IsMessage<H>(e: Envelope<H>, m: Message<H>)
    reads set x <- e.payloads :: x.payload
  {
    e.header == m.header && BacksAll(e.payloads, m.payloads)
  }

  method ReadNext<H(!new)>(json: Json<H>, stream: InputStream, ghost ms: seq<Message<H>>, ghost i: nat,
      ghost tail: bytes)
    returns (m: Envelope<H>)
    requires RoundTrips(json) && i < |ms| && forall m :: m in ms ==> Writable(json, m)
    requires stream.rest == Conversation(json, ms[i..]) + tail
    modifies stream
    ensures stream.rest == Conversation(json, ms[i + 1..]) + tail && IsMessage(m, ms[i])
    ensures forall x :: x in m.payloads ==> fresh(x.payload)
  {
    NextMessage(json, ms, i, tail);
    var read, received := Read(json, stream);
    m := read.value;
  }

  /** Reading a conversation gives back its messages in order, and takes exactly their bytes off the stream. */
  method ReadConversation<H(!new)>(json: Json<H>, stream: InputStream, ghost ms: seq<Message<H>>, n: nat,
      ghost tail: bytes)
    returns (r: seq<Envelope<H>>)
    requires RoundTrips(json) && n == |ms| && forall m :: m in ms ==> Writable(json, m)
    requires stream.rest == Conversation(json, ms) + tail
    modifies stream
    ensures stream.rest == tail && |r| == |ms|
    ensures forall i :: 0 <= i < |ms| ==> IsMessage(r[i], ms[i])
  {
    r := [];
    var i := 0;
    while i < n
      invariant 0 <= i <= n && |r| == i
      invariant stream.rest == Conversation(json, ms[i..]) + tail
      invariant forall k :: 0 <= k < i ==> IsMessage(r[k], ms[k])
    {
      var m := ReadNext(json, stream, ms, i, tail);
      r := r + [m];
      i := i + 1;
    }
  }

  lemma {:induction false} Regroup(a: bytes, b: bytes, c: bytes, d: bytes)
    ensures a + b + c + d == a + (b + c + d)
  {
  }

  lemma {:induction false} NextMessage<H(!new)>(json: Json<H>, ms: seq<Message<H>>, i: nat, tail: bytes)
    requires RoundTrips(json) && i < |ms| && forall m :: m in ms ==> Writable(json, m)
    ensures ParseFrame(json, Conversation(json, ms[i..]) + tail) == (Ok(ms[i]), Conversation(json, ms[i + 1..]) + tail)
  {
    var left := Conversation(json, ms[i + 1..]) + tail;
    assert ms[i..][1..] == ms[i + 1..];
    assert Conversation(json, ms[i..]) + tail == Frame(json, ms[i]) + left;
    FrameRoundTrip(json, ms[i], left);
  }
}

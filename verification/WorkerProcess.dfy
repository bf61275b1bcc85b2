/** The request loop of a worker process. */
module WorkerProcess {
  import opened Basics
  import opened DocumentSession

  /** What the decoder makes of a message: another exception, an invalid request, or a request. */
  datatype Decoded = Undecodable | NotARequest | Requested(request: Request)

  /**
   A complete frame of the input, and how its answer fares: presented by the presenter, written
   to the output, and everything that was held for it released. That is the response, the
   resources behind it and the message itself, each of which may raise when it is closed.
   */
  datatype Incoming = Incoming(decoded: Decoded, presented: bool, written: bool, released: bool)

  datatype Response = Answer | InvalidRequest | ProcessingFailed

  // ----- The reference: a run as functions of its frames -----

  /** A request that the session executes. */
  predicate IsSessionRequest(m: Incoming) {
    m.decoded.Requested? && !m.decoded.request.Extract?
  }

  /** The response to a request that ended this way. */
  function ResponseFor(outcome: Outcome, presented: bool): Response {
    match outcome
    case Invalid => InvalidRequest
    case Done => if presented then Answer else ProcessingFailed
    case Failed => ProcessingFailed
  }

  /** What the worker has to say to a frame, when it says anything: extraction is for the first frame only. */
  function ReplyTo(t: Table, m: Incoming, first: bool): Response
  {
    if !m.decoded.Requested? || (m.decoded.request.Extract? && !first) then InvalidRequest
    else ResponseFor(OutcomeOf(t, m.decoded.request), m.presented)
  }

  /** The responses with the one to this frame, if it decodes or is refused and the response can be written. */
  function AddReply(responses: seq<Response>, t: Table, m: Incoming, first: bool): seq<Response>
  {
    if Answerable(m) then responses + [ReplyTo(t, m, first)] else responses
  }

  predicate Answerable(m: Incoming) {
    m.written && !m.decoded.Undecodable?
  }

  /** No frame is read after this one. */
  predicate Ends(m: Incoming, first: bool) {
    !m.released ||
    match m.decoded
    case Undecodable => true
    case NotARequest => first || !m.written
    case Requested(r) => !m.written || r.CloseSession? || (first && r.Extract?)
  }

  /** The run returns after this frame. A frame that ends it otherwise raises. */
  predicate Returns(m: Incoming, first: bool) {
    Ends(m, first) && Answerable(m) && m.released
  }

  /** The number of frames that are read, if all before `from` were. */
  function FramesFrom(script: seq<Incoming>, from: nat): (n: nat)
    requires from <= |script|
    ensures from <= n <= |script|
    decreases |script| - from
  {
    if from == |script| then from
    else if Ends(script[from], from == 0) then from + 1
    else FramesFrom(script, from + 1)
  }

  function TableAfter(t: Table, m: Incoming): Table
  {
    if IsSessionRequest(m) then After(t, m.decoded.request) else t
  }

  /** The table after `n` frames. */
  function TableUpTo(script: seq<Incoming>, n: nat): Table
    requires n <= |script|
  {
    if n == 0 then EMPTY_TABLE else TableAfter(TableUpTo(script, n - 1), script[n - 1])
  }

  lemma {:induction false} UpToSound(script: seq<Incoming>, n: nat)
    requires n <= |script|
    ensures Sound(TableUpTo(script, n))
  {
    if n > 0 {
      UpToSound(script, n - 1);
      if IsSessionRequest(script[n - 1]) {
        StaysSound(TableUpTo(script, n - 1), script[n - 1].decoded.request);
      }
    }
  }

  /** The responses to the first `n` frames. */
  function RepliesUpTo(script: seq<Incoming>, n: nat): seq<Response>
    requires n <= |script|
  {
    if n == 0 then []
    else AddReply(RepliesUpTo(script, n - 1), TableUpTo(script, n - 1), script[n - 1], n == 1)
  }

  lemma {:induction false} NextFrame(script: seq<Incoming>, n: nat)
    requires n < |script|
    ensures TableUpTo(script, n + 1) == TableAfter(TableUpTo(script, n), script[n])
    ensures RepliesUpTo(script, n + 1) == AddReply(RepliesUpTo(script, n), TableUpTo(script, n), script[n], n == 0)
  {
  }

  /** The table at the exit of a run. */
  function FinalTable(script: seq<Incoming>): Table {
    AfterClose(TableUpTo(script, FramesFrom(script, 0)))
  }

  /** The run begins with an extraction. */
  predicate Extracts(script: seq<Incoming>) {
    script != [] && script[0].decoded.Requested? && script[0].decoded.request.Extract?
  }

  /** The run ends by returning, before the input does. */
  predicate RunReturns(script: seq<Incoming>) {
    var n := FramesFrom(script, 0);
    n > 0 && Returns(script[n - 1], n == 1)
  }

  /** Where a session that goes on at frame `from` ends, and whether it ends by returning. */
  function SessionEnd(script: seq<Incoming>, from: nat): (nat, bool)
    requires from <= |script|
    decreases |script| - from
  {
    if from == |script| then (from, false)
    else if Ends(script[from], false) then (from + 1, Returns(script[from], false))
    else SessionEnd(script, from + 1)
  }

  lemma {:induction false} SessionStep(script: seq<Incoming>, n: nat)
    requires n < |script|
    ensures SessionEnd(script, n) ==
      if Ends(script[n], false) then (n + 1, Returns(script[n], false)) else SessionEnd(script, n + 1)
  {
  }

  lemma {:induction false} SessionEndsRun(script: seq<Incoming>, from: nat)
    requires 0 < from <= |script|
    ensures
      var n := FramesFrom(script, from);
      SessionEnd(script, from) == (n, n > from && Returns(script[n - 1], false))
    decreases |script| - from
  {
    if from < |script| && !Ends(script[from], false) {
      SessionEndsRun(script, from + 1);
    }
  }

  /** A run ends with its first frame, or where the session that follows ends. */
  lemma {:induction false} FirstOfRun(script: seq<Incoming>)
    requires script != []
    ensures (FramesFrom(script, 0), RunReturns(script)) ==
      if Ends(script[0], true) then (1, Returns(script[0], true)) else SessionEnd(script, 1)
  {
    SessionEndsRun(script, 1);
  }

  class Worker {
    const session: Session
    /** Complete frames read, responses written, and the number of the frame that each extraction was for. */
    var frames: nat
    var responses: seq<Response>
    var extractions: seq<nat>

    constructor (s: Session)
      ensures session == s && frames == 0 && responses == [] && extractions == []
    {
      session := s;
      frames, responses, extractions := 0, [], [];
    }

    /** `_write`. */
    method Write(response: Response, written: bool) returns (raised: bool)
      modifies this`responses
      ensures raised == !written
      ensures responses == if written then old(responses) + [response] else old(responses)
    {
      if written {
        responses := responses + [response];
      }
      raised := !written;
    }

    /** `_handle`: one response whatever happens, unless it cannot be written. */
    method Handle(request: Request, m: Incoming) returns (raised: bool)
      requires session.Valid()
      modifies this`responses, this`extractions, session, session.made
      ensures session.Valid()
      ensures old(session.made) <= session.made
      ensures forall i :: |old(session.made)| <= i < |session.made| ==> fresh(session.made[i])
      ensures session.table == if request.Extract? then old(session.table) else After(old(session.table), request)
      ensures raised == !m.written
      ensures
        var reply := ResponseFor(OutcomeOf(old(session.table), request), m.presented);
        && responses == (if m.written then old(responses) + [reply] else old(responses))
        && (reply.InvalidRequest? <==> OutcomeOf(old(session.table), request).Invalid?)
        && (reply.Answer? <==> OutcomeOf(old(session.table), request).Done? && m.presented)
      ensures extractions == if request.Extract? then old(extractions) + [frames] else old(extractions)
    {
      var outcome;
      if request.Extract? {
        extractions := extractions + [frames];
        outcome := request.result;
      } else {
        outcome := session.Execute(request);
      }
      var response :=
        if outcome.Invalid? then InvalidRequest
        else if outcome.Done? && m.presented then Answer
        else ProcessingFailed;
      raised := Write(response, m.written);
    }

    /** `_decode`: an invalid request is answered at once. */
    method Decode(m: Incoming) returns (request: Option<Request>, raised: bool)
      modifies this`responses
      ensures request == (if m.decoded.Requested? then Some(m.decoded.request) else None)
      ensures raised <==> m.decoded.Undecodable? || (m.decoded.NotARequest? && !m.written)
      ensures responses ==
        if m.decoded.NotARequest? && m.written then old(responses) + [InvalidRequest] else old(responses)
    {
      match m.decoded {
        case Undecodable => return None, true;
        case Requested(r) => return Some(r), false;
        case NotARequest =>
          raised := Write(InvalidRequest, m.written);
          return None, raised;
      }
    }

    /** What every step keeps: responses and table are those of the frames so far. */
    ghost predicate Follows(script: seq<Incoming>)
      reads this, session, session.made
    {
      && session.Valid() && frames <= |script|
      && responses == RepliesUpTo(script, frames) && session.table == TableUpTo(script, frames)
    }

    /** One turn of the loop of `_run_session`, which goes on, returns or raises. */
    method Turn(script: seq<Incoming>) returns (over: bool, returned: bool)
      requires Follows(script) && 0 < frames < |script|
      modifies this, session, session.made
      ensures Follows(script) && old(session.made) <= session.made
      ensures forall i :: |old(session.made)| <= i < |session.made| ==> fresh(session.made[i])
      ensures frames == old(frames) + 1 && extractions == old(extractions) && (over || !returned)
      ensures SessionEnd(script, old(frames)) == if over then (frames, returned) else SessionEnd(script, frames)
    {
      SessionStep(script, frames);
      NextFrame(script, frames);
      over, returned := TakeFrame(script[frames]);
    }

    method TakeFrame(m: Incoming) returns (over: bool, returned: bool)
      requires session.Valid()
      modifies this, session, session.made
      ensures session.Valid() && session.table == TableAfter(old(session.table), m)
      ensures responses == AddReply(old(responses), old(session.table), m, false)
      ensures old(session.made) <= session.made
      ensures forall i :: |old(session.made)| <= i < |session.made| ==> fresh(session.made[i])
      ensures frames == old(frames) + 1 && extractions == old(extractions)
      ensures over == Ends(m, false) && returned == Returns(m, false)
    {
      frames := frames + 1;
      var request, failed := Decode(m);
      if failed || request.None? {
        return failed || !m.released, false;
      }
      if request.value.Extract? {
        var unwritten := Write(InvalidRequest, m.written);
        return unwritten || !m.released, false;
      }
      var unwritten := Handle(request.value, m);
      var raised := unwritten || !m.released;
      over := raised || request.value.CloseSession?;
      returned := over && !raised;
    }

    /** `_run_session`: the frames that are left, until the stream raises, a write fails or the session is closed. */
    method RunSession(script: seq<Incoming>) returns (raised: bool)
      requires Follows(script) && 0 < frames
      modifies this, session, session.made
      ensures Follows(script) && old(session.made) <= session.made
      ensures forall i :: |old(session.made)| <= i < |session.made| ==> fresh(session.made[i])
      ensures (frames, !raised) == SessionEnd(script, old(frames)) && extractions == old(extractions)
    {
      ghost var end, made := SessionEnd(script, frames), session.made;
      var n, over, returned := frames, false, false;
      while n < |script| && !over
        invariant n == frames && Follows(script) && extractions == old(extractions) && made <= session.made
        invariant forall i :: |made| <= i < |session.made| ==> fresh(session.made[i])
        invariant over || !returned
        invariant end == if over then (n, returned) else SessionEnd(script, n)
      {
        over, returned := Turn(script);
        n := n + 1;
      }
      raised := !returned;
    }

    /**
     `run`, over any sequence of complete frames after which the stream raises. It reads the
     frames up to the first that ends the run, gives each its response, and leaves the table of
     the reference: every reader made was closed exactly once, but for those lost there.
     */
    method Run(script: seq<Incoming>) returns (raised: bool)
      requires session.Valid() && session.table == EMPTY_TABLE && session.made == []
      requires frames == 0 && responses == [] && extractions == []
      modifies this, session
      ensures session.Valid() && session.readers == []
      ensures session.table == FinalTable(script) && |session.made| == |FinalTable(script).raises|
      ensures forall i :: 0 <= i < |session.made| ==>
        session.made[i].closings == if i in FinalTable(script).lost then 0 else 1
      ensures frames == FramesFrom(script, 0) && responses == RepliesUpTo(script, frames)
      ensures extractions == if Extracts(script) then [1] else []
      ensures raised == (!RunReturns(script) || CloseOutcome(TableUpTo(script, frames)).Failed?)
    {
      raised := Serve(script);
      var closingRaised := session.Close();
      raised := raised || closingRaised;
    }

    method Serve(script: seq<Incoming>) returns (raised: bool)
      requires session.Valid() && session.table == EMPTY_TABLE && session.made == []
      requires frames == 0 && responses == [] && extractions == []
      modifies this, session
      ensures Follows(script) && frames == FramesFrom(script, 0)
      ensures forall i :: 0 <= i < |session.made| ==> fresh(session.made[i])
      ensures extractions == if Extracts(script) then [1] else []
      ensures raised == !RunReturns(script)
    {
      if script == [] {
        return true;
      }
      var over, returned := FirstTurn(script, script[0]);
      FirstOfRun(script);
      if over {
        return !returned;
      }
      raised := RunSession(script);
    }

    /** The first frame of `run`, which alone may be an extraction. */
    method FirstTurn(script: seq<Incoming>, m: Incoming) returns (over: bool, returned: bool)
      requires session.Valid() && session.table == EMPTY_TABLE && session.made == []
      requires frames == 0 && responses == [] && extractions == [] && script != [] && m == script[0]
      modifies this, session
      ensures Follows(script) && frames == 1
      ensures forall i :: 0 <= i < |session.made| ==> fresh(session.made[i])
      ensures over == Ends(m, true) && returned == Returns(m, true)
      ensures extractions == if Extracts(script) then [1] else []
    {
      frames := 1;
      var request, failed := Decode(m);
      if failed || request.None? {
        return true, !failed && m.released;
      }
      var unwritten := Handle(request.value, m);
      var raised := unwritten || !m.released;
      over := raised || request.value.Extract? || request.value.CloseSession?;
      returned := over && !raised;
    }
  }

  // ----- What a run answers and loses -----

  /**
   Every frame that is read has its response, in its place, but for a last one that cannot be
   answered: an answer when the request succeeded and could be presented, and an invalid request
   when it is none, comes too late for an extraction or is refused.
   */
  lemma {:induction false} EveryFrameAnswered(script: seq<Incoming>, n: nat, k: nat)
    requires k < n <= FramesFrom(script, 0) && (k + 1 < n || (script[k].written && !script[k].decoded.Undecodable?))
    ensures k < |RepliesUpTo(script, n)| <= n
    ensures
      var reply, m, t := RepliesUpTo(script, n)[k], script[k], TableUpTo(script, k);
      var executed := m.decoded.Requested? && !(m.decoded.request.Extract? && k > 0);
      && !m.decoded.Undecodable?
      && (reply.InvalidRequest? <==> !executed || OutcomeOf(t, m.decoded.request).Invalid?)
      && (reply.Answer? <==> executed && OutcomeOf(t, m.decoded.request).Done? && m.presented)
  {
    ReplyAt(script, n, k);
    if k + 1 < n {
      NotEnding(script, 0, k);
    }
  }

  lemma {:induction false} ReplyAt(script: seq<Incoming>, n: nat, k: nat)
    requires k < n <= FramesFrom(script, 0) && (k + 1 < n || Answerable(script[k]))
    ensures k < |RepliesUpTo(script, n)| <= n
    ensures RepliesUpTo(script, n)[k] == ReplyTo(TableUpTo(script, k), script[k], k == 0)
  {
    ReplyCount(script, n - 1);
    var replies, t := RepliesUpTo(script, n - 1), TableUpTo(script, n - 1);
    AddsOneReply(replies, t, script[n - 1], n == 1);
    if k < n - 1 {
      NotEnding(script, 0, k);
      ReplyAt(script, n - 1, k);
      assert RepliesUpTo(script, n)[k] == replies[k];
    }
  }

  lemma {:induction false} AddsOneReply(replies: seq<Response>, t: Table, m: Incoming, first: bool)
    ensures
      var more := AddReply(replies, t, m, first);
      replies <= more && |more| <= |replies| + 1 && (Answerable(m) ==> more == replies + [ReplyTo(t, m, first)])
  {
  }

  lemma {:induction false} ReplyCount(script: seq<Incoming>, n: nat)
    requires n <= FramesFrom(script, 0) && (n > 0 ==> n < FramesFrom(script, 0))
    ensures |RepliesUpTo(script, n)| == n
  {
    if n > 0 {
      NotEnding(script, 0, n - 1);
      ReplyCount(script, n - 1);
    }
  }

  /** No frame but the last ends the run. */
  lemma {:induction false} NotEnding(script: seq<Incoming>, from: nat, k: nat)
    requires from <= k < |script| && k + 1 < FramesFrom(script, from)
    ensures !Ends(script[k], k == 0)
    decreases k - from
  {
    if from < k {
      NotEnding(script, from + 1, k);
    }
  }

  /** The table goes from frame to frame as the requests of a session take it. */
  lemma {:induction false} FrameSteps(script: seq<Incoming>, n: nat)
    requires n < |script|
    ensures
      var t, m, after := TableUpTo(script, n), script[n], TableUpTo(script, n + 1);
      if m.decoded.Requested? then Step(t, m.decoded.request, after, OutcomeOf(t, m.decoded.request)) else after == t
    ensures TableUpTo(script, 0) == Table([], [], {})
  {
    UpToSound(script, n);
    NextFrame(script, n);
    if script[n].decoded.Requested? {
      TakesStep(TableUpTo(script, n), script[n].decoded.request);
    }
  }

  /**
   The run goes on after a frame that was released, whose response, if it has one, was written,
   and which does not close the session; the first one is a request of a session, too. It ends
   with the first frame that is none of these, or with the input, and returns only when the last
   frame was answered and released.
   */
  lemma {:induction false} RunEndsAt(script: seq<Incoming>)
    ensures
      var n := FramesFrom(script, 0);
      && (forall k: nat :: k + 1 < n ==> GoesOn(script, k))
      && (n < |script| ==> n > 0 && !GoesOn(script, n - 1))
      && (RunReturns(script) <==>
          && n > 0 && !GoesOn(script, n - 1)
          && script[n - 1].released && script[n - 1].written && !script[n - 1].decoded.Undecodable?)
  {
    var n := FramesFrom(script, 0);
    forall k: nat | k + 1 < n ensures GoesOn(script, k) {
      NotEnding(script, 0, k);
    }
    LastEnds(script, 0);
  }

  predicate GoesOn(script: seq<Incoming>, k: nat)
    requires k < |script|
  {
    var m := script[k];
    && m.released && m.written && !m.decoded.Undecodable?
    && (m.decoded.Requested? ==> !m.decoded.request.CloseSession?)
    && (k == 0 ==> m.decoded.Requested? && !m.decoded.request.Extract?)
  }

  lemma {:induction false} LastEnds(script: seq<Incoming>, from: nat)
    requires from <= |script|
    ensures
      var n := FramesFrom(script, from);
      n < |script| ==> n > from && Ends(script[n - 1], n == 1)
    decreases |script| - from
  {
    if from < |script| && !Ends(script[from], from == 0) {
      LastEnds(script, from + 1);
    }
  }

  /** None of the first `n` frames drops a reader, nor loses one when it closes the session. */
  predicate CarefulUpTo(script: seq<Incoming>, n: nat)
    requires n <= |script|
  {
    n == 0 || (
      && CarefulUpTo(script, n - 1)
      && (IsSessionRequest(script[n - 1]) ==> Careful(TableUpTo(script, n - 1), script[n - 1].decoded.request)))
  }

  lemma {:induction false} UpToLosesNoneIff(script: seq<Incoming>, n: nat)
    requires n <= |script|
    ensures TableUpTo(script, n).lost == {} <==> CarefulUpTo(script, n)
  {
    if n > 0 {
      UpToLosesNoneIff(script, n - 1);
      UpToSound(script, n - 1);
      if IsSessionRequest(script[n - 1]) {
        LosesNoneIff(TableUpTo(script, n - 1), script[n - 1].decoded.request);
      }
    }
  }

  /**
   A run closes every reader exactly when no text document that is opened with room drops its
   reader, and at each closing, the one at the exit included, no raising reader has another behind it.
   */
  lemma {:induction false} RunLosesNoneIff(script: seq<Incoming>)
    ensures
      var n := FramesFrom(script, 0);
      FinalTable(script).lost == {} <==> CarefulUpTo(script, n) && RaisesLast(TableUpTo(script, n))
  {
    var n := FramesFrom(script, 0);
    UpToLosesNoneIff(script, n);
    UpToSound(script, n);
    CloseLosesNoneIff(TableUpTo(script, n));
  }

  /** No reader made for this frame raises when it is closed, nor is it dropped. */
  predicate Quiet(m: Incoming) {
    m.decoded.Requested? ==>
      match m.decoded.request
      case Open(_, artifact) => artifact.Made? ==> !artifact.closeRaises
      case OpenText(_, text) => text.Stored? && text.reader.Made? ==> !text.reader.closeRaises && text.temporaryDropped
      case _ => true
  }

  lemma {:induction false} QuietTable(script: seq<Incoming>, n: nat)
    requires n <= |script| && forall k :: 0 <= k < |script| ==> Quiet(script[k])
    ensures CarefulUpTo(script, n)
    ensures forall m :: 0 <= m < |TableUpTo(script, n).raises| ==> !TableUpTo(script, n).raises[m]
  {
    if n > 0 {
      QuietTable(script, n - 1);
      UpToSound(script, n - 1);
      QuietAfter(TableUpTo(script, n - 1), script[n - 1]);
    }
  }

  lemma {:induction false} QuietAfter(t: Table, m: Incoming)
    requires Sound(t) && Quiet(m) && forall i :: 0 <= i < |t.raises| ==> !t.raises[i]
    ensures IsSessionRequest(m) ==> Careful(t, m.decoded.request)
    ensures forall i :: 0 <= i < |TableAfter(t, m).raises| ==> !TableAfter(t, m).raises[i]
  {
  }

  /** With quiet readers and no temporary file left behind, a run closes every reader. */
  lemma {:induction false} QuietRunLosesNone(script: seq<Incoming>)
    requires forall k :: 0 <= k < |script| ==> Quiet(script[k])
    ensures FinalTable(script).lost == {}
  {
    QuietTable(script, FramesFrom(script, 0));
    RunLosesNoneIff(script);
  }

  /** Opens two documents; closing the reader of the first raises. */
  function Neighbours(a: string, b: string): seq<Incoming> {
    [Incoming(Requested(Open(a, Made(true))), true, true, true),
     Incoming(Requested(Open(b, Made(false))), true, true, true)]
  }

  /** The reader of the second is never closed. */
  lemma {:induction false} NeighbourIsLost(a: string, b: string)
    requires a != b
    ensures FinalTable(Neighbours(a, b)) == Table([], [true, false], {1})
  {
    var script := Neighbours(a, b);
    assert !Ends(script[0], true) && !Ends(script[1], false);
    assert FramesFrom(script, 2) == 2 && FramesFrom(script, 1) == 2;
    SecondEnters(a, b);
    assert TableUpTo(script, 0) == EMPTY_TABLE;
    assert TableUpTo(script, 1) == Table([Slot(a, 0)], [true], {});
    assert TableUpTo(script, 2) == Table([Slot(a, 0), Slot(b, 1)], [true, false], {});
    BothOpen(Table([Slot(a, 0), Slot(b, 1)], [true, false], {}));
  }

  lemma {:induction false} SecondEnters(a: string, b: string)
    requires a != b
    ensures After(EMPTY_TABLE, Open(a, Made(true))) == Table([Slot(a, 0)], [true], {})
    ensures After(Table([Slot(a, 0)], [true], {}), Open(b, Made(false)))
      == Table([Slot(a, 0), Slot(b, 1)], [true, false], {})
  {
  }

  lemma {:induction false} BothOpen(t: Table)
    requires |t.slots| == 2 && t.slots[0].maker == 0 && t.slots[1].maker == 1
    requires t.raises == [true, false] && t.lost == {}
    ensures AfterClose(t) == Table([], t.raises, {1})
  {
    assert MakersFrom(t.slots, 1) == {1} + MakersFrom(t.slots, 2);
  }
}

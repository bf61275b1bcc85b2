/** One reservation per boot (`confer-worker-listener`). */
module Listener {
  import opened Basics
  import opened Registers

  const KEY_PREFIX: bytes :=
    [0, 0, 0, 0x0B, 0x73, 0x73, 0x68, 0x2D, 0x65, 0x64, 0x32, 0x35, 0x35, 0x31, 0x39, 0, 0, 0, 0x20]
  const KEY_BYTES := 51
  const CHALLENGE_BYTES := 32
  const RESERVATION_DOMAIN := "confer.worker.rtmr3.reservation.v1"
  const REPORT_DOMAIN := "confer.worker.ssh.prelude.v4"

  /** `validate_public_key`. */
  predicate IsKey(blob: bytes) {
    |blob| == KEY_BYTES && KEY_PREFIX <= blob
  }

  datatype Reservation = Reservation(hostKey: bytes, clientKey: bytes, challenge: bytes) {
    predicate WellFormed() {
      IsKey(hostKey) && IsKey(clientKey) && |challenge| == CHALLENGE_BYTES
    }

    /** What the reservation event is the hash of. */
    function Event(): bytes {
      Ascii(RESERVATION_DOMAIN) + hostKey + clientKey + challenge
    }

    /** What the report data of the quote is the hash of. */
    function Report(): bytes {
      Ascii(REPORT_DOMAIN) + hostKey + clientKey + challenge
    }
  }

  /** All three parts have fixed lengths, so neither message can be cut in two ways. */
  lemma {:induction false} PartsTell(domain: bytes, r: Reservation, s: Reservation)
    requires r.WellFormed() && s.WellFormed()
    requires domain + r.hostKey + r.clientKey + r.challenge == domain + s.hostKey + s.clientKey + s.challenge
    ensures r == s
  {
    var x := domain + r.hostKey + r.clientKey + r.challenge;
    var y := domain + s.hostKey + s.clientKey + s.challenge;
    var d := |domain|;
    assert x[d..d + 51] == r.hostKey && y[d..d + 51] == s.hostKey;
    assert x[d + 51..d + 102] == r.clientKey && y[d + 51..d + 102] == s.clientKey;
    assert x[d + 102..] == r.challenge && y[d + 102..] == s.challenge;
  }

  /** Where the parts of a message are: the domain, the two keys of 51 bytes, and the challenge of 32. */
  predicate IsLaidOut(message: bytes, domain: bytes, hostKey: bytes, clientKey: bytes, challenge: bytes) {
    var d := |domain|;
    && |message| == d + 134 && message[..d] == domain && message[d..d + 51] == hostKey
    && message[d + 51..d + 102] == clientKey && message[d + 102..] == challenge
  }

  lemma {:induction false} MessagesAreLaidOut(r: Reservation)
    requires r.WellFormed()
    ensures IsLaidOut(r.Event(), Ascii("confer.worker.rtmr3.reservation.v1"), r.hostKey, r.clientKey, r.challenge)
    ensures IsLaidOut(r.Report(), Ascii("confer.worker.ssh.prelude.v4"), r.hostKey, r.clientKey, r.challenge)
  {
    LaidOut(Ascii(RESERVATION_DOMAIN), r.hostKey, r.clientKey, r.challenge);
    LaidOut(Ascii(REPORT_DOMAIN), r.hostKey, r.clientKey, r.challenge);
  }

  lemma {:induction false} LaidOut(domain: bytes, hostKey: bytes, clientKey: bytes, challenge: bytes)
    requires |hostKey| == 51 && |clientKey| == 51 && |challenge| == 32
    ensures IsLaidOut(domain + hostKey + clientKey + challenge, domain, hostKey, clientKey, challenge)
  {
  }

  /** The report data of a quote fixes the same three parts. */
  lemma {:induction false} ReportTells<D(!new)>(h: Hasher<D>, r: Reservation, s: Reservation)
    requires CollisionFree(h) && r.WellFormed() && s.WellFormed()
    ensures h.sha(r.Report()) == h.sha(s.Report()) <==> r == s
  {
    if h.sha(r.Report()) == h.sha(s.Report()) {
      PartsTell(Ascii(REPORT_DOMAIN), r, s);
    }
  }

  /** The event fixes the host key, the client key and the challenge. */
  lemma {:induction false} EventTells<D(!new)>(h: Hasher<D>, r: Reservation, s: Reservation)
    requires CollisionFree(h) && r.WellFormed() && s.WellFormed()
    ensures h.sha(r.Event()) == h.sha(s.Event()) <==> r == s
  {
    if h.sha(r.Event()) == h.sha(s.Event()) {
      PartsTell(Ascii(RESERVATION_DOMAIN), r, s);
    }
  }

  /** The value a client recomputes from its own challenge and the two keys. */
  function Expected<D>(h: Hasher<D>, r: Reservation): D {
    h.extend(h.zero, h.sha(r.Event()))
  }

  /**
   What the client learns from a register value in a quote: it is the expected one exactly
   when this reservation is all that was ever extended since boot.
   */
  lemma {:induction false} ExpectedMeansOnly<D(!new)>(h: Hasher<D>, history: seq<D>, r: Reservation)
    requires CollisionFree(h)
    ensures RegisterOf(h, history) == Expected(h, r) <==> history == [h.sha(r.Event())]
  {
    SingleExtension(h, h.sha(r.Event()));
    if RegisterOf(h, history) == Expected(h, r) {
      RegisterTellsHistory(h, history, [h.sha(r.Event())]);
    }
  }

  /** No two reservations can convince their clients in the same boot. */
  lemma {:induction false} OneClientConvinced<D(!new)>(h: Hasher<D>, history: seq<D>, later: seq<D>, r: Reservation,
      s: Reservation)
    requires CollisionFree(h) && r.WellFormed() && s.WellFormed() && history <= later
    requires RegisterOf(h, history) == Expected(h, r) && RegisterOf(h, later) == Expected(h, s)
    ensures r == s
  {
    ExpectedMeansOnly(h, history, r);
    ExpectedMeansOnly(h, later, s);
    EventTells(h, r, s);
  }

  datatype Write<D> = Complete | Short(effect: seq<D>)

  /** Everything a start of the listener depends on but does not decide. */
  datatype Environment<D> = Environment(
    instanceIdValid: bool,
    remaining: int,
    connected: bool,
    acknowledged: bool,
    request: Option<(bytes, bytes)>,
    hostKey: Option<bytes>,
    earlier: seq<D>,
    write: Write<D>,
    meanwhile: seq<D>,
    later: seq<D>,
    quoteCreated: bool,
    responseFits: bool,
    responseSent: bool)

  /** The request is well-formed, the host key sound, and nobody extends the register before the check. */
  predicate Attestable<D>(env: Environment<D>) {
    && env.request.Some? && |env.request.value.0| == CHALLENGE_BYTES && IsKey(env.request.value.1)
    && env.hostKey.Some? && IsKey(env.hostKey.value)
    && env.earlier == [] && env.write.Complete? && env.meanwhile == []
    && env.quoteCreated && env.responseFits
  }

  /** All else that a start needs of its environment. */
  predicate Reachable<D>(env: Environment<D>) {
    env.instanceIdValid && env.remaining > 0 && env.connected && env.acknowledged && env.responseSent
  }

  datatype ListenerError =
    | AlreadyStarted
    | InstanceId
    | AdmissionClosed
    | AlreadyReady
    | Disconnected
    | Request
    | KeyFileExists
    | HostKey
    | ShortExtension
    | MoreThanThisReservation
    | QuoteFailed
    | ResponseFailed

  /** What happens on one machine between two boots. */
  datatype Step<D> =
    | Start(environment: Environment<D>)
    | Others(events: seq<D>)
    | Files(marker: bool, ready: bool, authorizedKey: Option<bytes>)

  datatype Admission = Published | Accepted | Withdrawn

  class Boot<D(==, !new)> {
    const h: Hasher<D>
    var register: D
    var marker: bool
    var ready: bool
    var authorizedKey: Option<bytes>
    /** Every extension of the register since boot, by anyone. */
    ghost var history: seq<D>
    /** The reservations recorded, quoted, and handed to sshd. */
    ghost var recorded: seq<Reservation>
    ghost var quoted: seq<Reservation>
    ghost var admitted: seq<Reservation>
    /** When the machine showed as ready, and when a client connected. */
    ghost var admission: seq<Admission>

    ghost predicate Valid()
      reads this
    {
      && CollisionFree(h) && register == RegisterOf(h, history)
      && |recorded| <= 1 && quoted <= recorded && admitted <= quoted
      && (recorded != [] ==> recorded[0].WellFormed() && history != [] && history[0] == h.sha(recorded[0].Event()))
    }

    constructor (hasher: Hasher<D>)
      requires CollisionFree(hasher)
      ensures Valid() && h == hasher && history == [] && recorded == [] && quoted == [] && admitted == []
      ensures !marker && !ready && authorizedKey == None
    {
      h := hasher;
      register := hasher.zero;
      marker, ready, authorizedKey := false, false, None;
      history, recorded, quoted, admitted, admission := [], [], [], [], [];
    }

    /** Anyone on the machine may extend the register. */
    method Extend(event: D)
      requires Valid()
      modifies this`register, this`history
      ensures Valid() && history == old(history) + [event]
    {
      Extended(h, history, event);
      register := h.extend(register, event);
      history := history + [event];
    }

    method ExtendAll(events: seq<D>)
      requires Valid()
      modifies this`register, this`history
      ensures Valid() && history == old(history) + events
    {
      var i := 0;
      while i < |events|
        invariant 0 <= i <= |events| && Valid()
        invariant history == old(history) + events[..i]
      {
        Extend(events[i]);
        assert events[..i + 1] == events[..i] + [events[i]];
        i := i + 1;
      }
      assert events[..i] == events;
    }

    /** `record_reservation`: it succeeds exactly when this event is the whole history of the boot. */
    method RecordReservation(r: Reservation, write: Write<D>, meanwhile: seq<D>) returns (e: Option<ListenerError>)
      requires Valid() && r.WellFormed()
      modifies this`register, this`history, this`recorded
      ensures Valid()
      ensures write.Complete? ==> history == old(history) + [h.sha(r.Event())] + meanwhile
      ensures write.Short? ==> history == old(history) + write.effect
      ensures write.Short? <==> e == Some(ShortExtension)
      ensures e.None? <==> write.Complete? && history == [h.sha(r.Event())]
      ensures recorded == if e.None? then old(recorded) + [r] else old(recorded)
      ensures e.None? ==> old(recorded) == []
    {
      var event := h.sha(r.Event());
      if write.Short? {
        ExtendAll(write.effect);
        return Some(ShortExtension);
      }
      Extend(event);
      ExtendAll(meanwhile);
      ExpectedMeansOnly(h, history, r);
      if register != h.extend(h.zero, event) {
        return Some(MoreThanThisReservation);
      }
      recorded := recorded + [r];
      return None;
    }

    /** `create_attestation`: the key file is written once, then the reservation recorded, then quoted. */
    method CreateAttestation(env: Environment<D>) returns (e: Option<ListenerError>)
      requires Valid()
      modifies this`register, this`history, this`recorded, this`quoted, this`authorizedKey
      ensures Valid() && old(history) <= history
      ensures e.None? <==> Attestable(env) && old(authorizedKey).None? && old(history) == []
      ensures old(authorizedKey).Some? ==> authorizedKey == old(authorizedKey) && e.Some?
      ensures e.None? ==>
        && env.request.Some? && env.hostKey.Some? && old(quoted) == []
        && quoted == recorded == [Reservation(env.hostKey.value, env.request.value.1, env.request.value.0)]
        && authorizedKey == Some(env.request.value.1)
    {
      if env.request.None? || |env.request.value.0| != CHALLENGE_BYTES || !IsKey(env.request.value.1) {
        return Some(Request);
      }
      var challenge, clientKey := env.request.value.0, env.request.value.1;
      if authorizedKey.Some? {
        return Some(KeyFileExists);
      }
      authorizedKey := Some(clientKey);
      if env.hostKey.None? || !IsKey(env.hostKey.value) {
        return Some(HostKey);
      }
      e := RecordAndQuote(env, Reservation(env.hostKey.value, clientKey, challenge));
    }

    /** The part of `create_attestation` from the reservation on. */
    method RecordAndQuote(env: Environment<D>, r: Reservation) returns (e: Option<ListenerError>)
      requires Valid() && r.WellFormed()
      modifies this`register, this`history, this`recorded, this`quoted
      ensures Valid() && old(history) <= history
      ensures e.None? <==>
        && env.earlier == [] && env.write.Complete? && env.meanwhile == [] && old(history) == []
        && env.quoteCreated && env.responseFits
      ensures e.None? ==> old(quoted) == [] && quoted == recorded == [r]
    {
      ExtendAll(env.earlier);
      e := RecordReservation(r, env.write, env.meanwhile);
      if e.Some? {
        return;
      }
      ExtendAll(env.later);
      if !env.quoteCreated {
        return Some(QuoteFailed);
      }
      quoted := quoted + [r];
      if !env.responseFits {
        return Some(ResponseFailed);
      }
    }

    /** `accept_until`: ready is published before it waits for its one client and withdrawn whatever comes of it. */
    method AcceptUntil(env: Environment<D>) returns (e: Option<ListenerError>)
      modifies this`ready, this`admission
      ensures e ==
        if env.remaining <= 0 then Some(AdmissionClosed)
        else if old(ready) then Some(AlreadyReady)
        else if env.connected then None
        else Some(AdmissionClosed)
      ensures admission == old(admission) +
        if env.remaining <= 0 || old(ready) then []
        else if env.connected then [Published, Accepted, Withdrawn]
        else [Published, Withdrawn]
      ensures ready == old(ready)
    {
      if env.remaining <= 0 {
        return Some(AdmissionClosed);
      }
      if ready {
        return Some(AlreadyReady);
      }
      PublishReady();
      if env.connected {
        admission := admission + [Accepted];
        e := None;
      } else {
        e := Some(AdmissionClosed);
      }
      WithdrawReady();
    }

    /** `publish_ready`: the marker must not be there. */
    method PublishReady()
      requires !ready
      modifies this`ready, this`admission
      ensures ready && admission == old(admission) + [Published]
    {
      ready, admission := true, admission + [Published];
    }

    method WithdrawReady()
      modifies this`ready, this`admission
      ensures !ready && admission == old(admission) + [Withdrawn]
    {
      ready, admission := false, admission + [Withdrawn];
    }

    /** `serve`, after the listener has claimed its one start. */
    method ServeOnce(env: Environment<D>) returns (e: Option<ListenerError>)
      requires Valid()
      modifies this`register, this`history, this`recorded, this`quoted, this`admitted, this`authorizedKey, this`ready,
        this`admission
      ensures Valid() && old(history) <= history
      ensures e.None? <==>
        Reachable(env) && !old(ready) && Attestable(env) && old(authorizedKey).None? && old(history) == []
      ensures old(authorizedKey).Some? ==> authorizedKey == old(authorizedKey)
      ensures e.None? ==>
        && old(admitted) == [] && |admitted| == 1 && admitted == quoted == recorded
        && authorizedKey == Some(admitted[0].clientKey) && !ready
        && admission == old(admission) + [Published, Accepted, Withdrawn]
      ensures e.Some? ==> admitted == old(admitted)
      ensures env.instanceIdValid ==> !ready
    {
      if !env.instanceIdValid {
        return Some(InstanceId);
      }
      e := AcceptUntil(env);
      ready := false;
      if e.Some? {
        return;
      }
      if !env.acknowledged {
        return Some(Disconnected);
      }
      e := CreateAttestation(env);
      if e.Some? {
        return;
      }
      if !env.responseSent {
        return Some(ResponseFailed);
      }
      admitted := admitted + [recorded[0]];
    }

    /** `serve`: a second start changes nothing. */
    method Serve(env: Environment<D>) returns (e: Option<ListenerError>)
      requires Valid()
      modifies this
      ensures Valid() && marker
      ensures old(marker) ==> e == Some(AlreadyStarted) && unchanged(this)
      ensures old(history) <= history
      ensures e.None? <==>
        && !old(marker) && Reachable(env) && !old(ready)
        && Attestable(env) && old(authorizedKey).None? && old(history) == []
      ensures e.None? ==> old(admitted) == [] && |admitted| == 1 && authorizedKey == Some(admitted[0].clientKey)
      ensures e.None? ==> admission == old(admission) + [Published, Accepted, Withdrawn]
      ensures e.Some? ==> admitted == old(admitted)
      ensures !old(marker) && env.instanceIdValid ==> !ready
    {
      if marker {
        return Some(AlreadyStarted);
      }
      marker := true;
      e := ServeOnce(env);
    }

    /**
     Any run of a machine: starts of the listener, extensions by others, and any change to
     the listener's files in between. At most one reservation is ever recorded, quoted and
     admitted, and it was the first extension of the boot.
     */
    method Run(steps: seq<Step<D>>)
      requires Valid()
      modifies this
      ensures Valid() && old(history) <= history
      ensures |recorded| <= 1 && admitted <= quoted <= recorded
      ensures recorded != [] ==> history[0] == h.sha(recorded[0].Event())
    {
      var i := 0;
      while i < |steps|
        invariant 0 <= i <= |steps| && Valid() && old(history) <= history
      {
        match steps[i] {
          case Start(env) =>
            var e := Serve(env);
          case Others(events) => ExtendAll(events);
          case Files(m, r, k) => marker, ready, authorizedKey := m, r, k;
        }
        i := i + 1;
      }
    }
  }
}

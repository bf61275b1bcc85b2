/** The table of open documents of a worker, and the life of the readers in it. */
module DocumentSession {
  import opened Basics

  const MAX_DOCUMENTS := 1000

  /** An open artifact. Closing it may raise, and closes it all the same. */
  class Reader {
    const raises: bool
    var closings: nat

    constructor (closeRaises: bool)
      ensures raises == closeRaises && closings == 0
    {
      raises := closeRaises;
      closings := 0;
    }

    method Close() returns (raised: bool)
      modifies this
      ensures closings == old(closings) + 1 && raised == raises
    {
      closings := closings + 1;
      raised := raises;
    }
  }

  /** What making a reader from an artifact comes to. */
  datatype Factory = Made(closeRaises: bool) | Rejected | Crashed

  /** What extracting and storing a text, making a reader and dropping the temporary file come to. */
  datatype TextFactory = TextRejected | TextCrashed | Stored(reader: Factory, temporaryDropped: bool)

  /** How a request ends: with a response, with an error the caller is told, or with any other exception. */
  datatype Outcome = Done | Invalid | Failed

  datatype Request =
    | Extract(result: Outcome)
    | Open(id: string, artifact: Factory)
    | OpenText(id: string, text: TextFactory)
    | Query(id: string, result: Outcome)
    | Release(id: string)
    | CloseSession

  // ----- The reference: a table without a heap -----

  /** An open document: its id, and the number of its reader in the order in which readers are made. */
  datatype Slot = Slot(id: string, maker: nat)

  /**
   The open documents in order of insertion; whether closing each reader made so far raises;
   and the readers that nothing refers to any more though they were never closed.
   */
  datatype Table = Table(slots: seq<Slot>, raises: seq<bool>, lost: set<nat>)

  const EMPTY_TABLE := Table([], [], {})

  /** The place of an id, if it is open. */
  function FindSlot(slots: seq<Slot>, id: string): (r: Option<nat>)
    ensures r.Some? ==> r.value < |slots| && slots[r.value].id == id
    ensures r.None? ==> forall i :: 0 <= i < |slots| ==> slots[i].id != id
  {
    if slots == [] then None
    else if slots[|slots| - 1].id == id then Some(|slots| - 1)
    else FindSlot(slots[..|slots| - 1], id)
  }

  /** The readers of the documents at place `from` and later. */
  function MakersFrom(slots: seq<Slot>, from: nat): set<nat>
    requires from <= |slots|
    decreases |slots| - from
  {
    if from == |slots| then {} else {slots[from].maker} + MakersFrom(slots, from + 1)
  }

  /** Closing the reader of the document at place `k` raises. */
  predicate Raises(t: Table, k: nat)
    requires k < |t.slots|
  {
    t.slots[k].maker < |t.raises| && t.raises[t.slots[k].maker]
  }

  /** The place of the first reader whose closing raises, or the number of documents. */
  function FirstRaising(t: Table, from: nat): (k: nat)
    requires from <= |t.slots|
    ensures from <= k <= |t.slots|
    ensures k < |t.slots| ==> Raises(t, k)
    ensures forall j :: from <= j < k ==> !Raises(t, j)
    decreases |t.slots| - from
  {
    if from == |t.slots| || Raises(t, from) then from else FirstRaising(t, from + 1)
  }

  predicate HasRoom(t: Table, id: string) {
    FindSlot(t.slots, id).None? && |t.slots| < MAX_DOCUMENTS
  }

  /** One more reader, entered under an id or lost at once. */
  function WithReader(t: Table, id: string, closeRaises: bool, entered: bool): Table {
    if entered then Table(t.slots + [Slot(id, |t.raises|)], t.raises + [closeRaises], t.lost)
    else Table(t.slots, t.raises + [closeRaises], t.lost + {|t.raises|})
  }

  function AfterOpen(t: Table, id: string, artifact: Factory): Table {
    if HasRoom(t, id) && artifact.Made? then WithReader(t, id, artifact.closeRaises, true) else t
  }

  function AfterOpenText(t: Table, id: string, text: TextFactory): Table {
    if HasRoom(t, id) && text.Stored? && text.reader.Made?
    then WithReader(t, id, text.reader.closeRaises, text.temporaryDropped)
    else t
  }

  function Without<T>(s: seq<T>, k: nat): seq<T>
    requires k < |s|
  {
    s[..k] + s[k + 1..]
  }

  function AfterRelease(t: Table, id: string): Table {
    var k := FindSlot(t.slots, id);
    if k.None? then t else t.(slots := Without(t.slots, k.value))
  }

  /** The lost readers, and those of the documents at place `from` and later. */
  function Behind(t: Table, from: nat): set<nat>
    requires from <= |t.slots|
  {
    t.lost + MakersFrom(t.slots, from)
  }

  /** The table is emptied, and the first reader whose closing raises cuts the rest off. */
  function AfterClose(t: Table): Table
  {
    Table([], t.raises, Behind(t, Min(FirstRaising(t, 0) + 1, |t.slots|)))
  }

  /** What a request leaves of the table. */
  function After(t: Table, request: Request): Table
  {
    match request
    case Open(id, artifact) => AfterOpen(t, id, artifact)
    case OpenText(id, text) => AfterOpenText(t, id, text)
    case Release(id) => AfterRelease(t, id)
    case CloseSession => AfterClose(t)
    case _ => t
  }

  function OpenOutcome(t: Table, id: string, artifact: Factory): Outcome {
    if !HasRoom(t, id) then Invalid
    else match artifact
      case Made(_) => Done
      case Rejected => Invalid
      case Crashed => Failed
  }

  /** An error while the temporary file is dropped replaces any other. */
  function OpenTextOutcome(t: Table, id: string, text: TextFactory): Outcome {
    if !HasRoom(t, id) then Invalid
    else match text
      case TextRejected => Invalid
      case TextCrashed => Failed
      case Stored(reader, temporaryDropped) =>
        if temporaryDropped then OpenOutcome(t, id, reader) else Invalid
  }

  function ReleaseOutcome(t: Table, id: string): Outcome
  {
    var k := FindSlot(t.slots, id);
    if k.Some? && Raises(t, k.value) then Failed else Done
  }

  function CloseOutcome(t: Table): Outcome
  {
    if FirstRaising(t, 0) < |t.slots| then Failed else Done
  }

  /** How a request ends. */
  function OutcomeOf(t: Table, request: Request): Outcome
  {
    match request
    case Extract(result) => result
    case Open(id, artifact) => OpenOutcome(t, id, artifact)
    case OpenText(id, text) => OpenTextOutcome(t, id, text)
    case Query(id, result) => if FindSlot(t.slots, id).None? then Invalid else result
    case Release(id) => ReleaseOutcome(t, id)
    case CloseSession => CloseOutcome(t)
  }

  /** At most 1000 documents with ids and readers all different; no open reader is lost. */
  ghost predicate Sound(t: Table) {
    && |t.slots| <= MAX_DOCUMENTS
    && (forall k :: 0 <= k < |t.slots| ==> t.slots[k].maker < |t.raises|)
    && (forall i, j :: 0 <= i < j < |t.slots| ==>
        t.slots[i].id != t.slots[j].id && t.slots[i].maker != t.slots[j].maker)
    && (forall k :: 0 <= k < |t.slots| ==> t.slots[k].maker !in t.lost)
    && forall m :: m in t.lost ==> m < |t.raises|
  }

  lemma {:induction false} InMakers(slots: seq<Slot>, from: nat, m: nat)
    requires from <= |slots|
    ensures m in MakersFrom(slots, from) <==> exists k :: from <= k < |slots| && slots[k].maker == m
    decreases |slots| - from
  {
    if from < |slots| {
      InMakers(slots, from + 1, m);
    }
  }

  lemma {:induction false} MakersAppend(slots: seq<Slot>, s: Slot, from: nat)
    requires from <= |slots|
    ensures MakersFrom(slots + [s], from) == MakersFrom(slots, from) + {s.maker}
    decreases |slots| - from
  {
    if from < |slots| {
      MakersAppend(slots, s, from + 1);
    } else {
      assert MakersFrom(slots + [s], from + 1) == {};
    }
  }

  lemma {:induction false} MakersBehind(slots: seq<Slot>, k: nat, from: nat)
    requires k <= from < |slots|
    ensures MakersFrom(Without(slots, k), from) == MakersFrom(slots, from + 1)
    decreases |slots| - from
  {
    if from + 1 < |slots| {
      MakersBehind(slots, k, from + 1);
    }
  }

  lemma {:induction false} MakersWithout(slots: seq<Slot>, k: nat, from: nat)
    requires from <= k < |slots|
    requires forall i, j :: 0 <= i < j < |slots| ==> slots[i].maker != slots[j].maker
    ensures MakersFrom(Without(slots, k), from) == MakersFrom(slots, from) - {slots[k].maker}
    decreases k - from
  {
    if from < k {
      MakersWithout(slots, k, from + 1);
    } else {
      MakersBehind(slots, k, k);
      InMakers(slots, k + 1, slots[k].maker);
    }
  }

  /** The readers that were never closed: the open ones and the lost ones. */
  function Unclosed(t: Table): set<nat> {
    Behind(t, 0)
  }

  lemma {:induction false} MoreIsSound(t: Table, id: string, closeRaises: bool, entered: bool)
    requires Sound(t) && HasRoom(t, id)
    ensures Sound(WithReader(t, id, closeRaises, entered))
    ensures Unclosed(WithReader(t, id, closeRaises, entered)) == Unclosed(t) + {|t.raises|}
    ensures |t.raises| !in Unclosed(t)
  {
    MakersAppend(t.slots, Slot(id, |t.raises|), 0);
    InMakers(t.slots, 0, |t.raises|);
  }

  /** Taking out a document leaves a sound table with just its reader no longer unclosed. */
  lemma {:induction false} WithoutIsSound(t: Table, k: nat)
    requires Sound(t) && k < |t.slots|
    ensures Sound(t.(slots := Without(t.slots, k)))
    ensures t.slots[k].maker in Unclosed(t)
    ensures Unclosed(t.(slots := Without(t.slots, k))) == Unclosed(t) - {t.slots[k].maker}
  {
    MakersWithout(t.slots, k, 0);
    InMakers(t.slots, 0, t.slots[k].maker);
    StaysDistinct(t, k);
  }

  lemma {:induction false} StaysDistinct(t: Table, k: nat)
    requires Sound(t) && k < |t.slots|
    ensures Sound(t.(slots := Without(t.slots, k)))
  {
    var rest := Without(t.slots, k);
    assert forall j :: 0 <= j < |rest| ==> rest[j] == t.slots[if j < k then j else j + 1];
  }

  lemma {:induction false} NextCloses(t: Table, i: nat)
    requires Sound(t) && i < |t.slots|
    ensures t.slots[i].maker in Behind(t, i) && Behind(t, i) - {t.slots[i].maker} == Behind(t, i + 1)
  {
    InMakers(t.slots, i + 1, t.slots[i].maker);
  }

  lemma {:induction false} ClosedIsSound(t: Table)
    requires Sound(t)
    ensures Sound(AfterClose(t)) && Unclosed(AfterClose(t)) == AfterClose(t).lost
  {
    var from := Min(FirstRaising(t, 0) + 1, |t.slots|);
    forall m | m in MakersFrom(t.slots, from) ensures m < |t.raises| {
      InMakers(t.slots, from, m);
    }
  }

  /** Every request keeps a sound table sound. */
  lemma {:induction false} StaysSound(t: Table, request: Request)
    requires Sound(t)
    ensures Sound(After(t, request))
  {
    match request
    case Open(id, artifact) => StaysSoundOpen(t, id, artifact);
    case OpenText(id, text) => StaysSoundOpenText(t, id, text);
    case Release(id) =>
      var k := FindSlot(t.slots, id);
      if k.Some? {
        WithoutIsSound(t, k.value);
      }
    case CloseSession => ClosedIsSound(t);
    case _ =>
  }

  lemma {:induction false} StaysSoundOpen(t: Table, id: string, artifact: Factory)
    requires Sound(t)
    ensures Sound(AfterOpen(t, id, artifact))
  {
    if HasRoom(t, id) && artifact.Made? {
      MoreIsSound(t, id, artifact.closeRaises, true);
    }
  }

  lemma {:induction false} StaysSoundOpenText(t: Table, id: string, text: TextFactory)
    requires Sound(t)
    ensures Sound(AfterOpenText(t, id, text))
  {
    if HasRoom(t, id) && text.Stored? && text.reader.Made? {
      MoreIsSound(t, id, text.reader.closeRaises, text.temporaryDropped);
    }
  }

  // ----- What a request does, told without the functions above -----

  ghost predicate IsOpen(t: Table, id: string) {
    exists k :: 0 <= k < |t.slots| && t.slots[k].id == id
  }

  /** An id that is not open, and fewer than 1000 documents. */
  ghost predicate MayOpen(t: Table, id: string) {
    !IsOpen(t, id) && |t.slots| < 1000
  }

  /** The reader was made, and entered last under the id. */
  ghost predicate Enters(t: Table, id: string, closeRaises: bool, after: Table) {
    && |after.slots| == |t.slots| + 1 && after.slots[..|t.slots|] == t.slots
    && after.slots[|t.slots|] == Slot(id, |t.raises|)
    && after.raises == t.raises + [closeRaises] && after.lost == t.lost
  }

  /** The reader was made, and nothing refers to it. */
  ghost predicate Drops(t: Table, closeRaises: bool, after: Table) {
    after.slots == t.slots && after.raises == t.raises + [closeRaises] && after.lost == t.lost + {|t.raises|}
  }

  ghost predicate OpenStep(t: Table, id: string, artifact: Factory, after: Table, o: Outcome) {
    && (o.Done? <==> MayOpen(t, id) && artifact.Made?)
    && (o.Failed? <==> MayOpen(t, id) && artifact.Crashed?)
    && if o.Done? then Enters(t, id, artifact.closeRaises, after) else after == t
  }

  ghost predicate OpenTextStep(t: Table, id: string, text: TextFactory, after: Table, o: Outcome) {
    var made := MayOpen(t, id) && text.Stored? && text.reader.Made?;
    && (o.Done? <==> made && text.temporaryDropped)
    && (o.Failed? <==>
        MayOpen(t, id) && (text.TextCrashed? || (text.Stored? && text.reader.Crashed? && text.temporaryDropped)))
    && if o.Done? then Enters(t, id, text.reader.closeRaises, after)
       else if made then Drops(t, text.reader.closeRaises, after)
       else after == t
  }

  /** The document is gone, the others stay in order; the outcome tells whether closing its reader raised. */
  ghost predicate ReleaseStep(t: Table, id: string, after: Table, o: Outcome) {
    && (!IsOpen(t, id) ==> after == t && o.Done?)
    && forall k :: 0 <= k < |t.slots| && t.slots[k].id == id ==>
      && after.slots == t.slots[..k] + t.slots[k + 1..] && after.raises == t.raises && after.lost == t.lost
      && o == if Raises(t, k) then Failed else Done
  }

  /** A document before this one has a reader whose closing raises. */
  ghost predicate RaisesBefore(t: Table, k: nat)
    requires k <= |t.slots|
  {
    exists j :: 0 <= j < k && Raises(t, j)
  }

  ghost predicate CloseStep(t: Table, after: Table, o: Outcome) {
    && after.slots == [] && after.raises == t.raises && !o.Invalid?
    && (o.Failed? <==> RaisesBefore(t, |t.slots|))
    && forall m :: m in after.lost <==>
      m in t.lost || exists k :: 0 <= k < |t.slots| && t.slots[k].maker == m && RaisesBefore(t, k)
  }

  ghost predicate Step(t: Table, request: Request, after: Table, o: Outcome) {
    match request
    case Extract(result) => after == t && o == result
    case Open(id, artifact) => OpenStep(t, id, artifact, after, o)
    case OpenText(id, text) => OpenTextStep(t, id, text, after, o)
    case Query(id, result) => after == t && o == if IsOpen(t, id) then result else Invalid
    case Release(id) => ReleaseStep(t, id, after, o)
    case CloseSession => CloseStep(t, after, o)
  }

  lemma {:induction false} FindsOpen(t: Table, id: string)
    ensures FindSlot(t.slots, id).Some? <==> IsOpen(t, id)
    ensures HasRoom(t, id) <==> MayOpen(t, id)
  {
  }

  lemma {:induction false} ReleaseSteps(t: Table, id: string)
    requires Sound(t)
    ensures ReleaseStep(t, id, AfterRelease(t, id), ReleaseOutcome(t, id))
  {
    FindsOpen(t, id);
    forall k | 0 <= k < |t.slots| && t.slots[k].id == id ensures FindSlot(t.slots, id) == Some(k) {
      FindsOnly(t, k);
    }
  }

  lemma {:induction false} FindsOnly(t: Table, k: nat)
    requires Sound(t) && k < |t.slots|
    ensures FindSlot(t.slots, t.slots[k].id) == Some(k)
  {
  }

  lemma {:induction false} RaisesBeforeIff(t: Table, k: nat)
    requires k <= |t.slots|
    ensures RaisesBefore(t, k) <==> FirstRaising(t, 0) < k
  {
  }

  lemma {:induction false} CloseSteps(t: Table)
    ensures CloseStep(t, AfterClose(t), CloseOutcome(t))
  {
    var from := Min(FirstRaising(t, 0) + 1, |t.slots|);
    RaisesBeforeIff(t, |t.slots|);
    forall m
      ensures m in AfterClose(t).lost <==>
        m in t.lost || exists k :: 0 <= k < |t.slots| && t.slots[k].maker == m && RaisesBefore(t, k)
    {
      InMakers(t.slots, from, m);
      forall k | 0 <= k < |t.slots| ensures RaisesBefore(t, k) <==> from <= k {
        RaisesBeforeIff(t, k);
      }
    }
  }

  /** Every request takes the table, and ends, as told. */
  lemma {:induction false} TakesStep(t: Table, request: Request)
    requires Sound(t)
    ensures Step(t, request, After(t, request), OutcomeOf(t, request))
  {
    match request
    case Open(id, _) => FindsOpen(t, id);
    case OpenText(id, _) => FindsOpen(t, id);
    case Query(id, _) => FindsOpen(t, id);
    case Release(id) => ReleaseSteps(t, id);
    case CloseSession => CloseSteps(t);
    case _ =>
  }

  /** What was released can be opened again, and is the last document then. */
  lemma {:induction false} ReleasedOpensAgain(t: Table, id: string, closeRaises: bool)
    requires Sound(t) && IsOpen(t, id)
    ensures
      var released := After(t, Release(id));
      && !IsOpen(released, id)
      && OutcomeOf(released, Open(id, Made(closeRaises))) == Done
      && IsOpen(After(released, Open(id, Made(closeRaises))), id)
  {
    var released := After(t, Release(id));
    TakesStep(t, Release(id));
    StaysSound(t, Release(id));
    OneFewer(t, id, released);
    TakesStep(released, Open(id, Made(closeRaises)));
    var reopened := After(released, Open(id, Made(closeRaises)));
    assert reopened.slots[|released.slots|].id == id;
  }

  lemma {:induction false} OneFewer(t: Table, id: string, released: Table)
    requires Sound(t) && IsOpen(t, id) && ReleaseStep(t, id, released, ReleaseOutcome(t, id))
    ensures MayOpen(released, id)
  {
    var k :| 0 <= k < |t.slots| && t.slots[k].id == id;
    GoneWithout(t.slots, k, released.slots);
  }

  lemma {:induction false} GoneWithout(slots: seq<Slot>, k: nat, rest: seq<Slot>)
    requires k < |slots| && rest == slots[..k] + slots[k + 1..]
    requires forall i, j :: 0 <= i < j < |slots| ==> slots[i].id != slots[j].id
    ensures |rest| == |slots| - 1 && forall j :: 0 <= j < |rest| ==> rest[j].id != slots[k].id
  {
    forall j | 0 <= j < |rest| ensures rest[j].id != slots[k].id {
      assert rest[j] == slots[if j < k then j else j + 1];
    }
  }

  // ----- The session -----

  datatype Entry = Entry(id: string, reader: Reader)

  /** The entry of an id in the dictionary, if there is one. */
  function Find(es: seq<Entry>, id: string): (r: Option<nat>)
    ensures r.Some? ==> r.value < |es| && es[r.value].id == id
    ensures r.None? ==> forall i :: 0 <= i < |es| ==> es[i].id != id
  {
    if es == [] then None
    else if es[|es| - 1].id == id then Some(|es| - 1)
    else Find(es[..|es| - 1], id)
  }

  ghost predicate Distinct(rs: seq<Reader>) {
    forall i, j :: 0 <= i < j < |rs| ==> rs[i] != rs[j]
  }

  /** The entries are those of the table, and the readers are made as the table says. */
  ghost predicate Matches(es: seq<Entry>, made: seq<Reader>, t: Table) {
    && |made| == |t.raises| && |es| == |t.slots|
    && (forall m :: 0 <= m < |made| ==> made[m].raises == t.raises[m])
    && forall k :: 0 <= k < |es| ==> t.slots[k].maker < |made| && es[k] == Entry(t.slots[k].id, made[t.slots[k].maker])
  }

  /** Every reader was closed once, but for those that never were. */
  ghost predicate Counted(made: seq<Reader>, unclosed: set<nat>)
    reads made
  {
    forall m :: 0 <= m < |made| ==> made[m].closings == if m in unclosed then 0 else 1
  }

  method CloseReader(reader: Reader, ghost made: seq<Reader>, ghost m: nat, ghost unclosed: set<nat>)
    returns (raised: bool)
    requires Distinct(made) && Counted(made, unclosed) && m < |made| && made[m] == reader && m in unclosed
    modifies reader
    ensures Counted(made, unclosed - {m}) && raised == reader.raises
  {
    raised := reader.Close();
  }

  lemma {:induction false} MatchesMore(es: seq<Entry>, made: seq<Reader>, t: Table, id: string, reader: Reader,
      entered: bool)
    requires Matches(es, made, t)
    ensures
      var more := if entered then es + [Entry(id, reader)] else es;
      Matches(more, made + [reader], WithReader(t, id, reader.raises, entered))
  {
  }

  lemma {:induction false} MatchesWithout(es: seq<Entry>, made: seq<Reader>, t: Table, k: nat)
    requires Matches(es, made, t) && k < |es|
    ensures Matches(Without(es, k), made, t.(slots := Without(t.slots, k)))
  {
  }

  lemma {:induction false} CountedMore(made: seq<Reader>, unclosed: set<nat>, reader: Reader)
    requires Counted(made, unclosed) && Distinct(made) && reader !in made && reader.closings == 0
    ensures Counted(made + [reader], unclosed + {|made|}) && Distinct(made + [reader])
  {
  }

  /** A dictionary finds an id where the table does. */
  lemma {:induction false} FindIsFindSlot(es: seq<Entry>, made: seq<Reader>, t: Table, id: string)
    requires Matches(es, made, t) && Sound(t)
    ensures Find(es, id) == FindSlot(t.slots, id)
  {
  }

  /** The closings of the dictionary's readers in order, until one raises and ends the loop. */
  method CloseReaders(es: seq<Entry>, ghost made: seq<Reader>, ghost t: Table) returns (raised: bool)
    requires Sound(t) && Distinct(made) && Matches(es, made, t) && Counted(made, Unclosed(t))
    modifies made
    ensures Counted(made, AfterClose(t).lost) && raised == CloseOutcome(t).Failed?
  {
    raised := false;
    var i := 0;
    while i < |es| && !raised
      invariant 0 <= i <= |es| && Counted(made, Behind(t, i))
      invariant if raised then i > 0 && FirstRaising(t, 0) == i - 1 else FirstRaising(t, 0) == FirstRaising(t, i)
    {
      NextCloses(t, i);
      raised := CloseReader(es[i].reader, made, t.slots[i].maker, Behind(t, i));
      i := i + 1;
    }
  }

  /** The id is free, and fewer than 1000 documents are open. */
  ghost predicate MayEnter(es: seq<Entry>, id: string) {
    (forall k :: 0 <= k < |es| ==> es[k].id != id) && |es| < 1000
  }

  /** Closing one of the first `k` readers raises. */
  ghost predicate SomeRaises(es: seq<Entry>, k: nat)
    requires k <= |es|
  {
    exists j :: 0 <= j < k && es[j].reader.raises
  }

  lemma {:induction false} EntersWhereTableDoes(es: seq<Entry>, made: seq<Reader>, t: Table, id: string)
    requires Matches(es, made, t)
    ensures MayEnter(es, id) <==> HasRoom(t, id)
  {
    FindsOpen(t, id);
    if MayEnter(es, id) {
      assert forall k :: 0 <= k < |t.slots| ==> es[k].id == t.slots[k].id;
    }
  }

  lemma {:induction false} RaisesWhereTableDoes(es: seq<Entry>, made: seq<Reader>, t: Table, k: nat)
    requires Matches(es, made, t) && k <= |es|
    ensures SomeRaises(es, k) <==> RaisesBefore(t, k)
  {
    assert forall j :: 0 <= j < k ==> (es[j].reader.raises <==> Raises(t, j));
  }

  /** The entry of the id is gone and the others are in order; the outcome is that of closing its reader. */
  ghost predicate IsReleased(es: seq<Entry>, id: string, after: seq<Entry>, o: Outcome) {
    && (forall i :: 0 <= i < |after| ==> after[i].id != id)
    && ((forall k :: 0 <= k < |es| ==> es[k].id != id) ==> after == es && o.Done?)
    && forall k :: 0 <= k < |es| && es[k].id == id ==>
      after == es[..k] + es[k + 1..] && o == if es[k].reader.raises then Failed else Done
  }

  /** No other entry has the id of this one, so releasing it is taking this one out. */
  lemma {:induction false} OnlyEntry(es: seq<Entry>, made: seq<Reader>, t: Table, k: nat)
    requires Matches(es, made, t) && Sound(t) && k < |es|
    ensures forall reader :: Entry(es[k].id, reader) in es <==> reader == es[k].reader
    ensures IsReleased(es, es[k].id, Without(es, k), if es[k].reader.raises then Failed else Done)
  {
    forall j | 0 <= j < |es| && es[j].id == es[k].id ensures j == k {
    }
    forall j | 0 <= j < |Without(es, k)| ensures Without(es, k)[j].id != es[k].id {
      assert Without(es, k)[j] == es[if j < k then j else j + 1];
    }
    assert es[k] == Entry(es[k].id, es[k].reader);
  }

  /** After the closings the reader of a document is among the lost ones exactly when one before it raises. */
  lemma {:induction false} LostBehindRaising(t: Table, k: nat)
    requires Sound(t) && k < |t.slots|
    ensures t.slots[k].maker in AfterClose(t).lost <==> RaisesBefore(t, k)
  {
    CloseSteps(t);
  }

  /** A reader without a document is lost after the closings exactly when it was. */
  lemma {:induction false} OthersStayLost(t: Table, m: nat)
    requires m !in MakersFrom(t.slots, 0)
    ensures m in AfterClose(t).lost <==> m in Unclosed(t)
  {
    CloseSteps(t);
    InMakers(t.slots, 0, m);
  }

  /** What a closing loses, told of the entries. */
  lemma {:induction false} ClosingsTold(es: seq<Entry>, made: seq<Reader>, t: Table)
    requires Matches(es, made, t) && Sound(t)
    ensures CloseOutcome(t).Failed? <==> SomeRaises(es, |es|)
    ensures LostTold(es, t)
    ensures forall m :: 0 <= m < |made| && m !in MakersFrom(t.slots, 0) ==>
      (m in AfterClose(t).lost <==> m in Unclosed(t))
  {
    CloseSteps(t);
    RaisesWhereTableDoes(es, made, t, |es|);
    forall k | 0 <= k < |es| ensures t.slots[k].maker in AfterClose(t).lost <==> SomeRaises(es, k) {
      LostBehindRaising(t, k);
      RaisesWhereTableDoes(es, made, t, k);
    }
    forall m | 0 <= m < |made| && m !in MakersFrom(t.slots, 0)
      ensures m in AfterClose(t).lost <==> m in Unclosed(t)
    {
      OthersStayLost(t, m);
    }
  }

  ghost predicate LostTold(es: seq<Entry>, t: Table) {
    |es| == |t.slots|
    && forall k :: 0 <= k < |es| ==> (t.slots[k].maker in AfterClose(t).lost <==> SomeRaises(es, k))
  }

  /** The readers of the entries are closed once up to the first that raises, and those behind it not at all. */
  ghost predicate ClosedUpToRaising(es: seq<Entry>)
    reads set e | e in es :: e.reader
  {
    forall k :: 0 <= k < |es| ==> es[k].reader.closings == if SomeRaises(es, k) then 0 else 1
  }

  lemma {:induction false} ClosedAre(es: seq<Entry>, made: seq<Reader>, t: Table)
    requires Matches(es, made, t) && LostTold(es, t) && Counted(made, AfterClose(t).lost)
    ensures ClosedUpToRaising(es)
  {
    forall k | 0 <= k < |es| ensures es[k].reader.closings == if SomeRaises(es, k) then 0 else 1 {
      assert made[t.slots[k].maker] == es[k].reader;
    }
  }

  class Session {
    /** The insertion-ordered dictionary of open readers. */
    var readers: seq<Entry>
    /** Every reader made so far, in order, and the reference table. */
    ghost var made: seq<Reader>
    ghost var table: Table

    /** The dictionary is the reference table, and a reader was closed once unless it is open or lost. */
    ghost predicate Valid()
      reads this, made
    {
      Sound(table) && Distinct(made) && Matches(readers, made, table) && Counted(made, Unclosed(table))
    }

    constructor ()
      ensures Valid() && readers == [] && made == [] && table == EMPTY_TABLE
    {
      readers, made, table := [], [], EMPTY_TABLE;
    }

    /** `_require_open_capacity`. */
    method RequireCapacity(id: string) returns (ok: bool)
      requires Valid()
      ensures ok == HasRoom(table, id) == MayEnter(readers, id)
    {
      EntersWhereTableDoes(readers, made, table, id);
      FindIsFindSlot(readers, made, table, id);
      ok := Find(readers, id).None? && |readers| < MAX_DOCUMENTS;
    }

    /** A new reader is entered in the dictionary, or lost. */
    method Record(id: string, reader: Reader, entered: bool)
      requires Valid() && HasRoom(table, id) && reader !in made && reader.closings == 0
      modifies this
      ensures Valid() && made == old(made) + [reader]
      ensures readers == if entered then old(readers) + [Entry(id, reader)] else old(readers)
      ensures table == WithReader(old(table), id, reader.raises, entered)
    {
      MatchesMore(readers, made, table, id, reader, entered);
      MoreIsSound(table, id, reader.raises, entered);
      CountedMore(made, Unclosed(table), reader);
      if entered {
        readers := readers + [Entry(id, reader)];
      }
      made := made + [reader];
      table := WithReader(table, id, reader.raises, entered);
    }

    /** `_open`. */
    method OpenDocument(id: string, artifact: Factory) returns (o: Outcome)
      requires Valid()
      modifies this
      ensures Valid() && old(made) <= made && forall i :: |old(made)| <= i < |made| ==> fresh(made[i])
      ensures table == AfterOpen(old(table), id, artifact) && o == OpenOutcome(old(table), id, artifact)
      ensures o.Done? <==> MayEnter(old(readers), id) && artifact.Made?
      ensures o.Failed? <==> MayEnter(old(readers), id) && artifact.Crashed?
      ensures o.Done? ==>
        && |made| == |old(made)| + 1 && readers == old(readers) + [Entry(id, made[|old(made)|])]
        && made[|old(made)|].raises == artifact.closeRaises && made[|old(made)|].closings == 0
      ensures !o.Done? ==> readers == old(readers) && made == old(made)
    {
      var room := RequireCapacity(id);
      if !room {
        return Invalid;
      }
      match artifact {
        case Rejected => return Invalid;
        case Crashed => return Failed;
        case Made(closeRaises) =>
          var reader := new Reader(closeRaises);
          Record(id, reader, true);
          return Done;
      }
    }

    /** `_open_text`. A reader is lost when the temporary file cannot be dropped after it was made. */
    method OpenTextDocument(id: string, text: TextFactory) returns (o: Outcome)
      requires Valid()
      modifies this
      ensures Valid() && old(made) <= made && forall i :: |old(made)| <= i < |made| ==> fresh(made[i])
      ensures table == AfterOpenText(old(table), id, text) && o == OpenTextOutcome(old(table), id, text)
      ensures
        var makes := MayEnter(old(readers), id) && text.Stored? && text.reader.Made?;
        && (o.Done? <==> makes && text.temporaryDropped)
        && (|made| == |old(made)| + if makes then 1 else 0)
        && (makes ==> made[|old(made)|].raises == text.reader.closeRaises && made[|old(made)|].closings == 0)
      ensures o.Failed? <==>
        && MayEnter(old(readers), id)
        && (text.TextCrashed? || (text.Stored? && text.reader.Crashed? && text.temporaryDropped))
      ensures readers == if o.Done? then old(readers) + [Entry(id, made[|old(made)|])] else old(readers)
    {
      var room := RequireCapacity(id);
      if !room {
        return Invalid;
      }
      match text {
        case TextRejected => return Invalid;
        case TextCrashed => return Failed;
        case Stored(Rejected, _) => return Invalid;
        case Stored(Crashed, temporaryDropped) => return if temporaryDropped then Failed else Invalid;
        case Stored(Made(closeRaises), temporaryDropped) =>
          var reader := new Reader(closeRaises);
          Record(id, reader, temporaryDropped);
          return if temporaryDropped then Done else Invalid;
      }
    }

    /** `_release`: the entry of the id goes, and its reader is closed once; nothing else changes. */
    method ReleaseDocument(id: string) returns (o: Outcome)
      requires Valid()
      modifies this`readers, this`table, made
      ensures Valid() && made == old(made)
      ensures table == AfterRelease(old(table), id) && o == ReleaseOutcome(old(table), id)
      ensures IsReleased(old(readers), id, readers, o)
      ensures forall m :: 0 <= m < |made| ==>
        made[m].closings == old(made[m].closings) + if Entry(id, made[m]) in old(readers) then 1 else 0
    {
      FindIsFindSlot(readers, made, table, id);
      var k := Find(readers, id);
      if k.None? {
        return Done;
      }
      OnlyEntry(readers, made, table, k.value);
      o := ReleaseAt(k.value);
    }

    /** The entry at a place goes, and its reader is closed. */
    method ReleaseAt(k: nat) returns (o: Outcome)
      requires Valid() && k < |readers|
      modifies this`readers, this`table, made
      ensures Valid() && made == old(made) && readers == Without(old(readers), k)
      ensures table == old(table).(slots := Without(old(table).slots, k))
      ensures o == if old(readers)[k].reader.raises then Failed else Done
      ensures forall m :: 0 <= m < |made| ==>
        made[m].closings == old(made[m].closings) + if made[m] == old(readers)[k].reader then 1 else 0
    {
      WithoutIsSound(table, k);
      MatchesWithout(readers, made, table, k);
      ghost var maker := table.slots[k].maker;
      var raised := CloseReader(readers[k].reader, made, maker, Unclosed(table));
      readers := Without(readers, k);
      table := table.(slots := Without(table.slots, k));
      o := if raised then Failed else Done;
    }

    /** `close`. */
    method Close() returns (raised: bool)
      requires Valid()
      modifies this`readers, this`table, made
      ensures Valid() && made == old(made)
      ensures table == AfterClose(old(table)) && raised == CloseOutcome(old(table)).Failed?
      ensures readers == [] && raised == SomeRaises(old(readers), |old(readers)|)
      ensures ClosedUpToRaising(old(readers))
      ensures forall m :: 0 <= m < |made| && m !in MakersFrom(old(table).slots, 0) ==>
        made[m].closings == old(made[m].closings)
    {
      ClosingsTold(readers, made, table);
      raised := CloseReaders(readers, made, table);
      ClosedAre(readers, made, table);
      ClosedIsSound(table);
      readers := [];
      table := AfterClose(table);
    }

    /** `execute`, for the requests of a session. */
    method Execute(request: Request) returns (o: Outcome)
      requires Valid() && !request.Extract?
      modifies this, made
      ensures Valid() && old(made) <= made && forall i :: |old(made)| <= i < |made| ==> fresh(made[i])
      ensures table == After(old(table), request) && o == OutcomeOf(old(table), request)
      ensures Step(old(table), request, table, o)
    {
      TakesStep(table, request);
      match request {
        case Open(id, artifact) => o := OpenDocument(id, artifact);
        case OpenText(id, text) => o := OpenTextDocument(id, text);
        case Query(id, result) =>
          FindIsFindSlot(readers, made, table, id);
          o := if Find(readers, id).None? then Invalid else result;
        case Release(id) => o := ReleaseDocument(id);
        case CloseSession =>
          var raised := Close();
          o := if raised then Failed else Done;
      }
    }
  }

  // ----- When nothing is lost -----

  /** The reader of a text document is made and then dropped with its temporary file. */
  predicate DropsReader(text: TextFactory) {
    text.Stored? && text.reader.Made? && !text.temporaryDropped
  }

  /** No reader whose closing raises has another behind it. */
  predicate RaisesLast(t: Table)
  {
    forall k :: 0 <= k < |t.slots| - 1 ==> !Raises(t, k)
  }

  /** The request drops no reader unclosed. */
  predicate Careful(t: Table, request: Request)
  {
    && (request.OpenText? && HasRoom(t, request.id) ==> !DropsReader(request.text))
    && (request.CloseSession? ==> RaisesLast(t))
  }

  /** A closing loses nothing exactly when no raising reader has another behind it. */
  lemma {:induction false} CloseLosesNoneIff(t: Table)
    requires Sound(t)
    ensures AfterClose(t).lost == t.lost <==> RaisesLast(t)
  {
    var k := FirstRaising(t, 0);
    var from := Min(k + 1, |t.slots|);
    if from < |t.slots| {
      InMakers(t.slots, from, t.slots[from].maker);
      assert t.slots[from].maker in AfterClose(t).lost;
    }
  }

  /** A request loses nothing exactly when it is careful. */
  lemma {:induction false} LosesNoneIff(t: Table, request: Request)
    requires Sound(t)
    ensures t.lost <= After(t, request).lost
    ensures After(t, request).lost == t.lost <==> Careful(t, request)
  {
    if request.CloseSession? {
      CloseLosesNoneIff(t);
    } else if request.OpenText? && HasRoom(t, request.id) && DropsReader(request.text) {
      assert |t.raises| in After(t, request).lost;
    }
  }
}

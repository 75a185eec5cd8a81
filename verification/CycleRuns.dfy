/** Cycle after cycle of the sync itself, over one Seos pass: a read of its cardholder, the phases, the
    flush, the import as Millennium applies it, and the next read. */
module CycleRuns {
  import opened Base
  import opened Export
  import opened Pacs
  import opened Ledger
  import opened SeosStatus
  import opened CardChanges
  import opened Flush
  import opened AgCards
  import opened Snapshot
  import opened Tracking
  import opened Passes
  import opened Decisions
  import opened Asks
  import opened Traces
  import opened ControlLoop
  import opened PassCalls
  import opened PassLedger
  import opened WholeCycle
  import opened LoopRefinement
  import Reading
  import Stability = ReadingStability

  /** What a cycle starts from: the ledger, the export, AccessGrid's cards of the pass, and the table. */
  datatype World = World(ledger: Ledger.Table, holders: Holders, cards: seq<AgCard>, rows: Rows, lookup: Lookup)

  /** One cycle: how it read the cardholder, what it saw, what its phases did, how its flush was answered. */
  datatype Turn = Turn(
    reader: Reading.Reader, read: Reading.Reading, v: View, cfg: Config, complete: bool, t: Trace,
    agreed: map<Key, set<Card>>, log: Option<ImportLog>)

  predicate Stands(w: World, k: Key) {
    k.person in w.holders && k in w.rows && w.cards != []
  }

  function StateOf(w: World, k: Key): State
    requires Stands(w, k)
  {
    State(Entries(w.ledger, k), Present(w.holders[k.person].slots), w.cards, w.rows[k], w.lookup)
  }

  /** The cardholder's one pass is read off the export, and the snapshot shows what was read. */
  ghost predicate Sees(w: World, k: Key, u: Turn)
    requires Stands(w, k)
  {
    && u.reader.slots == w.holders[k.person].slots && u.reader.seos
    && u.read == Stability.ReadNow(u.reader, map[k.credential := Entries(w.ledger, k)])
    && u.v.now == u.reader.now && k.person in u.v.people && u.v.people[k.person].active
    && k.person in u.v.creds && u.v.creds[k.person] == u.read.credentials
    && AgState(u.v, w.rows[k], k, w.rows[k].syncRef) == ControlLoop.Listed(StateOf(w, k))
    && AgState(u.v, w.rows[k], k, "") == (if w.lookup == Same then ControlLoop.Listed(StateOf(w, k)) else w.lookup.state)
  }

  /** The ledger once the cardholder is read, and once the phases have told the PACS what they tell it. */
  function ReadLedger(w: World, k: Key, u: Turn): Ledger.Table {
    if k.credential in u.read.book then w.ledger[k := u.read.book[k.credential]] else w.ledger - {k}
  }

  function ToldLedger(w: World, k: Key, u: Turn): Ledger.Table {
    LedgerAfterAll(ReadLedger(w, k, u), w.holders, u.reader.pair, TellsIn(u.t))
  }

  /** The export once the import is applied: the boxes sent are set, and nothing else. */
  function AppliedSlots(entries: seq<Entry>, slots: seq<Slot>): (r: seq<Slot>)
    ensures |r| == |slots| && forall i | 0 <= i < |r| :: r[i] == AppliedSlot(entries, slots[i])
  {
    seq(|slots|, i requires 0 <= i < |slots| => AppliedSlot(entries, slots[i]))
  }

  function AppliedSlot(entries: seq<Entry>, s: Slot): Slot {
    if SentFor(entries, s.card).Some? then s.(active := SentFor(entries, s.card).value) else s
  }

  /** Its cards all in force at this instant. */
  predicate InForce(st: State, now: int) {
    !Expired(Cred(st, now), now) && forall e <- st.entries :: !StartsLater(st.live, e, now)
  }

  /** One whole turn, its calls answered and its import confirmed. */
  ghost predicate Turns(k: Key, w: World, u: Turn, after: World) {
    && Stands(w, k) && Stands(after, k) && Sees(w, k, u) && InForce(StateOf(w, k), u.v.now)
    && IsTrace(u.v, u.cfg, u.complete, w.rows, u.t) && ComesToAll(u.v, u.cfg, u.t) && after.rows == u.t.rows6
    && !u.cfg.dryRun && u.cfg.supportsWriteback && u.cfg.supportsStatus
    && (k in u.t.statuses.answers ==> u.t.statuses.answers[k] == Done)
    && Answers(CallOf(StateOf(w, k), u.v.now), w.cards, after.cards) && CardsOf(u.v.index, u.t.detail, k, w.rows[k]) == after.cards
    && (CallOf(StateOf(w, k), u.v.now) == Nothing ==> after.lookup == w.lookup)
    && Confirms(k, Entries(ToldLedger(w, k, u), k), u.log)
    && after.ledger == AfterFlush(ToldLedger(w, k, u), w.holders, u.agreed, u.log)
    && after.holders[k.person].slots == AppliedSlots(Entries(ToldLedger(w, k, u), k), w.holders[k.person].slots)
  }

  /** The pass's cards are recorded where they are, and every trigger slot holds one of them. */
  predicate InPlace(w: World, k: Key, trigger: string)
    requires Stands(w, k)
  {
    var slots, es := w.holders[k.person].slots, Entries(w.ledger, k);
    DistinctSlots(slots) && WellKept(es) && Stability.Numbered(es) && PlacedIn(trigger, slots, es)
  }

  predicate PlacedIn(trigger: string, slots: seq<Slot>, es: seq<Entry>) {
    RecordedInPlace(Reading.Reader(trigger, true, false, slots, {}, {}, {}, 0), es)
  }

  lemma PlacedForAnyReader(r: Reading.Reader, es: seq<Entry>)
    requires PlacedIn(r.trigger, r.slots, es)
    ensures RecordedInPlace(r, es)
  {
  }

  // ---- one turn is a cycle of the loop ----

  lemma ReadsThePass(w: World, k: Key, u: Turn)
    requires Stands(w, k) && Sees(w, k, u) && InPlace(w, k, u.reader.trigger)
    ensures u.v.creds[k.person] == [Cred(StateOf(w, k), u.v.now).(id := k.credential)]
    ensures Entries(ReadLedger(w, k, u), k) == Entries(w.ledger, k)
  {
    hide SeosCredential, Present, Stability.ReadNow, WellKept, RecordedInPlace, DistinctSlots, AgState;
    PlacedForAnyReader(u.reader, Entries(w.ledger, k));
    RestIsReadAsItIs(u.reader, k.credential, Entries(w.ledger, k));
    NamedAs(Entries(w.ledger, k), Present(w.holders[k.person].slots), u.v.now, k.credential);
  }

  lemma NamedAs(entries: seq<Entry>, live: map<Card, Slot>, now: int, id: string)
    ensures SeosCredential("card", entries, live, now).(id := id) == SeosCredential(id, entries, live, now)
  {
  }

  lemma SeesShows(w: World, k: Key, u: Turn)
    requires Stands(w, k) && Sees(w, k, u) && InPlace(w, k, u.reader.trigger)
    ensures Shows(u.v, k, StateOf(w, k), u.v.now)
  {
    ReadsThePass(w, k, u);
    hide Cred, Present, Stability.ReadNow, InPlace, AgState;
    assert CredOf(u.v, k) == Some(Cred(StateOf(w, k), u.v.now).(id := k.credential));
  }

  lemma TurnIsCycled(k: Key, w: World, u: Turn, after: World)
    requires Turns(k, w, u, after) && InPlace(w, k, u.reader.trigger) && AtRest(StateOf(w, k), u.v.now)
    ensures Cycled(u.v, u.cfg, u.complete, w.rows, u.t, k, StateOf(w, k), u.v.now, after.cards)
  {
    hide AtRest, Cred, Present, InPlace, AgState, IsTrace, ComesToAll, Answers, CardsOf, Confirms, AfterFlush, ToldLedger, InForce, CallOf, Sees,
         Shows, AppliedSlots;
    SeesShows(w, k, u);
  }

  lemma {:induction false} AppliedIs(entries: seq<Entry>, slots: seq<Slot>)
    ensures Present(AppliedSlots(entries, slots)) == Applied(entries, Present(slots))
  {
    if slots == [] {
      assert Present(AppliedSlots(entries, slots)) == map[];
    } else {
      hide Present, Applied, AppliedSlots;
      assert slots == slots[..|slots| - 1] + [slots[|slots| - 1]];
      AppliedIs(entries, slots[..|slots| - 1]);
      AppliedFurther(entries, slots[..|slots| - 1], slots[|slots| - 1]);
    }
  }

  lemma AppliedFurther(entries: seq<Entry>, front: seq<Slot>, last: Slot)
    requires Present(AppliedSlots(entries, front)) == Applied(entries, Present(front))
    ensures Present(AppliedSlots(entries, front + [last])) == Applied(entries, Present(front + [last]))
  {
    hide AppliedSlot, Present, Applied;
    assert AppliedSlots(entries, front + [last]) == AppliedSlots(entries, front) + [AppliedSlot(entries, last)];
    PresentStep(front, last);
    PresentStep(AppliedSlots(entries, front), AppliedSlot(entries, last));
    AppliedStep(entries, Present(front), last);
  }

  lemma PresentStep(front: seq<Slot>, last: Slot)
    ensures Present(front + [last]) == if last.Empty() then Present(front) else Present(front)[last.card := last]
  {
    assert (front + [last])[..|front|] == front;
  }

  lemma AppliedStep(entries: seq<Entry>, live: map<Card, Slot>, last: Slot)
    ensures AppliedSlot(entries, last).card == last.card && AppliedSlot(entries, last).Empty() == last.Empty()
    ensures Applied(entries, live[last.card := last]) == Applied(entries, live)[last.card := AppliedSlot(entries, last)]
  {
    hide SentFor;
  }

  /** What a turn makes of the pass's entries and slots leaves every card where it is. */
  predicate SamePlaces(before: seq<Entry>, after: seq<Entry>) {
    && |after| == |before|
    && forall i | 0 <= i < |before| ::
         after[i].card == before[i].card && after[i].slot == before[i].slot && after[i].dormant == before[i].dormant && !Unwritten(after[i])
  }

  predicate SameSlots(before: seq<Slot>, after: seq<Slot>) {
    && |after| == |before|
    && forall i | 0 <= i < |before| ::
         after[i].card == before[i].card && after[i].index == before[i].index && after[i].format == before[i].format
  }

  lemma AppliedInPlace(sent: seq<Entry>, slots: seq<Slot>)
    ensures SameSlots(slots, AppliedSlots(sent, slots))
  {
    hide SentFor;
  }

  lemma SameTrigger(trigger: string, a: Slot, b: Slot)
    requires a.card == b.card && a.format == b.format
    ensures IsTriggerIn(trigger, a) <==> IsTriggerIn(trigger, b)
  {
  }

  lemma EntryInPlace(trigger: string, slots: seq<Slot>, now: seq<Slot>, es: seq<Entry>, after: seq<Entry>, i: nat)
    requires PlacedIn(trigger, slots, es) && SameSlots(slots, now) && SamePlaces(es, after) && i < |after|
    ensures !after[i].dormant && !Unwritten(after[i])
    ensures exists s <- now :: IsTriggerIn(trigger, s) && s.card == after[i].card && s.index == after[i].slot
  {
    assert es[i] in es;
    var s :| s in slots && IsTriggerIn(trigger, s) && s.card == es[i].card && s.index == es[i].slot;
    var j :| 0 <= j < |slots| && slots[j] == s;
    SameTrigger(trigger, slots[j], now[j]);
    assert now[j] in now;
  }

  lemma SlotInPlace(trigger: string, slots: seq<Slot>, now: seq<Slot>, es: seq<Entry>, after: seq<Entry>, j: nat)
    requires PlacedIn(trigger, slots, es) && SameSlots(slots, now) && SamePlaces(es, after) && j < |now|
    ensures IsTriggerIn(trigger, now[j]) ==> Reading.Holds(after, now[j].card)
  {
    if IsTriggerIn(trigger, now[j]) {
      SameTrigger(trigger, slots[j], now[j]);
      assert slots[j] in slots;
      var e :| e in es && e.card == now[j].card;
      var i :| 0 <= i < |es| && es[i] == e;
      assert after[i] in after;
    }
  }

  lemma StaysPlaced(trigger: string, slots: seq<Slot>, now: seq<Slot>, es: seq<Entry>, after: seq<Entry>)
    requires PlacedIn(trigger, slots, es) && SameSlots(slots, now) && SamePlaces(es, after)
    ensures PlacedIn(trigger, now, after)
  {
    hide SamePlaces, SameSlots;
    forall e | e in after
      ensures !e.dormant && !Unwritten(e)
      ensures exists s <- now :: IsTriggerIn(trigger, s) && s.card == e.card && s.index == e.slot
    {
      var i :| 0 <= i < |after| && after[i] == e;
      EntryInPlace(trigger, slots, now, es, after, i);
    }
    forall s | s in now && IsTriggerIn(trigger, s) ensures Reading.Holds(after, s.card) {
      var j :| 0 <= j < |now| && now[j] == s;
      SlotInPlace(trigger, slots, now, es, after, j);
    }
  }

  lemma StaysKept(slots: seq<Slot>, now: seq<Slot>, es: seq<Entry>, after: seq<Entry>)
    requires SameSlots(slots, now) && SamePlaces(es, after) && DistinctSlots(slots) && WellKept(es) && Stability.Numbered(es)
    ensures DistinctSlots(now) && WellKept(after) && Stability.Numbered(after)
  {
    forall e | e in after ensures e.card.number != "" {
      var i :| 0 <= i < |after| && after[i] == e;
      assert es[i] in es;
    }
  }

  predicate IsTriggerIn(trigger: string, s: Slot) {
    Reading.IsTrigger(Reading.Reader(trigger, true, false, [], {}, {}, {}, 0), s)
  }

  lemma CreditedInPlace(st: State, now: int, answer: seq<AgCard>)
    requires AtRest(st, now) && forall e <- st.entries :: !e.dormant
    ensures SamePlaces(st.entries, CreditEach(Gated(st.entries, st.live, Cred(st, now).status, answer), {}))
  {
    hide DesiredStatus, Cred, SwitchAllowed, WrittenBack, Tidy, Expired, StartsLater, Driven;
    var after := CreditEach(Gated(st.entries, st.live, Cred(st, now).status, answer), {});
    forall i | 0 <= i < |st.entries| ensures !Unwritten(after[i]) {
      assert st.entries[i] in st.entries;
    }
  }

  /** One turn of the sync is one cycle of the loop, and leaves the pass's cards in their places. */
  lemma TurnLeads(k: Key, w: World, u: Turn, after: World)
    requires Turns(k, w, u, after) && InPlace(w, k, u.reader.trigger) && AtRest(StateOf(w, k), u.v.now)
    ensures Leads(StateOf(w, k), u.v.now, StateOf(after, k)) && InPlace(after, k, u.reader.trigger)
    ensures CallsFor(k, AsksIn(u.t)) == AsksFor(StateOf(w, k), u.v.now, k)
    ensures Entries(ToldLedger(w, k, u), k) == Gated(StateOf(w, k).entries, StateOf(w, k).live, Cred(StateOf(w, k), u.v.now).status, after.cards)
  {
    hide IsTrace, ComesToAll, AtRest, Cred, InPlace, Answers, CardsOf, Cycled, CallsFor, AsksIn, AsksFor, AfterFlush, Gated, Confirms, CreditEach,
         Applied, Present, AppliedSlots, InForce, Sees, CallOf, LedgerAfterAll, ReadLedger, TellsIn, Driven;
    var st, now := StateOf(w, k), u.v.now;
    TurnIsCycled(k, w, u, after);
    CycleTakesCalls(u.v, u.cfg, u.complete, w.rows, u.t, k, st, now, after.cards);
    ReadsThePass(w, k, u);
    CycleGates(u.v, u.cfg, u.complete, w.rows, u.t, k, st, now, after.cards, ReadLedger(w, k, u), w.holders, u.reader.pair);
    CycleTakesLedger(u.v, u.cfg, u.complete, w.rows, u.t, k, st, now, after.cards, after.lookup, ReadLedger(w, k, u), w.holders, u.reader.pair,
                     u.agreed, u.log);
    CycleTakesRow(u.v, u.cfg, u.complete, w.rows, u.t, k, st, now, after.cards, after.lookup);
    CycleLeavesRow(u.v, u.cfg, u.complete, w.rows, u.t, k, st, now, after.cards);
    AppliedIs(Gated(st.entries, st.live, Cred(st, now).status, after.cards), w.holders[k.person].slots);
    TurnKeepsPlaces(k, w, u, after);
  }

  lemma TurnKeepsPlaces(k: Key, w: World, u: Turn, after: World)
    requires Stands(w, k) && Stands(after, k) && InPlace(w, k, u.reader.trigger) && AtRest(StateOf(w, k), u.v.now)
    requires var st := StateOf(w, k);
             var gated := Gated(st.entries, st.live, Cred(st, u.v.now).status, after.cards);
             Entries(after.ledger, k) == CreditEach(gated, {}) && after.holders[k.person].slots == AppliedSlots(gated, w.holders[k.person].slots)
    ensures InPlace(after, k, u.reader.trigger)
  {
    hide AtRest, Cred, Gated, CreditEach, Present, AppliedSlots, PlacedIn, DistinctSlots, WellKept, Stability.Numbered, SamePlaces, SameSlots;
    var st, slots, now := StateOf(w, k), w.holders[k.person].slots, after.holders[k.person].slots;
    var gated := Gated(st.entries, st.live, Cred(st, u.v.now).status, after.cards);
    NoneDormant(u.reader.trigger, slots, st.entries);
    CreditedInPlace(st, u.v.now, after.cards);
    AppliedInPlace(gated, slots);
    StaysPlaced(u.reader.trigger, slots, now, st.entries, Entries(after.ledger, k));
    StaysKept(slots, now, st.entries, Entries(after.ledger, k));
  }

  lemma NoneDormant(trigger: string, slots: seq<Slot>, es: seq<Entry>)
    requires PlacedIn(trigger, slots, es)
    ensures forall e <- es :: !e.dormant
  {
  }

  // ---- a run of them ----

  /** Turn after turn, under one trigger format. */
  ghost predicate IsRunOf(k: Key, trigger: string, worlds: seq<World>, turns: seq<Turn>) {
    && |worlds| == |turns| + 1
    && forall i | 0 <= i < |turns| :: turns[i].reader.trigger == trigger && Turns(k, worlds[i], turns[i], worlds[i + 1])
  }

  /** The pass rests at this instant, its cards in their places. */
  predicate Rests(k: Key, trigger: string, w: World, now: int) {
    Stands(w, k) && InPlace(w, k, trigger) && AtRest(StateOf(w, k), now)
  }

  lemma InForceRests(st: State, now: int, later: int)
    requires AtRest(st, now) && InForce(st, later)
    ensures AtRest(st, later)
  {
    hide WrittenBack, Tidy, Cred, Driven;
  }

  /** So it does after a turn, and at the next turn's instant, being in force. */
  lemma TurnRests(k: Key, w: World, u: Turn, after: World)
    requires Turns(k, w, u, after) && Rests(k, u.reader.trigger, w, u.v.now)
    ensures Rests(k, u.reader.trigger, after, u.v.now)
  {
    hide Turns, InPlace, AtRest, Leads;
    TurnInForce(k, w, u, after);
    TurnLeads(k, w, u, after);
    CycleSettles(StateOf(w, k), u.v.now, StateOf(after, k));
  }

  lemma NextRests(k: Key, now: int, w: World, u: Turn, after: World)
    requires Turns(k, w, u, after) && Rests(k, u.reader.trigger, w, now)
    ensures Rests(k, u.reader.trigger, w, u.v.now)
  {
    hide Turns, InPlace, AtRest, InForce;
    TurnInForce(k, w, u, after);
    InForceRests(StateOf(w, k), now, u.v.now);
  }

  lemma TurnInForce(k: Key, w: World, u: Turn, after: World)
    requires Turns(k, w, u, after)
    ensures Stands(w, k) && Stands(after, k) && InForce(StateOf(w, k), u.v.now)
  {
    hide IsTrace, ComesToAll, InForce, Sees, CallOf, Answers, Confirms, AfterFlush, ToldLedger, CardsOf, AppliedSlots;
  }

  /** The pass rests, its cards in their places, at the start of every turn. */
  lemma {:induction false} RunRests(k: Key, trigger: string, worlds: seq<World>, turns: seq<Turn>, n: nat)
    requires IsRunOf(k, trigger, worlds, turns) && n < |turns| && Rests(k, trigger, worlds[0], turns[0].v.now)
    ensures Rests(k, trigger, worlds[n], turns[n].v.now)
  {
    hide Turns, Rests;
    if n > 0 {
      RunRests(k, trigger, worlds, turns, n - 1);
      assert Turns(k, worlds[n - 1], turns[n - 1], worlds[n - 1 + 1]) && Turns(k, worlds[n], turns[n], worlds[n + 1]);
      TurnRests(k, worlds[n - 1], turns[n - 1], worlds[n]);
      NextRests(k, turns[n - 1].v.now, worlds[n], turns[n], worlds[n + 1]);
    }
  }

  /** So every turn is a cycle of the loop: what it asks and what its import carries are the loop's. */
  lemma RunLeads(k: Key, trigger: string, worlds: seq<World>, turns: seq<Turn>, n: nat)
    requires IsRunOf(k, trigger, worlds, turns) && n < |turns| && Rests(k, trigger, worlds[0], turns[0].v.now)
    ensures Stands(worlds[n], k) && Stands(worlds[n + 1], k) && AtRest(StateOf(worlds[n], k), turns[n].v.now)
    ensures Leads(StateOf(worlds[n], k), turns[n].v.now, StateOf(worlds[n + 1], k))
    ensures CallsFor(k, AsksIn(turns[n].t)) == AsksFor(StateOf(worlds[n], k), turns[n].v.now, k)
    ensures Entries(ToldLedger(worlds[n], k, turns[n]), k) ==
            Gated(StateOf(worlds[n], k).entries, StateOf(worlds[n], k).live, Cred(StateOf(worlds[n], k), turns[n].v.now).status, worlds[n + 1].cards)
  {
    hide Turns, InPlace, AtRest, Leads, CallsFor, AsksIn, ToldLedger, Gated, Cred, AsksFor;
    RunRests(k, trigger, worlds, turns, n);
    assert Turns(k, worlds[n], turns[n], worlds[n + 1]);
    TurnInForce(k, worlds[n], turns[n], worlds[n + 1]);
    TurnLeads(k, worlds[n], turns[n], worlds[n + 1]);
  }

  lemma ThirdCycleIsSilent(k: Key, a: State, b: State, c: State, d: State, t0: int, t1: int, t2: int)
    requires Leads(a, t0, b) && Leads(b, t1, c) && Leads(c, t2, d)
    ensures AsksFor(c, t2, k) == [] && forall e <- Gated(c.entries, c.live, Cred(c, t2).status, d.cards) :: !Sendable(e)
  {
    hide AtRest, CycleTo, Answers, Gated, AsksFor, Cred, Quiet;
    NoLivelock([a, b, c], [t0, t1, t2], 2);
    QuietIsSilent(k, c, t2, d);
  }

  /** No livelock, of the sync itself: over any run of completed cycles of a pass at rest, from the third
      on AccessGrid is asked nothing about it and no import carries anything of it. */
  lemma RunFallsSilent(k: Key, trigger: string, worlds: seq<World>, turns: seq<Turn>, n: nat)
    requires IsRunOf(k, trigger, worlds, turns) && 2 <= n < |turns| && Rests(k, trigger, worlds[0], turns[0].v.now)
    ensures CallsFor(k, AsksIn(turns[n].t)) == [] && forall e <- Entries(ToldLedger(worlds[n], k, turns[n]), k) :: !Sendable(e)
  {
    hide Turns, Rests, CallsFor, AsksIn, ToldLedger, AtRest, Leads, Gated, Cred, AsksFor;
    RunLeads(k, trigger, worlds, turns, n - 2);
    RunLeads(k, trigger, worlds, turns, n - 1);
    RunLeads(k, trigger, worlds, turns, n);
    ThirdCycleIsSilent(k, StateOf(worlds[n - 2], k), StateOf(worlds[n - 1], k), StateOf(worlds[n], k), StateOf(worlds[n + 1], k),
                       turns[n - 2].v.now, turns[n - 1].v.now, turns[n].v.now);
  }

  lemma QuietIsSilent(k: Key, st: State, now: int, after: State)
    requires Leads(st, now, after) && Quiet(st, now)
    ensures AsksFor(st, now, k) == [] && forall e <- Gated(st.entries, st.live, Cred(st, now).status, after.cards) :: !Sendable(e)
  {
    hide AtRest, CallOf, Gated, Cred;
  }

  // ---- there are such runs ----

  /** The table's one row: a pass of one card, with a reference, which phase 1 finds. */
  predicate Lone(w: World, k: Key) {
    && w.rows.Keys == {k} && |w.cards| == 1 && w.cards[0].id != "" && w.lookup == Same && w.rows[k].syncRef != ""
  }

  function DetailOf(card: AgCard, answer: AgCard): map<string, AgCard> { map[card.id := answer] }

  function ReadBack(card: AgCard, answer: AgCard): seq<Read> { [Read(card, Some(answer))] }

  function TraceOf(w: World, k: Key, now: int, answer: AgCard): Trace
    requires Stands(w, k)
  {
    CycleTrace(StateOf(w, k), now, k, DetailOf(w.cards[0], answer), ReadBack(w.cards[0], answer))
  }

  /** Its cardholder read, nothing else in the snapshot, its import confirmed. */
  ghost function TurnOf(w: World, k: Key, trigger: string, now: int, answer: AgCard): Turn
    requires Stands(w, k)
  {
    var reader := Reading.Reader(trigger, true, false, w.holders[k.person].slots, {}, {}, {}, now);
    Turn(reader, Stability.ReadNow(reader, map[k.credential := Entries(w.ledger, k)]), ViewOf(StateOf(w, k), now, k), PLAIN_CONFIG, true,
         TraceOf(w, k, now, answer), map[], Some(ImportLog({}, {})))
  }

  ghost function AfterTurn(w: World, k: Key, u: Turn, answer: AgCard): World
    requires Stands(w, k)
  {
    var told := ToldLedger(w, k, u);
    var holder := w.holders[k.person];
    World(AfterFlush(told, w.holders, u.agreed, u.log), w.holders[k.person := holder.(slots := AppliedSlots(Entries(told, k), holder.slots))],
          [answer], u.t.rows6, Same)
  }

  lemma OneIsReadable(st: State, now: int, answer: AgCard)
    requires AtRest(st, now) && |st.cards| == 1 && st.cards[0].id != "" && st.lookup == Same && st.row.syncRef != ""
    requires Answers(CallOf(st, now), st.cards, [answer])
    ensures Readable(st, now, [answer], DetailOf(st.cards[0], answer), ReadBack(st.cards[0], answer))
  {
    hide AtRest, CallOf, Answers;
    assert st.cards == [st.cards[0]];
  }

  /** Its cycle, and the row that leaves. */
  lemma LoneCycle(w: World, k: Key, now: int, answer: AgCard)
    requires Stands(w, k) && Lone(w, k) && AtRest(StateOf(w, k), now) && Answers(CallOf(StateOf(w, k), now), w.cards, [answer])
    ensures Cycled(ViewOf(StateOf(w, k), now, k), PLAIN_CONFIG, true, w.rows, TraceOf(w, k, now, answer), k, StateOf(w, k), now, [answer])
    ensures var rows6 := TraceOf(w, k, now, answer).rows6; rows6.Keys == {k} && rows6[k].syncRef == w.rows[k].syncRef
  {
    hide AtRest, CallOf, Answers, Cycled, Readable, CycleTrace, ViewOf, Present;
    var st := StateOf(w, k);
    OneIsReadable(st, now, answer);
    CycleExists(st, now, k, [answer], DetailOf(w.cards[0], answer), ReadBack(w.cards[0], answer));
    assert w.rows == map[k := st.row];
    CycleLeavesRow(ViewOf(st, now, k), PLAIN_CONFIG, true, w.rows, TraceOf(w, k, now, answer), k, st, now, [answer]);
    CycleTakesRow(ViewOf(st, now, k), PLAIN_CONFIG, true, w.rows, TraceOf(w, k, now, answer), k, st, now, [answer], Same);
    OneRowLeft(st, now, k, DetailOf(w.cards[0], answer), ReadBack(w.cards[0], answer));
  }

  lemma LoneSees(w: World, k: Key, trigger: string, now: int, answer: AgCard)
    requires Lone(w, k) && Rests(k, trigger, w, now)
    ensures Sees(w, k, TurnOf(w, k, trigger, now, answer))
  {
    hide AtRest, SeosCredential, Present, Stability.ReadNow, CycleTrace, ViewOf, WellKept, DistinctSlots, PlacedIn, RecordedInPlace, Stability.Numbered;
    var st := StateOf(w, k);
    var u := TurnOf(w, k, trigger, now, answer);
    PlacedForAnyReader(u.reader, Entries(w.ledger, k));
    RestIsReadAsItIs(u.reader, k.credential, Entries(w.ledger, k));
    NamedAs(Entries(w.ledger, k), Present(w.holders[k.person].slots), now, k.credential);
    ViewShows(st, now, k);
    ViewIs(st, now, k);
  }

  lemma ViewIs(st: State, now: int, k: Key)
    requires st.cards != []
    ensures ViewOf(st, now, k).creds == map[k.person := [IssuedCredential(st, now, k)]] && ViewOf(st, now, k).now == now
  {
  }

  /** A turn can always be taken, whatever the rest of the ledger and of the export hold. */
  lemma TurnExists(w: World, k: Key, trigger: string, now: int) returns (u: Turn, after: World)
    requires Lone(w, k) && Rests(k, trigger, w, now)
    ensures Turns(k, w, u, after) && u.reader.trigger == trigger && u.v.now == now && Lone(after, k)
  {
    hide AtRest, CallOf, Answers, Cycled, CycleTrace, ViewOf, Present, InPlace, Sees, Cred, AfterFlush, LedgerAfterAll, AppliedSlots;
    var st := StateOf(w, k);
    var cards := AnswerExists(st, now);
    var answer := cards[0];
    assert cards == [answer];
    u := TurnOf(w, k, trigger, now, answer);
    after := AfterTurn(w, k, u, answer);
    LoneCycle(w, k, now, answer);
    LoneSees(w, k, trigger, now, answer);
    ViewIs(st, now, k);
    TurnIsTaken(w, k, trigger, now, answer);
  }

  lemma TurnIsTaken(w: World, k: Key, trigger: string, now: int, answer: AgCard)
    requires Lone(w, k) && Rests(k, trigger, w, now)
    requires var u, st := TurnOf(w, k, trigger, now, answer), StateOf(w, k);
             && Sees(w, k, u) && Cycled(u.v, u.cfg, true, w.rows, u.t, k, st, now, [answer]) && u.v.now == now && k in u.t.rows6
             && w.lookup == Same
    ensures var u := TurnOf(w, k, trigger, now, answer); Turns(k, w, u, AfterTurn(w, k, u, answer))
  {
    hide IsTrace, ComesToAll, CallOf, Answers, CycleTrace, ViewOf, Present, InPlace, Sees, AfterFlush, LedgerAfterAll, AppliedSlots, CardsOf, ToldLedger,
         AtRest, InForce, Shows, Lone;
    RestingInForce(StateOf(w, k), now);
  }

  lemma RestingInForce(st: State, now: int)
    requires AtRest(st, now)
    ensures InForce(st, now)
  {
    hide Cred, WrittenBack, Tidy, Driven;
  }

  lemma TurnRestsAtAnyTime(k: Key, w: World, u: Turn, after: World, later: int)
    requires Turns(k, w, u, after) && Rests(k, u.reader.trigger, w, u.v.now) && Rests(k, u.reader.trigger, w, later)
    ensures Rests(k, u.reader.trigger, after, later)
  {
    hide Turns, InPlace, AtRest, Leads;
    TurnInForce(k, w, u, after);
    TurnLeads(k, w, u, after);
    LeadsAtAnyTime(StateOf(w, k), u.v.now, later, StateOf(after, k));
    CycleSettles(StateOf(w, k), later, StateOf(after, k));
  }

  /** So from a pass that stays in force there are runs of every length, at whatever instants. */
  lemma {:induction false} RunsOfTurnsExist(w: World, k: Key, trigger: string, times: seq<int>) returns (worlds: seq<World>, turns: seq<Turn>)
    requires times != [] && Lone(w, k) && forall now <- times :: Rests(k, trigger, w, now)
    ensures IsRunOf(k, trigger, worlds, turns) && worlds[0] == w
    ensures |turns| == |times| && forall i | 0 <= i < |times| :: turns[i].v.now == times[i]
    decreases |times|
  {
    hide Turns, Rests, Lone;
    assert times[0] in times;
    var u, after := TurnExists(w, k, trigger, times[0]);
    worlds, turns := [w, after], [u];
    if |times| > 1 {
      forall now | now in times ensures Rests(k, trigger, after, now) {
        TurnRestsAtAnyTime(k, w, u, after, now);
      }
      var nexts, rest := RunsOfTurnsExist(after, k, trigger, times[1..]);
      worlds, turns := [w] + nexts, [u] + rest;
    }
  }

  function OneSlot(c: Card, trigger: string): Slot {
    Slot(1, c, trigger, true, None, None, [])
  }

  /** A pass of one card, recorded and on, which AccessGrid lists as suspended. */
  function OneCardWorld(k: Key, c: Card, trigger: string, syncRef: string): World {
    var st := OneCard(c, OneSlot(c, trigger), Some(true), "suspended", "active", syncRef);
    World(map[k := st.entries], map[k.person := Cardholder("First", "Last", [OneSlot(c, trigger)])], st.cards, map[k := st.row], Same)
  }

  lemma OnePresent(s: Slot)
    requires !s.Empty()
    ensures Present([s]) == map[s.card := s]
  {
    assert [s][..0] == [];
  }

  lemma OnePlaced(c: Card, trigger: string)
    requires c.number != "" && trigger != ""
    ensures var es := [Entry(1, c, Some(true), Settled, false)];
            DistinctSlots([OneSlot(c, trigger)]) && WellKept(es) && Stability.Numbered(es) && PlacedIn(trigger, [OneSlot(c, trigger)], es)
  {
    var es := [Entry(1, c, Some(true), Settled, false)];
    assert OneSlot(c, trigger) in [OneSlot(c, trigger)] && es[0] in es;
  }

  /** There is such a pass, then; its first turn resumes it. */
  lemma OneCardWorldRests(k: Key, c: Card, trigger: string, syncRef: string, now: int)
    requires c.number != "" && trigger != "" && syncRef != ""
    ensures var w := OneCardWorld(k, c, trigger, syncRef);
            Lone(w, k) && Rests(k, trigger, w, now) && CallOf(StateOf(w, k), now) == ResumeIt
  {
    hide AtRest, CallOf, Present, DistinctSlots, WellKept, Stability.Numbered, PlacedIn, StateChanged;
    SuspendedIsResumed(c, OneSlot(c, trigger), syncRef, now);
    OnePresent(OneSlot(c, trigger));
    OnePlaced(c, trigger);
    assert StateOf(OneCardWorld(k, c, trigger, syncRef), k) == OneCard(c, OneSlot(c, trigger), Some(true), "suspended", "active", syncRef);
  }

  // ---- what a read reports ----

  /** Each cardholder's credentials being what a read of them reports, no id is there twice. */
  lemma ReadOnce(v: View, readers: map<string, Reading.Reader>, books: map<string, Reading.Book>, ours: set<string>)
    requires forall p <- v.creds ::
               p in readers && p in books && v.creds[p] == Reading.Read(readers[p], p in ours, books[p]).credentials
    ensures UniqueIds(v)
  {
    hide Reading.Read;
    forall p | p in v.creds ensures Reading.NamedOnce(v.creds[p]) {
      Reading.ReportedOnce(readers[p], p in ours, books[p]);
    }
  }
}

/** The loop a Seos pass runs in: phase 1's refresh, phase 2, the install gate, phase 4's
    status loop and the flush, cycle after cycle, with nobody else touching anything. */
module ControlLoop {
  import opened Base
  import opened Export
  import opened Pacs
  import opened Ledger
  import opened SeosStatus
  import opened CardChanges
  import opened Flush
  import opened AgCards
  import opened Tracking
  import opened Decisions
  import opened Order
  import Reading
  import Stability = ReadingStability

  /** Phase 1 looks a pass up without its reference: it may read the pass's own first card,
      or some older issue's, in a state of its own ("" when it finds none). */
  datatype Lookup = Same | Other(state: string)

  datatype State = State(
    entries: seq<Entry>,            // the cards the pass rests on
    live: map<Card, Slot>,          // the cardholder's cards in the export
    cards: seq<AgCard>,             // the pass's cards in AccessGrid
    row: Row, lookup: Lookup)

  /** The first card's state, as the listing gives it. */
  function Listed(st: State): string
    requires st.cards != []
  {
    st.cards[0].ListedState()
  }

  /** States come without stray spaces, so every reader sees the same one. */
  predicate Tidy(cards: seq<AgCard>) {
    forall c <- cards :: StateText(c.state, c.status) == c.ListedState()
  }

  /** The ledger holds every identity the pass still backs, and none that AccessGrid has deleted. */
  predicate WrittenBack(entries: seq<Entry>, cards: seq<AgCard>) {
    (forall i <- Offered(cards) :: i.card in Cards(entries)) && (forall i <- Released(cards) :: i.card !in Cards(entries))
  }

  /** A pass resting on recorded cards: all on the cardholder, in force, none to write, to record
      or to delete. */
  predicate AtRest(st: State, now: int) {
    && st.entries != [] && Distinct(st.entries)
    && (forall e <- st.entries ::
          e.card in st.live && e.pending in {Settled, Activate, Deactivate} && !StartsLater(st.live, e, now))
    && st.cards != [] && Tidy(st.cards) && Listed(st) != ""
    && Driven(st.row)
    && !Expired(Cred(st, now), now) && WrittenBack(st.entries, st.cards)
  }

  function Cred(st: State, now: int): Credential {
    SeosCredential("card", st.entries, st.live, now)
  }

  // ---- one cycle ----

  function AfterPhase1(st: State): Row
    requires st.cards != []
  {
    var state := if st.lookup == Same then Listed(st) else st.lookup.state;
    if state != "" && state != st.row.lastKnown then st.row.(lastKnown := state) else st.row
  }

  function CallOf(st: State, now: int): StatusCall
    requires st.cards != []
  {
    Phase2Call(AfterPhase1(st), Cred(st, now), Listed(st))
  }

  predicate SameIdentities(before: seq<AgCard>, after: seq<AgCard>) {
    && (forall i <- Offered(after) :: InIdentities(Offered(before), i.card))
    && (forall i <- Released(after) :: InIdentities(Released(before), i.card))
  }

  /** How AccessGrid may answer: an answered suspend or resume shows on the first card, and turns
      up no identity that was not there, alive or deleted; no more is assumed of the others,
      and without a call nothing changes. */
  predicate Answers(call: StatusCall, before: seq<AgCard>, after: seq<AgCard>) {
    match call
    case Nothing => after == before
    case Terminate => false
    case SuspendIt => after != [] && Tidy(after) && after[0].ListedState() == "suspended" && SameIdentities(before, after)
    case ResumeIt => after != [] && Tidy(after) && after[0].ListedState() == "active" && SameIdentities(before, after)
  }

  function AfterPhase2(row: Row, call: StatusCall): Row {
    match call
    case SuspendIt => WithStatus(row, "suspended", "suspended")
    case ResumeIt => WithStatus(row, "active", "active")
    case _ => row
  }

  /** The ledger after the install gate has compared the cards with the pass. */
  function Gated(entries: seq<Entry>, live: map<Card, Slot>, status: CredentialStatus, cards: seq<AgCard>): seq<Entry> {
    var desired := DesiredStatus(cards);
    if InLine(status, desired) || !SwitchAllowed(entries, live, desired == Active) then entries
    else Switched(entries, live, desired == Active)
  }

  /** The status loop compares the cycle-start listing with what phase 2 may just have written. */
  function AfterPhase4(row: Row, listed: string): Row {
    if listed != row.lastKnown then row.(lastKnown := listed) else row
  }

  function SentFor(entries: seq<Entry>, card: Card): Option<bool> {
    if entries == [] then None
    else if entries[0].card == card && Sendable(entries[0]) then Some(entries[0].pending == Activate)
    else SentFor(entries[1..], card)
  }

  /** The cardholder once the import is applied. */
  function Applied(entries: seq<Entry>, live: map<Card, Slot>): map<Card, Slot> {
    map c | c in live :: if SentFor(entries, c).Some? then live[c].(active := SentFor(entries, c).value) else live[c]
  }

  /** A whole cycle, AccessGrid's cards being `answer` after phase 2's call; the card phase 1
      will find is `lookup` then, and without a call it is the one it found before. */
  function CycleTo(st: State, now: int, answer: seq<AgCard>, lookup: Lookup): State
    requires st.cards != []
  {
    var call := CallOf(st, now);
    var row := AfterPhase4(AfterPhase2(AfterPhase1(st), call), Listed(st));
    var entries := Gated(st.entries, st.live, Cred(st, now).status, answer);
    State(CreditEach(entries, {}), Applied(entries, st.live), answer, row, if call == Nothing then st.lookup else lookup)
  }

  ghost predicate Leads(st: State, now: int, after: State) {
    AtRest(st, now) && Answers(CallOf(st, now), st.cards, after.cards) && after == CycleTo(st, now, after.cards, after.lookup)
  }

  /** No call to AccessGrid this cycle, and no import. */
  predicate Quiet(st: State, now: int)
    requires st.cards != []
  {
    && CallOf(st, now) == Nothing
    && forall e <- Gated(st.entries, st.live, Cred(st, now).status, st.cards) :: !Sendable(e)
  }

  // ---- the loop's parts are the adapter's ----

  /** A confirmed import of a pass with no card to insert credits its switches, as the loop has it. */
  lemma LoopCreditsAsFlushed(k: Key, entries: seq<Entry>, holders: Holders)
    requires k.person in holders && forall e <- entries :: e.pending != Insert
    ensures ImportFor(k, entries, holders, ImportLog({}, {})) == CreditEach(entries, {})
  {
    if !Sent(k, entries, holders) {
      assert CreditEach(entries, {}) == entries;
    }
  }

  /** Its cards all recorded where they are, and every trigger slot one of them. */
  predicate RecordedInPlace(r: Reading.Reader, es: seq<Entry>) {
    && (forall e <- es :: !e.dormant && !Unwritten(e) && exists s <- r.slots :: Reading.IsTrigger(r, s) && s.card == e.card && s.index == e.slot)
    && (forall s <- r.slots :: Reading.IsTrigger(r, s) ==> Reading.Holds(es, s.card))
  }

  /** Reading a cardholder whose one pass rests on its recorded cards leaves the ledger alone
      and reports the credential the loop goes by. */
  lemma RestIsReadAsItIs(r: Reading.Reader, id: string, es: seq<Entry>)
    requires DistinctSlots(r.slots) && r.seos && WellKept(es) && Stability.Numbered(es) && RecordedInPlace(r, es)
    ensures Stability.ReadNow(r, map[id := es]) == Reading.Reading.Reading(map[id := es], [SeosCredential(id, es, Present(r.slots), r.now)])
  {
    hide SeosCredential, Present;
    var b: Reading.Book := map[id := es];
    InPlaceIsCalm(r, id, es);
    Stability.CalmIsLeftAlone(r, b);
    NothingHeld(r, id, es);
    OneId(id);
    assert b.Keys == {id};
    assert [id][..0] == [];
    assert !Reading.Waits(r, id, es) by { assert es[0] in es; }
    var c := SeosCredential(id, es, Present(r.slots), r.now);
    assert Reading.Report(r, id, es, false) == Some(c) by { SeosIsNotHeld(id, es, Present(r.slots), r.now); }
    assert Reading.Reports(r, [id], b, {}) == [c];
  }

  lemma SeosIsNotHeld(id: string, es: seq<Entry>, live: map<Card, Slot>, now: int)
    ensures SeosCredential(id, es, live, now).(hold := false) == SeosCredential(id, es, live, now)
  {
  }

  lemma OneId(id: string)
    ensures SortedSet(TextLess, {id}) == [id]
  {
    hide TextLess;
    TextIsOrdered();
    SortedSetIs(TextLess, {id});
    var s := SortedSet(TextLess, {id});
    assert s[0] in s;
  }

  lemma PlacedEntry(r: Reading.Reader, es: seq<Entry>, e: Entry)
    requires DistinctSlots(r.slots) && RecordedInPlace(r, es) && e in es
    ensures !Reading.IsDormant(r, e.card) && e.card in Present(r.slots)
    ensures Stability.ShiftedEntry(r, e, |r.slots|) == e
    ensures Stability.InTrigger(r, e.card)
  {
    var s :| s in r.slots && Reading.IsTrigger(r, s) && s.card == e.card && s.index == e.slot;
    Stability.TriggerSlotOf(r, s);
  }

  lemma NothingHeld(r: Reading.Reader, id: string, es: seq<Entry>)
    requires DistinctSlots(r.slots) && RecordedInPlace(r, es)
    ensures Stability.HeldBy(r, map[id := es]) == {}
  {
    hide Stability.Least, Stability.Misplaced, Stability.HasStale, Reading.IsDormant;
    var b: Reading.Book := map[id := es];
    forall e | e in es ensures !Reading.IsDormant(r, e.card) {
      PlacedEntry(r, es, e);
    }
    forall s | s in r.slots && Reading.IsTrigger(r, s) ensures Stability.Claimed(b, s.card) {
      assert Reading.Holds(b[id], s.card);
    }
  }

  lemma InPlacePass(r: Reading.Reader, es: seq<Entry>)
    requires DistinctSlots(r.slots) && WellKept(es) && RecordedInPlace(r, es)
    ensures Reading.Refreshed(r, es) == es && Stability.Shifted(r, es, |r.slots|) == es && Reading.AnyPresent(r, es)
  {
    hide RecordedInPlace, Present, Reading.IsDormant, Stability.ShiftedEntry;
    PlacedEntry(r, es, es[0]);
    assert es[0] in es;
    forall i | 0 <= i < |es|
      ensures Reading.Refreshed(r, es)[i] == es[i] && Stability.Shifted(r, es, |r.slots|)[i] == es[i]
    {
      assert es[i] in es;
      PlacedEntry(r, es, es[i]);
      assert !es[i].dormant by { NotDormant(r, es, es[i]); }
    }
  }

  lemma NotDormant(r: Reading.Reader, es: seq<Entry>, e: Entry)
    requires RecordedInPlace(r, es) && e in es
    ensures !e.dormant
  {
  }

  lemma InPlaceIsCalm(r: Reading.Reader, id: string, es: seq<Entry>)
    requires DistinctSlots(r.slots) && r.seos && WellKept(es) && Stability.Numbered(es) && RecordedInPlace(r, es)
    ensures Stability.Calm(r, map[id := es])
  {
    hide Stability.Level;
    InPlaceIsLevel(r, id, es);
    var b: Reading.Book := map[id := es];
    forall s | s in r.slots && Reading.IsTrigger(r, s) ensures Stability.Claimed(b, s.card) {
      assert Reading.Holds(b[id], s.card);
    }
  }

  lemma InPlaceIsLevel(r: Reading.Reader, id: string, es: seq<Entry>)
    requires DistinctSlots(r.slots) && r.seos && WellKept(es) && Stability.Numbered(es) && RecordedInPlace(r, es)
    ensures Stability.Level(r, map[id := es])
  {
    hide Stability.Shifted, Reading.Refreshed, Stability.HeldBy, RecordedInPlace, Present, SeosCredential, Reading.AnyPresent, Stability.Level;
    var b: Reading.Book := map[id := es];
    InPlacePass(r, es);
    assert id in b && b != map[];
    assert forall held :: !Reading.Forgotten(r, id, es, held);
    hide Reading.Forgotten;
    Stability.LevelByPass(r, b);
  }

  // ---- what the cards say ----

  predicate AllOn(st: State) {
    forall e <- st.entries :: e.card in st.live && st.live[e.card].active
  }

  predicate OffByUs(st: State) {
    forall e <- st.entries :: e.card in st.live && (st.live[e.card].active || e.active == Some(false))
  }

  lemma StatusAtRest(st: State, now: int)
    requires AtRest(st, now)
    ensures Cred(st, now).status == if AllOn(st) then Active else if OffByUs(st) then AwaitingInstall else Suspended
    ensures Cred(st, now).triggerActive && Cred(st, now).allocateIdentity
  {
    hide WrittenBack, Tidy, Driven, LatestStart, EarliestEnd, Written, Expired, StatusOf;
    StatusCharacterised(st.entries, st.live, now);
  }

  predicate AllSettled(st: State) {
    forall e <- st.entries :: e.pending == Settled
  }

  lemma {:induction false} SentForIs(entries: seq<Entry>, e: Entry)
    requires Distinct(entries) && e in entries
    ensures SentFor(entries, e.card) == if Sendable(e) then Some(e.pending == Activate) else None
  {
    if entries[0] != e {
      assert entries == [entries[0]] + entries[1..];
      var j :| 0 <= j < |entries| && entries[j] == e;
      assert entries[0].card != entries[j].card;
      SentForIs(entries[1..], e);
    } else if !Sendable(e) {
      NotSent(entries[1..], e.card);
    }
  }

  lemma {:induction false} NotSent(entries: seq<Entry>, card: Card)
    requires forall e <- entries :: e.card != card
    ensures SentFor(entries, card) == None
  {
    if entries != [] {
      NotSent(entries[1..], card);
    }
  }

  /** Phase 2 never suspends a pass for a card the sync itself wrote off and nobody touched,
      nor one that is not installed yet. */
  lemma OwnHoldIsNotSuspended(entries: seq<Entry>, live: map<Card, Slot>, now: int, row: Row, agState: string)
    requires forall e <- entries ::
               Unwritten(e) || (e.card in live && !StartsLater(live, e, now) && (live[e.card].active || e.active == Some(false)))
    ensures Phase2Call(row, SeosCredential("card", entries, live, now), agState) != SuspendIt
  {
    StatusCharacterised(entries, live, now);
  }

  /** The pass's state changed since it was last known. */
  predicate StateChanged(st: State)
    requires st.cards != []
  {
    st.row.lastKnown != "" && Listed(st) != st.row.lastKnown
  }

  /** Such a pass phase 2 promises to leave alone, and taken alone it does. A cycle does exactly when
      phase 1's refresh reads another card than phase 2, or phase 2 had nothing to say anyway. */
  lemma ChangedStateIsLeftAlone(st: State, now: int)
    requires AtRest(st, now) && StateChanged(st)
    ensures Phase2Call(st.row, Cred(st, now), Listed(st)) == Nothing
    ensures CallOf(st, now) == Nothing <==>
              || (st.lookup != Same && st.lookup.state != Listed(st))
              || (if AllOn(st) then Listed(st) != "suspended" else OffByUs(st) || Listed(st) != "active")
    ensures CallOf(st, now) in {Nothing, if AllOn(st) then ResumeIt else SuspendIt}
  {
    hide WrittenBack, Tidy, SeosCredential;
    StatusAtRest(st, now);
    assert "active" != "suspended" by { assert |"active"| == 6 && |"suspended"| == 9; }
  }

  /** A pass somebody suspended in AccessGrid, its card on and in force: it is resumed in the same cycle. */
  lemma SuspendedIsResumed(c: Card, slot: Slot, syncRef: string, now: int)
    requires slot.active && slot.activation == None && slot.expiration == None
    ensures var st := OneCard(c, slot, Some(true), "suspended", "active", syncRef);
            AtRest(st, now) && StateChanged(st) && CallOf(st, now) == ResumeIt
  {
    var st := OneCard(c, slot, Some(true), "suspended", "active", syncRef);
    OneCardRests(c, slot, Some(true), "suspended", "active", syncRef, now);
    PassCardIsTidy(c, "suspended");
    assert AllOn(st);
    assert "active" != "suspended" by { assert |"active"| == 6 && |"suspended"| == 9; }
    ChangedStateIsLeftAlone(st, now);
    hide AtRest, Cred, PassCard, CallOf;
  }

  // ---- one cycle's effect ----

  predicate Wants(cards: seq<AgCard>) {
    DesiredStatus(cards) == Active
  }

  /** The gate asks for a change, and the adapter takes it. */
  predicate Fired(st: State, now: int, answer: seq<AgCard>) {
    !InLine(Cred(st, now).status, DesiredStatus(answer)) && SwitchAllowed(st.entries, st.live, Wants(answer))
  }

  /** A card once the gate, the import and its log are through with it. */
  predicate Ends(e: Entry, box: bool, after: Entry, boxAfter: bool, fired: bool, want: bool) {
    && after.card == e.card && after.pending == Settled
    && if fired then after.active == Some(want) && boxAfter == want
       else if e.pending == Settled then after == e && boxAfter == box
       else boxAfter == (e.pending == Activate) && after.active == Some(boxAfter)
  }

  lemma CardEnds(st: State, now: int, answer: seq<AgCard>, i: nat)
    requires AtRest(st, now) && i < |st.entries|
    ensures var gated := Gated(st.entries, st.live, Cred(st, now).status, answer);
            && |gated| == |st.entries| && Distinct(gated) && gated[i].card == st.entries[i].card
            && Ends(st.entries[i], st.live[st.entries[i].card].active,
                    CreditEach(gated, {})[i], Applied(gated, st.live)[st.entries[i].card].active,
                    Fired(st, now, answer), Wants(answer))
  {
    hide DesiredStatus, Cred, SwitchAllowed, Applied, CreditEach, SentFor, StartsLater, Tidy, Driven, WrittenBack, Expired;
    var gated := Gated(st.entries, st.live, Cred(st, now).status, answer);
    assert st.entries[i] in st.entries;
    assert Distinct(gated);
    hide Distinct;
    FlushEnds(gated, st.live, i);
  }

  lemma FlushEnds(entries: seq<Entry>, live: map<Card, Slot>, i: nat)
    requires Distinct(entries) && i < |entries| && entries[i].card in live
    ensures var e := entries[i];
            && Applied(entries, live)[e.card].active == (if Sendable(e) then e.pending == Activate else live[e.card].active)
            && CreditEach(entries, {})[i] == (if Sendable(e) then e.(active := Some(e.pending == Activate), pending := Settled) else e)
  {
    SentForIs(entries, entries[i]);
    hide SentFor;
  }

  lemma CycleEnds(st: State, now: int, after: State)
    requires Leads(st, now, after)
    ensures |after.entries| == |st.entries| && after.live.Keys == st.live.Keys
    ensures forall i | 0 <= i < |st.entries| ::
              var c := st.entries[i].card;
              c in st.live && c in after.live &&
              Ends(st.entries[i], st.live[c].active, after.entries[i], after.live[c].active, Fired(st, now, after.cards), Wants(after.cards))
  {
    hide Gated, Fired, Wants, CallOf, AfterPhase1, AfterPhase2, Ends;
    assert st.entries[0] in st.entries;
    CardEnds(st, now, after.cards, 0);
    forall i | 0 <= i < |st.entries|
      ensures var c := st.entries[i].card;
              c in st.live && Ends(st.entries[i], st.live[c].active, after.entries[i], after.live[c].active,
                                   Fired(st, now, after.cards), Wants(after.cards))
    {
      assert st.entries[i] in st.entries;
      CardEnds(st, now, after.cards, i);
    }
  }

  lemma BoxesChangeOnly(st: State, now: int, after: State, c: Card)
    requires Leads(st, now, after) && c in st.live
    ensures c in after.live && after.live[c].activation == st.live[c].activation && after.live[c].expiration == st.live[c].expiration
  {
    hide Gated, SentFor;
  }

  lemma DrivenStays(row: Row, call: StatusCall, listed: string)
    requires Driven(row)
    ensures Driven(AfterPhase4(AfterPhase2(row, call), listed))
  {
    assert "suspended" !in {"deleted", "pending", "deduped"} && "active" !in {"deleted", "pending", "deduped"} by {
      assert |"suspended"| == 9 && |"deleted"| == 7 && |"pending"| == 7 && |"deduped"| == 7 && |"active"| == 6;
    }
  }

  /** One cycle settles every card, whatever it started from. */
  lemma CycleSettles(st: State, now: int, after: State)
    requires Leads(st, now, after)
    ensures AtRest(after, now) && AllSettled(after)
  {
    DrivenStays(AfterPhase1(st), CallOf(st, now), Listed(st));
    ListedAfter(st, now, after);
    StaysInForce(st, now, after);
    StaysWrittenBack(st, now, after);
    hide WrittenBack, Cred;
    hide Gated, CallOf, DesiredStatus, Driven, AfterPhase1, AfterPhase2, AfterPhase4, Answers, Applied, Tidy;
    CardsSettle(st, now, after);
  }

  lemma CardsSettle(st: State, now: int, after: State)
    requires Leads(st, now, after)
    ensures |after.entries| == |st.entries| && Distinct(after.entries) && AllSettled(after)
    ensures forall e <- after.entries :: e.card in after.live && !StartsLater(after.live, e, now)
  {
    CycleEnds(st, now, after);
    hide Gated, Fired, Wants, CallOf, DesiredStatus, Driven, AfterPhase1, AfterPhase2, AfterPhase4, Applied, CreditEach;
    forall i | 0 <= i < |after.entries|
      ensures after.entries[i].card in after.live && after.entries[i].pending == Settled
      ensures after.entries[i].card == st.entries[i].card && !StartsLater(after.live, after.entries[i], now)
    {
      assert st.entries[i] in st.entries;
      BoxesChangeOnly(st, now, after, st.entries[i].card);
    }
  }

  lemma StaysInForce(st: State, now: int, after: State)
    requires Leads(st, now, after)
    ensures !Expired(Cred(after, now), now)
  {
    CardsSettle(st, now, after);
    CycleEnds(st, now, after);
    EarliestEndBefore(Written(st.entries), st.live, now);
    EarliestEndBefore(Written(after.entries), after.live, now);
    hide CycleTo, Fired, Wants, CallOf, Answers, Tidy, Driven, WrittenBack, Written, EarliestEnd, LatestStart, StatusOf, Ends;
    forall i | 0 <= i < |after.entries|
      ensures var c := after.entries[i].card;
              !(c in after.live && after.live[c].expiration.Some? && after.live[c].expiration.value < now)
    {
      assert st.entries[i] in st.entries && st.entries[i] in Written(st.entries) by { AtRestIsWritten(st, now); }
      BoxesChangeOnly(st, now, after, st.entries[i].card);
    }
    WrittenIsIn(after.entries);
  }

  lemma AtRestIsWritten(st: State, now: int)
    requires AtRest(st, now)
    ensures forall e <- st.entries :: e in Written(st.entries)
  {
  }

  lemma WrittenIsIn(entries: seq<Entry>)
    ensures forall e <- Written(entries) :: e in entries
  {
  }

  lemma StaysWrittenBack(st: State, now: int, after: State)
    requires Leads(st, now, after)
    ensures WrittenBack(after.entries, after.cards)
  {
    CycleEnds(st, now, after);
    NeverTerminates(st, now);
    assert SameIdentities(st.cards, after.cards) by { NothingNewBacked(st.cards); }
    SameCards(st.entries, after.entries);
    hide AtRest, Leads, CycleTo, Answers, Cards, SameIdentities;
    BackedAlready(st.entries, after.entries, st.cards, after.cards);
  }

  lemma NothingNewBacked(cards: seq<AgCard>)
    ensures SameIdentities(cards, cards)
  {
    hide Offered, Released;
  }

  lemma BackedAlready(entries: seq<Entry>, later: seq<Entry>, before: seq<AgCard>, after: seq<AgCard>)
    requires WrittenBack(entries, before) && SameIdentities(before, after) && Cards(later) == Cards(entries)
    ensures WrittenBack(later, after)
  {
    hide Offered, Released, Cards;
    forall i | i in Offered(after) ensures i.card in Cards(entries) {
      var o :| o in Offered(before) && o.card == i.card;
    }
    forall i | i in Released(after) ensures i.card !in Cards(entries) {
      var o :| o in Released(before) && o.card == i.card;
    }
  }

  lemma ListedAfter(st: State, now: int, after: State)
    requires Leads(st, now, after)
    ensures after.cards != [] && Tidy(after.cards) && Listed(after) != ""
  {
    hide Phase2Call, Gated;
    StatusAtRest(st, now);
  }

  // ---- where the cards end up ----

  lemma FiredEnds(st: State, now: int, after: State)
    requires Leads(st, now, after) && Fired(st, now, after.cards)
    ensures AllOn(after) == Wants(after.cards) && OffByUs(after)
  {
    hide AllOn, OffByUs, Wants, CycleTo, Answers, CallOf, DesiredStatus, SwitchAllowed;
    CycleEnds(st, now, after);
    assert after.entries != [];
    hide Leads, Fired, AtRest;
    forall i | 0 <= i < |after.entries|
      ensures after.entries[i].card in after.live
      ensures after.live[after.entries[i].card].active == Wants(after.cards) && after.entries[i].active == Some(Wants(after.cards))
    {
    }
    AllAsWanted(after, Wants(after.cards));
  }

  lemma AllAsWanted(st: State, want: bool)
    requires st.entries != []
    requires forall e <- st.entries :: e.card in st.live && st.live[e.card].active == want && e.active == Some(want)
    ensures AllOn(st) == want && OffByUs(st)
  {
    assert st.entries[0] in st.entries;
  }

  lemma UnfiredStays(st: State, now: int, after: State)
    requires Leads(st, now, after) && !Fired(st, now, after.cards) && AllSettled(st)
    ensures after.entries == st.entries && after.live == st.live
  {
    UnfiredIsUnchanged(st, now, after.cards);
  }

  /** Cards that were all on can only be off by our own doing. */
  lemma OnThenOffByUs(st: State, now: int, after: State)
    requires Leads(st, now, after) && AllOn(st)
    ensures OffByUs(after)
  {
    CycleEnds(st, now, after);
    if Fired(st, now, after.cards) {
      FiredEnds(st, now, after);
    } else {
      hide Leads, Fired, Wants;
      forall i | 0 <= i < |after.entries|
        ensures after.live[after.entries[i].card].active || after.entries[i].active == Some(false)
      {
        assert st.entries[i] in st.entries;
      }
    }
  }

  lemma SuspendedFirst(cards: seq<AgCard>)
    requires cards != [] && Tidy(cards)
    ensures cards[0].ListedState() == "suspended" ==> DesiredStatus(cards) == Suspended
  {
    hide Installed;
    if cards[0].ListedState() == "suspended" {
      assert StateText(cards[0].state, cards[0].status) == "suspended";
      assert !CardDead(cards[0]) by {
        assert |"suspended"| == 9 && |"deleted"| == 7 && |"unlink"| == 6 && |"unlinked"| == 8;
      }
      assert cards[0] in Filter((c: AgCard) => !CardDead(c), cards);
    }
  }

  /** Whether the adapter would switch the cards on: unless an operator switched one off. */
  lemma SwitchOnAllowed(st: State, now: int)
    requires AtRest(st, now)
    ensures SwitchAllowed(st.entries, st.live, false)
    ensures OffByUs(st) ==> SwitchAllowed(st.entries, st.live, true)
  {
    assert st.entries[0] in st.entries && Switchable(st.entries[0], st.live);
  }

  // ---- quiet after two ----

  /** What a first cycle leaves of the remembered state, when phase 1 finds no card at all. */
  predicate Remembers(st: State)
    requires st.cards != []
  {
    st.lookup == Other("") ==>
      || st.row.lastKnown == Listed(st)
      || Listed(st) == "suspended"
      || (Listed(st) == "active" && OffByUs(st))
  }

  lemma FirstCycleRemembers(st: State, now: int, after: State)
    requires Leads(st, now, after)
    ensures after.cards != [] && Remembers(after)
  {
    ListedAfter(st, now, after);
    StatusAtRest(st, now);
    if CallOf(st, now) == ResumeIt {
      OnThenOffByUs(st, now, after);
    }
  }

  /** Phase 2 has nothing to say about a pass whose cards are all on unless it reads suspended,
      or whose cards are off by our own hand. */
  lemma NothingToSay(st: State, now: int)
    requires AtRest(st, now) && OffByUs(st)
    requires AllOn(st) ==> Listed(st) != "suspended"
    ensures CallOf(st, now) == Nothing
  {
    StatusAtRest(st, now);
  }

  /** A suspended credential whose pass was left alone, or was just suspended, is left alone again. */
  lemma SuspendedStaysQuiet(st: State, now: int, after: State)
    requires Leads(st, now, after) && AtRest(after, now) && Remembers(st)
    requires !OffByUs(st) && !OffByUs(after)
    ensures CallOf(after, now) == Nothing
  {
    hide Gated, Applied, CreditEach, DesiredStatus, SeosCredential;
    StatusAtRest(st, now);
    StatusAtRest(after, now);
    AllOnIsOffByUs(st);
    AllOnIsOffByUs(after);
  }

  lemma AllOnIsOffByUs(st: State)
    ensures AllOn(st) ==> OffByUs(st)
  {
  }

  lemma SecondCycleQuiets(st: State, now: int, after: State)
    requires Leads(st, now, after) && AllSettled(st) && Remembers(st)
    ensures AtRest(after, now) && Quiet(after, now)
  {
    CycleSettles(st, now, after);
    StatusAtRest(st, now);
    StatusAtRest(after, now);
    SwitchOnAllowed(st, now);
    SwitchOnAllowed(after, now);
    SuspendedFirst(after.cards);
    AllOnIsOffByUs(after);
    if Fired(st, now, after.cards) {
      FiredEnds(st, now, after);
      NothingToSay(after, now);
      InLineIsQuiet(after, now);
    } else {
      UnfiredStays(st, now, after);
      if OffByUs(st) {
        OffByUsIsInLine(st, now, after.cards);
        NothingToSay(after, now);
        InLineIsQuiet(after, now);
      } else {
        SuspendedStaysQuiet(st, now, after);
        RefusedAgain(st, now, after);
        NotFiredIsQuiet(after, now);
      }
    }
  }

  lemma OffByUsIsInLine(st: State, now: int, answer: seq<AgCard>)
    requires AtRest(st, now) && OffByUs(st) && !Fired(st, now, answer)
    ensures AllOn(st) == Wants(answer)
  {
    hide DesiredStatus;
    StatusAtRest(st, now);
    SwitchOnAllowed(st, now);
  }

  lemma RefusedAgain(st: State, now: int, after: State)
    requires Leads(st, now, after) && AtRest(after, now) && AllSettled(st) && !Fired(st, now, after.cards)
    ensures !Fired(after, now, after.cards)
  {
    hide DesiredStatus, SeosCredential;
    UnfiredStays(st, now, after);
    StatusAtRest(st, now);
    StatusAtRest(after, now);
  }

  lemma NotFiredIsQuiet(st: State, now: int)
    requires AtRest(st, now) && AllSettled(st) && !Fired(st, now, st.cards) && CallOf(st, now) == Nothing
    ensures Quiet(st, now)
  {
    hide CallOf, DesiredStatus;
  }

  lemma InLineIsQuiet(st: State, now: int)
    requires AtRest(st, now) && AllSettled(st) && CallOf(st, now) == Nothing && OffByUs(st)
    requires AllOn(st) == Wants(st.cards)
    ensures Quiet(st, now)
  {
    hide CallOf, DesiredStatus;
    StatusAtRest(st, now);
  }

  // ---- runs ----

  /** Cycle by cycle, each at an instant of its own; the pass is in force at each. */
  ghost predicate IsRun(run: seq<State>, times: seq<int>) {
    && |times| == |run|
    && (forall i | 0 <= i < |run| :: AtRest(run[i], times[i]))
    && forall i | 0 <= i < |run| - 1 :: Leads(run[i], times[i], run[i + 1])
  }

  /** A pass of one card, in this state and backing one identity. */
  function PassCard(c: Card, state: string): AgCard {
    AgCard("pass", c.facility, c.number, state, "", "", "", "", None, None, [], [], [], [])
  }

  /** That card recorded, and the pass remembered in some state. */
  function OneCard(c: Card, slot: Slot, recorded: Option<bool>, state: string, lastKnown: string, syncRef: string): State {
    State([Entry(1, c, recorded, Settled, false)], map[c := slot], [PassCard(c, state)],
          Row(Some("pass"), "active", lastKnown, syncRef, false, 0), Same)
  }

  /** While it stays in force, a resting pass looks the same at any time. */
  lemma SameAtAnyTime(st: State, now: int, later: int)
    requires AtRest(st, now) && AtRest(st, later)
    ensures CallOf(st, now) == CallOf(st, later) && (Quiet(st, now) <==> Quiet(st, later))
    ensures forall answer, lookup :: CycleTo(st, now, answer, lookup) == CycleTo(st, later, answer, lookup)
  {
    StatusAtRest(st, now);
    StatusAtRest(st, later);
    hide AtRest, Cred, AllOn, OffByUs, Gated;
  }

  lemma LeadsAtAnyTime(st: State, now: int, later: int, after: State)
    requires Leads(st, now, after) && AtRest(st, later)
    ensures Leads(st, later, after)
  {
    SameAtAnyTime(st, now, later);
    hide AtRest, CallOf, CycleTo;
  }

  lemma PlainStates()
    ensures Lower("suspended") == "suspended" && Strip("suspended") == "suspended"
    ensures Lower("active") == "active" && Strip("active") == "active"
  {
    assert Lower("suspended") == "suspended" by { assert |"suspended"| == 9; }
    assert Lower("active") == "active" by { assert |"active"| == 6; }
  }

  /** AccessGrid can always answer as assumed: the first card changes its state, and nothing else. */
  lemma AnswerExists(st: State, now: int) returns (answer: seq<AgCard>)
    requires AtRest(st, now)
    ensures st.cards != [] && Answers(CallOf(st, now), st.cards, answer)
    ensures |answer| == |st.cards| && forall i | 0 <= i < |answer| :: answer[i].id == st.cards[i].id
  {
    hide AtRest, CallOf, Tidy, CardDead, SameIdentities, Lower, Strip;
    assert st.cards != [] && Tidy(st.cards) by { RestingIsTidy(st, now); }
    NeverTerminates(st, now);
    if CallOf(st, now) == Nothing {
      answer := st.cards;
    } else {
      CalledIsAlive(st, now);
      var state := if CallOf(st, now) == SuspendIt then "suspended" else "active";
      answer := Restated(st.cards, state);
      PlainStates();
      RestatedIs(st.cards, state);
    }
  }

  lemma RestingIsTidy(st: State, now: int)
    requires AtRest(st, now)
    ensures st.cards != [] && Tidy(st.cards)
  {
    hide Tidy, WrittenBack, Cred;
  }

  function Restated(cards: seq<AgCard>, state: string): seq<AgCard>
    requires cards != []
  {
    [cards[0].(state := state)] + cards[1..]
  }

  /** Phase 2 asks only about a pass whose first card is alive. */
  lemma CalledIsAlive(st: State, now: int)
    requires AtRest(st, now) && CallOf(st, now) in {SuspendIt, ResumeIt}
    ensures !CardDead(st.cards[0])
  {
    hide Cred, StatusOf, WrittenBack, Expired, Lower, Strip;
    StatusAtRest(st, now);
    assert StateText(st.cards[0].state, st.cards[0].status) == Listed(st) by { assert st.cards[0] in st.cards; }
    LiveTexts();
    assert Listed(st) in {"active", "created", "suspended"};
  }

  lemma LiveTexts()
    ensures "suspended" !in DEAD_STATES && "active" !in DEAD_STATES && "created" !in DEAD_STATES
  {
    assert |"suspended"| == 9 && |"active"| == 6 && |"created"| == 7 && |"deleted"| == 7 && |"unlink"| == 6 && |"unlinked"| == 8;
    assert "active"[0] == 'a' && "unlink"[0] == 'u' && "created"[0] == 'c' && "deleted"[0] == 'd';
  }

  lemma RestatedIs(cards: seq<AgCard>, state: string)
    requires cards != [] && Tidy(cards) && !CardDead(cards[0]) && state in {"suspended", "active"}
    requires Lower(state) == state && Strip(state) == state
    ensures Tidy(Restated(cards, state)) && SameIdentities(cards, Restated(cards, state))
  {
    hide Lower, Strip;
    LiveTexts();
    var after := Restated(cards, state);
    assert StateText(state, cards[0].status) == state by { assert |state| > 0; }
    assert !CardDead(after[0]);
    SameOccurrences(cards[0], after[0]);
    assert Tidy(after);
    OfferedExactly(cards);
    OfferedExactly(after);
    ReleasedExactly(cards);
    ReleasedExactly(after);
    hide Offered, Released, Tidy, CardDead, LiveIn, DeadIn, StateText;
    SameSomewhere(cards, after);
    forall i | i in Offered(after) ensures InIdentities(Offered(cards), i.card) {
      assert InIdentities(Offered(after), i.card);
    }
    forall i | i in Released(after) ensures InIdentities(Released(cards), i.card) {
      assert InIdentities(Released(after), i.card);
    }
  }

  lemma SameOccurrences(a: AgCard, b: AgCard)
    requires b == a.(state := b.state) && !CardDead(a) && !CardDead(b)
    ensures forall card :: (LiveIn(a, card) <==> LiveIn(b, card)) && (DeadIn(a, card) <==> DeadIn(b, card))
  {
    hide StateText;
    assert Occurrences(a) == Occurrences(b);
  }

  lemma SameSomewhere(before: seq<AgCard>, after: seq<AgCard>)
    requires before != [] && after != [] && after == [after[0]] + before[1..]
    requires forall card :: (LiveIn(before[0], card) <==> LiveIn(after[0], card)) && (DeadIn(before[0], card) <==> DeadIn(after[0], card))
    ensures forall card :: (LiveSomewhere(after, card) ==> LiveSomewhere(before, card))
                           && (DeadSomewhere(after, card) ==> DeadSomewhere(before, card))
  {
    hide LiveIn, DeadIn;
    forall c | c in after ensures c == after[0] || c in before {
      if c != after[0] {
        var i :| 0 <= i < |after| && after[i] == c;
        assert before[i] == c;
      }
    }
    assert before[0] in before;
  }

  lemma NeverTerminates(st: State, now: int)
    requires AtRest(st, now)
    ensures CallOf(st, now) != Terminate
  {
    StatusAtRest(st, now);
  }

  /** From a pass that stays in force there are runs of every length, at whatever instants. */
  lemma {:induction false} RunsExist(st: State, times: seq<int>) returns (run: seq<State>)
    requires times != [] && forall now <- times :: AtRest(st, now)
    ensures IsRun(run, times) && run[0] == st
    decreases |times|
  {
    hide Leads, AtRest, CycleTo, Answers, CallOf, AllSettled;
    assert AtRest(st, times[0]);
    if |times| == 1 {
      run := [st];
    } else {
      var answer := AnswerExists(st, times[0]);
      var next := CycleTo(st, times[0], answer, st.lookup);
      assert Leads(st, times[0], next) by { CycleLeads(st, times[0], answer); }
      forall now | now in times ensures AtRest(next, now) {
        LeadsAtAnyTime(st, times[0], now, next);
        CycleSettles(st, now, next);
      }
      var rest := RunsExist(next, times[1..]);
      run := [st] + rest;
    }
  }

  lemma CycleLeads(st: State, now: int, answer: seq<AgCard>)
    requires AtRest(st, now) && Answers(CallOf(st, now), st.cards, answer)
    ensures Leads(st, now, CycleTo(st, now, answer, st.lookup))
  {
  }

  lemma SomeIn(s: seq<Identity>)
    ensures s != [] ==> InIdentities(s, s[0].card)
  {
    if s != [] { assert s[0] in s; }
  }

  lemma PassCardBacks(c: Card, state: string)
    requires state in {"active", "suspended"}
    ensures (forall i <- Offered([PassCard(c, state)]) :: i.card == c) && Released([PassCard(c, state)]) == []
  {
    var cards := [PassCard(c, state)];
    PassCardIsTidy(c, state);
    assert Occurrences(cards[0]) == [CardAt(cards[0])];
    OfferedExactly(cards);
    ReleasedExactly(cards);
    hide Offered, Released;
    SomeIn(Released(cards));
    forall i | i in Offered(cards) ensures InIdentities(Offered(cards), i.card) { }
  }

  lemma PassCardRecorded(c: Card, state: string, es: seq<Entry>)
    requires es != [] && es[0].card == c && state in {"active", "suspended"}
    ensures WrittenBack(es, [PassCard(c, state)])
  {
    PassCardBacks(c, state);
    assert es[0] in es;
    hide Offered, Released;
  }

  lemma OneEntryInForce(c: Card, slot: Slot, recorded: Option<bool>, now: int)
    requires slot.activation == None && slot.expiration == None
    ensures var es, live := [Entry(1, c, recorded, Settled, false)], map[c := slot];
            && Distinct(es) && !Expired(SeosCredential("card", es, live, now), now)
            && forall e <- es :: e.card in live && e.pending == Settled && !StartsLater(live, e, now)
  {
    NeverRunsOut([Entry(1, c, recorded, Settled, false)], map[c := slot], now);
    hide SeosCredential, Expired;
  }

  /** And there are resting states: a pass with its one card recorded, on or off. */
  lemma OneCardRests(c: Card, slot: Slot, recorded: Option<bool>, state: string, lastKnown: string, syncRef: string, now: int)
    requires slot.activation == None && slot.expiration == None && state in {"active", "suspended"}
    ensures AtRest(OneCard(c, slot, recorded, state, lastKnown, syncRef), now)
  {
    var st := OneCard(c, slot, recorded, state, lastKnown, syncRef);
    OneEntryInForce(c, slot, recorded, now);
    PassCardRecorded(c, state, st.entries);
    PassCardIsTidy(c, state);
    ActiveIsDriven(lastKnown, syncRef);
    assert Listed(st) != "" by { assert |"active"| == 6 && |"suspended"| == 9; }
    hide WrittenBack, SeosCredential, PassCard, Tidy, Lower, Driven, Distinct, StartsLater, Expired;
  }

  lemma ActiveIsDriven(lastKnown: string, syncRef: string)
    ensures Driven(Row(Some("pass"), "active", lastKnown, syncRef, false, 0))
  {
    assert |"active"| == 6 && |"deleted"| == 7 && |"pending"| == 7 && |"deduped"| == 7;
  }

  lemma PassCardIsTidy(c: Card, state: string)
    requires state in {"active", "suspended"}
    ensures Tidy([PassCard(c, state)]) && PassCard(c, state).ListedState() == state && !CardDead(PassCard(c, state))
  {
    hide Strip, Lower;
    PlainStates();
    LiveTexts();
    assert |"active"| == 6 && |"suspended"| == 9;
  }

  lemma NeverRunsOut(entries: seq<Entry>, live: map<Card, Slot>, now: int)
    requires forall c <- live :: live[c].expiration.None?
    ensures !Expired(SeosCredential("card", entries, live, now), now)
  {
    EarliestEndBefore(Written(entries), live, now);
  }

  /** No livelock: from any mix of boxes, recorded boxes, leftover changes, pass states and
      remembered states, nothing is sent from the third cycle on. */
  lemma NoLivelock(run: seq<State>, times: seq<int>, n: nat)
    requires IsRun(run, times) && 2 <= n < |run|
    ensures Quiet(run[n], times[n])
  {
    hide Leads, AtRest, AllSettled, Quiet;
    var first, second := run[n - 2], run[n - 1];
    assert Leads(first, times[n - 2], second) && Leads(second, times[n - 1], run[n - 2 + 2]);
    CycleSettles(first, times[n - 2], second);
    FirstCycleRemembers(first, times[n - 2], second);
    SecondCycleQuiets(second, times[n - 1], run[n]);
    SameAtAnyTime(run[n], times[n - 1], times[n]);
  }

  /** A quiet cycle changes no card, no box and no pass. */
  lemma QuietChangesNothing(st: State, now: int, after: State)
    requires Leads(st, now, after) && AllSettled(st) && Quiet(st, now)
    ensures after.entries == st.entries && after.live == st.live && after.cards == st.cards
  {
    assert after.cards == st.cards;
    if Fired(st, now, st.cards) {
      QuietIsNotFired(st, now);
    }
    UnfiredStays(st, now, after);
  }

  lemma QuietIsNotFired(st: State, now: int)
    requires AtRest(st, now) && Quiet(st, now)
    ensures !Fired(st, now, st.cards)
  {
    hide CallOf, Fired, Gated;
    if Fired(st, now, st.cards) {
      FiredSends(st, now);
    }
  }

  /** When the gate asks for a change, some box differs from it, and is sent. */
  lemma FiredSends(st: State, now: int)
    requires AtRest(st, now) && Fired(st, now, st.cards)
    ensures exists e <- Gated(st.entries, st.live, Cred(st, now).status, st.cards) :: Sendable(e)
  {
    hide CallOf, DesiredStatus, SeosCredential, SwitchAllowed;
    StatusAtRest(st, now);
    var gated := Gated(st.entries, st.live, Cred(st, now).status, st.cards);
    assert st.entries[0] in st.entries;
    var e :| e in st.entries && st.live[e.card].active != Wants(st.cards);
    var i :| 0 <= i < |st.entries| && st.entries[i] == e;
    assert gated[i] in gated && Sendable(gated[i]);
  }

  /** Where the loop rests, the credential reads ACTIVE only if the pass is on a device and
      none of its live cards is suspended. */
  lemma RestingActiveIsInstalled(st: State, now: int)
    requires AtRest(st, now) && Quiet(st, now)
    ensures var alive := Filter((c: AgCard) => !CardDead(c), st.cards);
            Cred(st, now).status == Active ==>
              Installed(alive) && forall c <- alive :: StateText(c.state, c.status) != "suspended"
  {
    hide CallOf, SeosCredential, SwitchAllowed, Gated;
    QuietIsNotFired(st, now);
    SwitchOnAllowed(st, now);
  }

  /** And such a pass does rest: installed, unsuspended, its cards on, nothing is sent. */
  lemma InstalledAndOnRests(st: State, now: int)
    requires AtRest(st, now) && AllSettled(st) && AllOn(st) && DesiredStatus(st.cards) == Active
    ensures Cred(st, now).status == Active && Quiet(st, now)
  {
    hide DesiredStatus, SeosCredential;
    StatusAtRest(st, now);
    AllOnIsOffByUs(st);
    SuspendedFirst(st.cards);
    NothingToSay(st, now);
    InLineIsQuiet(st, now);
  }

  /** And it reads otherwise only if the pass says so, or an operator keeps a card off. */
  lemma RestingOffIsMeant(st: State, now: int)
    requires AtRest(st, now) && Quiet(st, now) && DesiredStatus(st.cards) == Active && Cred(st, now).status != Active
    ensures exists e <- st.entries :: OperatorOff(e, st.live)
  {
    hide CallOf, SeosCredential, Gated, DesiredStatus;
    QuietIsNotFired(st, now);
    assert st.entries[0] in st.entries && Switchable(st.entries[0], st.live);
  }

  /** A pass that reads active, with a card an operator switched off. */
  predicate Unticked(st: State, now: int) {
    && AtRest(st, now) && AllSettled(st) && st.lookup == Same && Listed(st) == "active"
    && exists e <- st.entries :: OperatorOff(e, st.live)
  }

  /** What the assumption on suspends buys: were a suspend answered while the first card
      still read active, the pass would be suspended again every cycle. */
  lemma UntakenSuspendRepeats(st: State, now: int)
    requires Unticked(st, now)
    ensures CallOf(st, now) == SuspendIt
    ensures Unticked(CycleTo(st, now, st.cards, st.lookup), now)
  {
    UntickedIsSuspended(st, now);
    UnfiredIsUnchanged(st, now, st.cards);
    DrivenStays(AfterPhase1(st), CallOf(st, now), Listed(st));
    hide CallOf, Fired, Gated, Driven, AfterPhase1, AfterPhase2, AfterPhase4, Applied, CreditEach, Unticked, AtRest, AllSettled, Cred;
    UntickedAgain(st, now, CycleTo(st, now, st.cards, st.lookup));
  }

  /** There are such passes. */
  lemma OneCardUnticked(c: Card, slot: Slot, lastKnown: string, syncRef: string, now: int)
    requires !slot.active && slot.activation == None && slot.expiration == None
    ensures Unticked(OneCard(c, slot, Some(true), "active", lastKnown, syncRef), now)
  {
    var st := OneCard(c, slot, Some(true), "active", lastKnown, syncRef);
    OneCardRests(c, slot, Some(true), "active", lastKnown, syncRef, now);
    PassCardIsTidy(c, "active");
    assert OperatorOff(st.entries[0], st.live);
    hide AtRest, PassCard, OperatorOff;
  }

  lemma UntickedAgain(st: State, now: int, after: State)
    requires Unticked(st, now) && Driven(after.row)
    requires after.entries == st.entries && after.live == st.live && after.cards == st.cards && after.lookup == st.lookup
    ensures Unticked(after, now)
  {
    hide Driven, Tidy, StartsLater, OperatorOff;
  }

  lemma UnfiredIsUnchanged(st: State, now: int, answer: seq<AgCard>)
    requires AtRest(st, now) && AllSettled(st) && !Fired(st, now, answer)
    ensures forall lookup :: CycleTo(st, now, answer, lookup).entries == st.entries && CycleTo(st, now, answer, lookup).live == st.live
  {
    hide DesiredStatus, SeosCredential, SwitchAllowed;
    assert Gated(st.entries, st.live, Cred(st, now).status, answer) == st.entries;
    assert CreditEach(st.entries, {}) == st.entries;
    forall c ensures SentFor(st.entries, c) == None {
      NoneSendable(st.entries, c);
    }
  }

  lemma {:induction false} NoneSendable(entries: seq<Entry>, card: Card)
    requires forall e <- entries :: !Sendable(e)
    ensures SentFor(entries, card) == None
  {
    if entries != [] {
      NoneSendable(entries[1..], card);
    }
  }

  lemma UntickedIsSuspended(st: State, now: int)
    requires Unticked(st, now)
    ensures CallOf(st, now) == SuspendIt && !Fired(st, now, st.cards)
  {
    hide DesiredStatus, SeosCredential;
    StatusAtRest(st, now);
    var e :| e in st.entries && OperatorOff(e, st.live);
    assert !AllOn(st) && !OffByUs(st);
    assert "active" != "suspended" && "active" != "created" by { assert |"active"| == 6 && |"created"| == 7 && |"suspended"| == 9; }
  }
}

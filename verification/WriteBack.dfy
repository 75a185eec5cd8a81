/** Where AccessGrid's cards are put on a cardholder. */
module WriteBack {
  import opened Base
  import opened Order
  import opened Export
  import opened Pacs
  import opened Ledger

  /** Refuse: False, nothing changes. Keep: True, nothing changes. */
  datatype Plan = Refuse | Keep | Add(entries: seq<Entry>)

  /** What the adapter knows when a pass's cards are offered. */
  datatype Context = Context(
    entries: seq<Entry>,           // this pass's recorded cards
    taken: set<nat>,               // slots recorded for any pass of this person
    slots: seq<Slot>,              // the cardholder's slots in the export
    onHolders: set<Card>,          // every card on any cardholder in the export
    pair: bool)

  predicate IsWatch(i: Identity) {
    Contains(Lower(i.deviceType), "watch")
  }

  function Trigger(entries: seq<Entry>): (r: Option<Entry>)
    ensures r.Some? ==> r.value in entries && r.value.pending == Write
    ensures r.None? ==> forall e <- entries :: e.pending != Write
  {
    if entries == [] then None
    else if entries[0].pending == Write then Some(entries[0])
    else Trigger(entries[1..])
  }

  /** Offered, and not recorded for this pass yet. */
  function Unseen(c: Context, identities: seq<Identity>): seq<Identity> {
    Filter((i: Identity) => i.card !in Cards(c.entries), identities)
  }

  /** A just-issued pass's first card; beyond that a pair's second, or a watch. */
  function Chosen(c: Context, unseen: seq<Identity>): seq<Identity>
    requires unseen != []
  {
    var first := if Trigger(c.entries).Some? then unseen[..1] else [];
    var rest := if Trigger(c.entries).Some? then unseen[1..] else unseen;
    first + if Trigger(c.entries).Some? && c.pair then rest else Filter(IsWatch, rest)
  }

  function EmptySlots(slots: seq<Slot>, taken: set<nat>): seq<nat> {
    if slots == [] then []
    else
      EmptySlots(slots[..|slots| - 1], taken) +
      if slots[|slots| - 1].Empty() && slots[|slots| - 1].index !in taken then [slots[|slots| - 1].index] else []
  }

  function Room(c: Context): seq<nat> {
    (if Trigger(c.entries).Some? then [Trigger(c.entries).value.slot] else []) + EmptySlots(c.slots, c.taken)
  }

  function NewEntry(i: Identity, slot: nat): Entry {
    Entry(slot, i.card, None, Insert, false)
  }

  function Inserts(chosen: seq<Identity>, room: seq<nat>): (r: seq<Entry>)
    requires |chosen| <= |room|
    ensures |r| == |chosen| && forall k | 0 <= k < |r| :: r[k] == NewEntry(chosen[k], room[k])
  {
    seq(|chosen|, k requires 0 <= k < |chosen| => NewEntry(chosen[k], room[k]))
  }

  function Decide(c: Context, identities: seq<Identity>): Plan {
    if c.entries == [] then Refuse
    else if Trigger(c.entries).None? && (forall i <- identities :: i.card !in Cards(c.entries)) then Refuse
    else if Unseen(c, identities) == [] then Keep
    else if exists i <- Unseen(c, identities) :: i.card in c.onHolders then Refuse
    else
      var chosen := Chosen(c, Unseen(c, identities));
      if chosen == [] then Keep
      else if (exists e <- c.entries :: e.pending == Insert) || |chosen| > |Room(c)| then Refuse
      else Add(c.entries + Inserts(chosen, Room(c)))
  }

  // ---- what the plan may do ----

  lemma {:induction false} EmptySlotsAre(slots: seq<Slot>, taken: set<nat>)
    requires DistinctSlots(slots)
    ensures forall i, j | 0 <= i < j < |EmptySlots(slots, taken)| :: EmptySlots(slots, taken)[i] != EmptySlots(slots, taken)[j]
    ensures forall n :: n in EmptySlots(slots, taken) <==> n !in taken && exists s <- slots :: s.Empty() && s.index == n
  {
    if slots != [] {
      var front, last := slots[..|slots| - 1], slots[|slots| - 1];
      EmptySlotsAre(front, taken);
      assert slots == front + [last];
      assert forall s <- front :: s.index != last.index;
      forall n ensures n in EmptySlots(slots, taken) <==> n !in taken && exists s <- slots :: s.Empty() && s.index == n {
        if s :| s in front && s.Empty() && s.index == n {
          assert s in slots;
        }
      }
    }
  }

  /** The slots recorded for the person include this pass's own. */
  predicate KnowsItsOwn(c: Context) {
    forall e <- c.entries :: e.slot in c.taken
  }

  /** Allocation is safe: distinct slots, each the trigger card's or one that is
      empty in the export and unrecorded; and no card that anybody holds. */
  lemma AllocatesSafely(c: Context, identities: seq<Identity>)
    requires DistinctSlots(c.slots) && KnowsItsOwn(c) && Decide(c, identities).Add?
    ensures var added := Decide(c, identities).entries[|c.entries|..];
            && c.entries <= Decide(c, identities).entries
            && (forall i, j | 0 <= i < j < |added| :: added[i].slot != added[j].slot)
            && (forall i | 0 <= i < |added| ::
                  && added[i].pending == Insert && added[i].active == None
                  && added[i].card !in c.onHolders && added[i].card !in Cards(c.entries)
                  && (exists o <- identities :: o.card == added[i].card)
                  && ((i == 0 && Trigger(c.entries).Some? && added[i].slot == Trigger(c.entries).value.slot)
                      || (added[i].slot !in c.taken && exists s <- c.slots :: s.Empty() && s.index == added[i].slot)))
    ensures forall e <- c.entries :: e.pending != Insert
  {
    var chosen, room := Chosen(c, Unseen(c, identities)), Room(c);
    var added := Inserts(chosen, room);
    assert Decide(c, identities).entries[|c.entries|..] == added;
    RoomIsFree(c);
    ChosenAreUnseen(c, identities);
    forall i | 0 <= i < |added|
      ensures added[i].card == chosen[i].card && chosen[i] in identities && added[i].slot == room[i]
    {
    }
  }

  lemma RoomIsFree(c: Context)
    requires DistinctSlots(c.slots) && KnowsItsOwn(c)
    ensures forall i, j | 0 <= i < j < |Room(c)| :: Room(c)[i] != Room(c)[j]
    ensures forall i | 0 <= i < |Room(c)| ::
              (i == 0 && Trigger(c.entries).Some? && Room(c)[i] == Trigger(c.entries).value.slot)
              || (Room(c)[i] !in c.taken && exists s <- c.slots :: s.Empty() && s.index == Room(c)[i])
  {
    var empty := EmptySlots(c.slots, c.taken);
    EmptySlotsAre(c.slots, c.taken);
    var lead := if Trigger(c.entries).Some? then 1 else 0;
    forall i | lead <= i < |Room(c)|
      ensures Room(c)[i] == empty[i - lead] && Room(c)[i] in empty
    {
    }
  }

  lemma ChosenAreUnseen(c: Context, identities: seq<Identity>)
    requires Unseen(c, identities) != []
    ensures forall i <- Chosen(c, Unseen(c, identities)) :: i in identities && i.card !in Cards(c.entries) && i in Unseen(c, identities)
  {
    var unseen := Unseen(c, identities);
    var rest := if Trigger(c.entries).Some? then unseen[1..] else unseen;
    forall i | i in Chosen(c, unseen)
      ensures i in unseen
    {
      assert i in unseen[..1] || i in rest;
    }
  }

  /** A pass none of whose cards were recorded is never written, nor one whose offered cards are
      all strangers to it; what is already recorded is never offered room twice. */
  lemma WritesOnlyBesideItsOwn(c: Context, identities: seq<Identity>)
    ensures Decide(c, identities).Add? ==>
              && c.entries != [] && Unseen(c, identities) != []
              && (Trigger(c.entries).Some? || exists i <- identities :: i.card in Cards(c.entries))
    ensures c.entries != [] && (Trigger(c.entries).Some? || identities != []) && (forall i <- identities :: i.card in Cards(c.entries)) ==>
              Decide(c, identities).Keep?
  {
    if c.entries != [] && forall i <- identities :: i.card in Cards(c.entries) {
      NothingIn(Unseen(c, identities));
      if identities != [] { assert identities[0] in identities; }
    }
  }

  /** Which of the offered cards are added: beside the trigger card, the first unrecorded one
      and every one of a pair's; otherwise, and beyond it, watches only. */
  lemma AddsFirstPairAndWatches(c: Context, identities: seq<Identity>, i: Identity)
    requires Decide(c, identities).Add? && i in Unseen(c, identities)
    ensures var added := Decide(c, identities).entries[|c.entries|..];
            && ((exists e <- added :: e.card == i.card) <==>
                 exists o <- Unseen(c, identities) :: o.card == i.card
                   && (IsWatch(o) || (Trigger(c.entries).Some? && (c.pair || o == Unseen(c, identities)[0]))))
            && (Trigger(c.entries).Some? ==>
                  |added| > 0 && added[0].card == Unseen(c, identities)[0].card && added[0].slot == Trigger(c.entries).value.slot)
  {
    hide Cards;
    var unseen := Unseen(c, identities);
    var chosen, room := Chosen(c, unseen), Room(c);
    assert Decide(c, identities).entries[|c.entries|..] == Inserts(chosen, room);
    ChosenIs(c, unseen);
    hide Decide, Chosen, Room, Unseen, IsWatch;
    InsertsCarry(chosen, room, i.card);
  }

  lemma InsertsCarry(chosen: seq<Identity>, room: seq<nat>, card: Card)
    requires |chosen| <= |room|
    ensures (exists e <- Inserts(chosen, room) :: e.card == card) <==> exists o <- chosen :: o.card == card
  {
    var added := Inserts(chosen, room);
    if o :| o in chosen && o.card == card {
      var k :| 0 <= k < |chosen| && chosen[k] == o;
      assert added[k] in added && added[k].card == card;
    }
    if e :| e in added && e.card == card {
      var k :| 0 <= k < |added| && added[k] == e;
      assert chosen[k] in chosen;
    }
  }

  lemma ChosenIs(c: Context, unseen: seq<Identity>)
    requires unseen != []
    ensures forall o :: o in Chosen(c, unseen) <==>
              o in unseen && (IsWatch(o) || (Trigger(c.entries).Some? && (c.pair || o == unseen[0])))
    ensures Trigger(c.entries).Some? ==> |Chosen(c, unseen)| > 0 && Chosen(c, unseen)[0] == unseen[0]
  {
    hide IsWatch;
    assert unseen == unseen[..1] + unseen[1..] && unseen[..1] == [unseen[0]];
  }

  // ---- how an offer is answered ----

  /** The cards offered that the pass has none of, in the order offered. */
  function NotYetTheirs(c: Context, identities: seq<Identity>): seq<Identity> {
    Filter((i: Identity) => forall e <- c.entries :: e.card != i.card, identities)
  }

  predicate JustIssued(c: Context) {
    exists e <- c.entries :: e.pending == Write
  }

  /** How many of them go in: all of a just-issued pair's; of any other just-issued pass the first, and the
      watches after it; else the watches. */
  function ToWrite(c: Context, identities: seq<Identity>): nat {
    var more := NotYetTheirs(c, identities);
    if more == [] then 0
    else if !JustIssued(c) then |Filter((i: Identity) => Contains(Lower(i.deviceType), "watch"), more)|
    else if c.pair then |more|
    else 1 + |Filter((i: Identity) => Contains(Lower(i.deviceType), "watch"), more[1..])|
  }

  /** Empty in the export, and recorded for none of the person's passes. */
  function FreeSlots(c: Context): seq<Slot> {
    Filter((s: Slot) => s.card.number == "" && s.index !in c.taken, c.slots)
  }

  /** Something is known of the pass the offer is for: it was just issued, or a card offered is one of its. */
  predicate IsTheirs(c: Context, identities: seq<Identity>) {
    c.entries != [] && (JustIssued(c) || exists i <- identities, e <- c.entries :: e.card == i.card)
  }

  predicate HeldByNobody(c: Context, identities: seq<Identity>) {
    forall i <- NotYetTheirs(c, identities) :: i.card !in c.onHolders
  }

  /** No card of the pass waits to be inserted, and there is a slot for each: the trigger card's, and free ones. */
  predicate Fits(c: Context, identities: seq<Identity>) {
    (forall e <- c.entries :: e.pending != Insert) && ToWrite(c, identities) <= |FreeSlots(c)| + if JustIssued(c) then 1 else 0
  }

  lemma {:induction false} EmptyAreFree(slots: seq<Slot>, taken: set<nat>)
    ensures var free := Filter((s: Slot) => s.card.number == "" && s.index !in taken, slots);
            |EmptySlots(slots, taken)| == |free| && forall k | 0 <= k < |free| :: EmptySlots(slots, taken)[k] == free[k].index
  {
    if slots != [] {
      EmptyAreFree(slots[..|slots| - 1], taken);
    }
  }

  lemma UnseenAreNotTheirs(c: Context, identities: seq<Identity>)
    ensures Unseen(c, identities) == NotYetTheirs(c, identities)
  {
    FilterAgrees((i: Identity) => i.card !in Cards(c.entries), (i: Identity) => forall e <- c.entries :: e.card != i.card, identities);
  }

  lemma ChosenAreToWrite(c: Context, identities: seq<Identity>)
    requires Unseen(c, identities) != []
    ensures |Chosen(c, Unseen(c, identities))| == ToWrite(c, identities)
  {
    UnseenAreNotTheirs(c, identities);
    var unseen := Unseen(c, identities);
    FilterAgrees(IsWatch, (i: Identity) => Contains(Lower(i.deviceType), "watch"), unseen);
    FilterAgrees(IsWatch, (i: Identity) => Contains(Lower(i.deviceType), "watch"), unseen[1..]);
  }

  /** An offer is added to the pass exactly when it is theirs, nobody holds a card of it, and there is
      something to write and room for all of it; it is kept as it is where there is nothing to write; and
      refused otherwise. */
  lemma OfferIsAnswered(c: Context, identities: seq<Identity>)
    ensures Decide(c, identities).Add? <==>
              IsTheirs(c, identities) && HeldByNobody(c, identities) && ToWrite(c, identities) > 0 && Fits(c, identities)
    ensures Decide(c, identities).Keep? <==> IsTheirs(c, identities) && HeldByNobody(c, identities) && ToWrite(c, identities) == 0
    ensures Decide(c, identities).Add? ==> |Decide(c, identities).entries| == |c.entries| + ToWrite(c, identities)
  {
    hide Chosen, EmptySlots, IsWatch, Unseen;
    UnseenAreNotTheirs(c, identities);
    EmptyAreFree(c.slots, c.taken);
    if Unseen(c, identities) != [] {
      ChosenAreToWrite(c, identities);
    }
    assert (exists i <- identities, e <- c.entries :: e.card == i.card) <==> !forall i <- identities :: i.card !in Cards(c.entries);
  }

  /** And the cards are put, in order, into the slot of the first trigger card, and the free slots as they come. */
  lemma OfferIsPlaced(c: Context, identities: seq<Identity>, k: nat)
    requires Decide(c, identities).Add? && k < ToWrite(c, identities)
    ensures var after := Decide(c, identities).entries;
            && |after| == |c.entries| + ToWrite(c, identities) && after[..|c.entries|] == c.entries
            && var more := after[|c.entries| + k];
               && more == Entry(more.slot, more.card, None, Insert, false)
               && (JustIssued(c) && k > 0 ==> k <= |FreeSlots(c)| && more.slot == FreeSlots(c)[k - 1].index)
               && (!JustIssued(c) ==> k < |FreeSlots(c)| && more.slot == FreeSlots(c)[k].index)
               && (k == 0 ==> forall m | 0 <= m < |c.entries| && c.entries[m].pending == Write && (forall j | 0 <= j < m :: c.entries[j].pending != Write) ::
                                more.slot == c.entries[m].slot)
  {
    hide EmptySlots, IsWatch, Unseen, Chosen, Trigger, NotYetTheirs, FreeSlots, ToWrite, JustIssued, Room, Inserts;
    OfferIsAnswered(c, identities);
    ChosenAreToWrite(c, identities);
    RoomIs(c, k);
    var chosen, room := Chosen(c, Unseen(c, identities)), Room(c);
    assert Decide(c, identities).entries == c.entries + Inserts(chosen, room);
    assert Decide(c, identities).entries[|c.entries| + k] == Inserts(chosen, room)[k] == NewEntry(chosen[k], room[k]);
  }

  lemma RoomIs(c: Context, k: nat)
    requires k < |Room(c)|
    ensures JustIssued(c) && k > 0 ==> k <= |FreeSlots(c)| && Room(c)[k] == FreeSlots(c)[k - 1].index
    ensures !JustIssued(c) ==> k < |FreeSlots(c)| && Room(c)[k] == FreeSlots(c)[k].index
    ensures k == 0 ==> forall m | 0 <= m < |c.entries| && c.entries[m].pending == Write && (forall j | 0 <= j < m :: c.entries[j].pending != Write) ::
                         Room(c)[k] == c.entries[m].slot
  {
    hide EmptySlots, Trigger;
    EmptyAreFree(c.slots, c.taken);
    TriggerIsFirst(c.entries);
  }

  lemma {:induction false} TriggerIsFirst(entries: seq<Entry>)
    ensures forall m | 0 <= m < |entries| && entries[m].pending == Write && (forall j | 0 <= j < m :: entries[j].pending != Write) ::
              Trigger(entries) == Some(entries[m])
  {
    if entries != [] {
      TriggerIsFirst(entries[1..]);
      forall m | 1 <= m < |entries| && entries[m].pending == Write && (forall j | 0 <= j < m :: entries[j].pending != Write)
        ensures Trigger(entries) == Some(entries[m])
      {
        assert entries[1..][m - 1] == entries[m];
        assert forall j | 0 <= j < m - 1 :: entries[1..][j] == entries[j + 1];
      }
    }
  }

  /** While a card of the pass waits to be inserted, nothing more is added, whatever is offered. */
  lemma WaitingAddsNothing(c: Context, identities: seq<Identity>)
    requires exists e <- c.entries :: e.pending == Insert
    ensures !Decide(c, identities).Add?
  {
  }

  /** Offering again after an addition changes nothing, for any device types and pair flag. */
  lemma OfferedAgain(c: Context, identities: seq<Identity>, again: Context, more: seq<Identity>)
    requires Distinct(c.entries) && Decide(c, identities).Add?
    requires again.entries == Stored(c.entries, Decide(c, identities).entries)
    ensures !Decide(again, more).Add?
  {
    var offered := Decide(c, identities).entries;
    RecordKeepsLastPerCard(c.entries, offered);
    var last := offered[|offered| - 1];
    assert last.pending == Insert && LastOfItsCard(offered, last) && last in offered;
    assert Filled(c.entries, last) in again.entries;
    WaitingAddsNothing(again, more);
  }

  // ---- the decision as the adapter makes it ----

  method ChooseWatches(offered: seq<Identity>) returns (kept: seq<Identity>)
    ensures kept == Filter(IsWatch, offered)
  {
    kept := [];
    for i := 0 to |offered|
      invariant kept == Filter(IsWatch, offered[..i])
    {
      FilterStep(IsWatch, offered[..i], offered[i]);
      assert offered[..i + 1] == offered[..i] + [offered[i]];
      if IsWatch(offered[i]) {
        kept := kept + [offered[i]];
      }
    }
    assert offered[..|offered|] == offered;
  }

  method FindEmptySlots(slots: seq<Slot>, taken: set<nat>) returns (empty: seq<nat>)
    ensures empty == EmptySlots(slots, taken)
  {
    empty := [];
    for k := 0 to |slots|
      invariant empty == EmptySlots(slots[..k], taken)
    {
      assert slots[..k + 1][..k] == slots[..k];
      if slots[k].Empty() && slots[k].index !in taken {
        empty := empty + [slots[k].index];
      }
    }
    assert slots[..|slots|] == slots;
  }

  method AnyHeld(offered: seq<Identity>, onHolders: set<Card>) returns (held: bool)
    ensures held <==> exists i <- offered :: i.card in onHolders
  {
    for k := 0 to |offered|
      invariant forall j | 0 <= j < k :: offered[j].card !in onHolders
    {
      if offered[k].card in onHolders {
        assert offered[k] in offered;
        return true;
      }
    }
    return false;
  }

  method PlanWriteBack(c: Context, identities: seq<Identity>) returns (plan: Plan)
    ensures plan == Decide(c, identities)
    ensures plan.Add? <==> IsTheirs(c, identities) && HeldByNobody(c, identities) && ToWrite(c, identities) > 0 && Fits(c, identities)
    ensures plan.Keep? <==> IsTheirs(c, identities) && HeldByNobody(c, identities) && ToWrite(c, identities) == 0
  {
    hide IsTheirs, HeldByNobody, ToWrite, Fits;
    OfferIsAnswered(c, identities);
    var trigger := Trigger(c.entries);
    if c.entries == [] {
      return Refuse;
    }
    var recorded := Cards(c.entries);
    if trigger.None? && forall i <- identities :: i.card !in recorded {
      return Refuse;
    }
    var unseen := Unseen(c, identities);
    if unseen == [] {
      return Keep;
    }
    var held := AnyHeld(unseen, c.onHolders);
    if held {
      return Refuse;
    }
    var first: seq<Identity>, rest := [], unseen;
    if trigger.Some? {
      first, rest := unseen[..1], unseen[1..];
    }
    if !(trigger.Some? && c.pair) {
      rest := ChooseWatches(rest);
    }
    var chosen := first + rest;
    assert chosen == Chosen(c, unseen);
    plan := Allocate(c, chosen);
  }

  method Allocate(c: Context, chosen: seq<Identity>) returns (plan: Plan)
    ensures plan == if chosen == [] then Keep
                    else if (exists e <- c.entries :: e.pending == Insert) || |chosen| > |Room(c)| then Refuse
                    else Add(c.entries + Inserts(chosen, Room(c)))
  {
    if chosen == [] {
      return Keep;
    }
    var trigger := Trigger(c.entries);
    var empty := FindEmptySlots(c.slots, c.taken);
    var room := (if trigger.Some? then [trigger.value.slot] else []) + empty;
    if (exists e <- c.entries :: e.pending == Insert) || |chosen| > |room| {
      return Refuse;
    }
    var entries := c.entries;
    for k := 0 to |chosen|
      invariant entries == c.entries + Inserts(chosen, room)[..k]
    {
      entries := entries + [NewEntry(chosen[k], room[k])];
    }
    return Add(entries);
  }
}

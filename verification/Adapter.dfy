/** The Millennium Ultra adapter: its methods, over the ledger and one cycle's export. */
module Adapter {
  import opened Base
  import opened Export
  import opened Pacs
  import opened Ledger
  import opened SeosStatus
  import opened CardChanges
  import opened WriteBack
  import opened Flush
  import opened ImportFile
  import opened PersonLedger
  import opened Decisions
  import opened CardImport
  import Reading
  import ReadingRecords
  import CardholderReads
  import opened CycleFlush

  datatype ExportRow = ExportRow(employeeId: string, holder: Cardholder)

  function CountOf(rows: seq<ExportRow>, id: string): nat {
    if rows == [] then 0 else CountOf(rows[..|rows| - 1], id) + if rows[|rows| - 1].employeeId == id then 1 else 0
  }

  /** Counted once is carried by one row, and no other. */
  lemma {:induction false} CountedOnce(rows: seq<ExportRow>, id: string)
    ensures CountOf(rows, id) == 0 <==> forall r <- rows :: r.employeeId != id
    ensures CountOf(rows, id) == 1 <==>
              exists i | 0 <= i < |rows| :: rows[i].employeeId == id && forall j | 0 <= j < |rows| && j != i :: rows[j].employeeId != id
  {
    if rows != [] {
      var front, last := rows[..|rows| - 1], rows[|rows| - 1];
      assert rows == front + [last];
      CountedOnce(front, id);
      if last.employeeId == id {
        assert (forall r <- front :: r.employeeId != id) <==> forall j | 0 <= j < |front| :: rows[j].employeeId != id;
      } else if CountOf(front, id) == 1 {
        var i :| 0 <= i < |front| && front[i].employeeId == id && forall j | 0 <= j < |front| && j != i :: front[j].employeeId != id;
        assert rows[i].employeeId == id && forall j | 0 <= j < |rows| && j != i :: rows[j].employeeId != id;
      }
    }
  }

  /** The one row carrying an id. */
  function RowOf(rows: seq<ExportRow>, id: string): (h: Cardholder)
    requires CountOf(rows, id) >= 1
    ensures ExportRow(id, h) in rows
  {
    if rows[|rows| - 1].employeeId == id then rows[|rows| - 1].holder else RowOf(rows[..|rows| - 1], id)
  }

  predicate OnlyRow(rows: seq<ExportRow>, id: string, holder: Cardholder) {
    exists i | 0 <= i < |rows| :: rows[i] == ExportRow(id, holder) && forall j | 0 <= j < |rows| && j != i :: rows[j].employeeId != id
  }

  lemma RowIsOnly(rows: seq<ExportRow>, id: string)
    requires CountOf(rows, id) == 1
    ensures OnlyRow(rows, id, RowOf(rows, id))
  {
    CountedOnce(rows, id);
    var i :| 0 <= i < |rows| && rows[i].employeeId == id && forall j | 0 <= j < |rows| && j != i :: rows[j].employeeId != id;
    var row := ExportRow(id, RowOf(rows, id));
    assert row in rows;
    var k :| 0 <= k < |rows| && rows[k] == row;
    assert k == i;
  }

  function ContextFor(t: Table, holders: Holders, k: Key, pair: bool): Context
    requires k.person in holders
  {
    Context(Entries(t, k), TakenSlots(t, k.person), holders[k.person].slots, CardsOn(holders), pair)
  }

  lemma ElsewhereIs(t: Table, person: string)
    ensures forall c :: c in CardsElsewhere(t, person) <==> !forall k <- t, e <- t[k] :: k.person != person ==> e.card != c
  {
  }

  lemma ContextIs(t: Table, holders: Holders, k: Key, pair: bool)
    requires k.person in holders
    ensures ContextFor(t, holders, k, pair) ==
            Context(if k in t then t[k] else [], set x, e | x in t && x.person == k.person && e in t[x] :: e.slot, holders[k.person].slots,
                    set p, s | p in holders && s in holders[p].slots && s.card.number != "" :: s.card, pair)
  {
    assert TakenSlots(t, k.person) == set x, e | x in t && x.person == k.person && e in t[x] :: e.slot;
    assert CardsOn(holders) == set p, s | p in holders && s in holders[p].slots && s.card.number != "" :: s.card;
  }

  /** write_back_credentials as a function of the ledger. */
  function OfferedTo(t: Table, holders: Holders, k: Key, pair: bool, identities: seq<Identity>): Plan {
    if k.person in holders then Decide(ContextFor(t, holders, k, pair), identities) else Refuse
  }

  function AfterOffer(t: Table, k: Key, plan: Plan): Table {
    if plan.Add? then Recorded(t, k, plan.entries) else t
  }

  /** Offering a pass's cards again in the same cycle leaves the ledger as the first
      offer left it, whatever is offered and whatever the pair flag. */
  lemma OfferedTwice(t: Table, holders: Holders, k: Key, pair: bool, identities: seq<Identity>, pairAgain: bool, more: seq<Identity>)
    requires WellKeptTable(t) && OfferedTo(t, holders, k, pair, identities).Add?
    ensures var t1 := AfterOffer(t, k, OfferedTo(t, holders, k, pair, identities));
            AfterOffer(t1, k, OfferedTo(t1, holders, k, pairAgain, more)) == t1
  {
    var c := ContextFor(t, holders, k, pair);
    var t1 := AfterOffer(t, k, Decide(c, identities));
    RecordIsWellKept(t, k, Decide(c, identities).entries);
    assert Distinct(c.entries) by { assert k in t ==> WellKept(t[k]); }
    OfferedAgain(c, identities, ContextFor(t1, holders, k, pairAgain), more);
  }

  /** Every inserted card has a slot of its own: the trigger card's, or one empty on the
      cardholder and recorded for none of their passes. */
  lemma OfferIsSafe(t: Table, holders: Holders, k: Key, pair: bool, identities: seq<Identity>)
    requires OfferedTo(t, holders, k, pair, identities).Add? && DistinctSlots(holders[k.person].slots)
    ensures var before := Entries(t, k);
            var added := OfferedTo(t, holders, k, pair, identities).entries[|before|..];
            && (forall i, j | 0 <= i < j < |added| :: added[i].slot != added[j].slot)
            && (forall i | 0 <= i < |added| :: added[i].card !in CardsOn(holders) && added[i].card !in Cards(before))
            && (forall i | 0 <= i < |added| ::
                  (i == 0 && Trigger(before).Some? && added[i].slot == Trigger(before).value.slot)
                  || (added[i].slot !in TakenSlots(t, k.person)
                      && exists s <- holders[k.person].slots :: s.Empty() && s.index == added[i].slot))
  {
    var c := ContextFor(t, holders, k, pair);
    assert KnowsItsOwn(c) by {
      assert k in t ==> forall e <- t[k] :: e.slot in TakenSlots(t, k.person);
    }
    AllocatesSafely(c, identities);
  }

  /** What the adapter makes of the ledger when told something. */
  function LedgerAfter(t: Ledger.Table, holders: Holders, pair: bool, call: PacsCall): Ledger.Table {
    match call
    case WriteBack(k, identities) => AfterOffer(t, k, OfferedTo(t, holders, k, pair, identities))
    case SetStatus(k, want) =>
      if k.person in holders && SwitchAllowed(Entries(t, k), Present(holders[k.person].slots), want)
      then t[k := Switched(Entries(t, k), Present(holders[k.person].slots), want)] else t
    case Retire(k, identities, _) =>
      if k in t then t[k := Retired(t[k], set i <- identities :: i.card)] else t
  }

  class MillenniumAdapter {
    const cards: PacsCards
    const client: Millennium
    const triggerFormat: string
    const seos: bool
    const pair: bool
    var holders: Holders
    var ours: set<string>

    constructor (cards: PacsCards, client: Millennium, triggerFormat: string, seos: bool, pair: bool)
      ensures this.cards == cards && this.client == client
      ensures this.triggerFormat == triggerFormat && this.seos == seos && this.pair == pair
      ensures holders == map[] && ours == {}
    {
      this.cards, this.client, this.triggerFormat, this.seos, this.pair := cards, client, triggerFormat, seos, pair;
      holders, ours := map[], {};
    }

    /** Everyone whose Employee ID names exactly one cardholder; None is an error raised. */
    method ListPeople(rows: seq<ExportRow>) returns (people: Option<set<string>>)
      modifies this
      ensures people.None? <==> triggerFormat == "" || rows == []
      ensures people.None? ==> holders == old(holders) && ours == old(ours)
      ensures people.Some? ==> people.value == holders.Keys && ours == RecordedPeople(cards.table)
      ensures people.Some? ==> forall id :: id in holders <==> id != "" && CountOf(rows, id) == 1
      ensures people.Some? ==> forall id <- holders :: holders[id] == RowOf(rows, id) && OnlyRow(rows, id, holders[id])
    {
      if triggerFormat == "" || rows == [] {
        return None;
      }
      var once: Holders, twice: set<string> := map[], {};
      for i := 0 to |rows|
        invariant forall id :: id in once <==> id != "" && CountOf(rows[..i], id) == 1
        invariant forall id :: id in twice <==> id != "" && CountOf(rows[..i], id) > 1
        invariant forall id <- once :: once[id] == RowOf(rows[..i], id)
      {
        assert rows[..i + 1][..i] == rows[..i];
        var id := rows[i].employeeId;
        if id == "" || id in twice {
        } else if id in once {
          once, twice := once - {id}, twice + {id};
        } else {
          once := once[id := rows[i].holder];
        }
      }
      assert rows[..|rows|] == rows;
      forall id | id in once ensures OnlyRow(rows, id, once[id]) {
        hide CountOf, OnlyRow;
        RowIsOnly(rows, id);
      }
      hide OnlyRow;
      holders, ours := once, RecordedPeople(cards.table);
      people := Some(holders.Keys);
    }

    function ReaderFor(person: string, tracked: set<string>, slotIds: set<string>, now: int, t: Table): Reading.Reader
      requires person in holders
      reads this
    {
      Reading.Reader(triggerFormat, seos, pair, holders[person].slots, tracked, slotIds, CardsElsewhere(t, person), now)
    }

    /** None when the cardholder is not in this cycle's export: unread is not empty. */
    method ListCredentials(person: string, tracked: set<string>, slotIds: set<string>, now: int)
      returns (credentials: Option<seq<Credential>>)
      requires WellKeptTable(cards.table)
      modifies cards
      ensures WellKeptTable(cards.table) && OthersOf(cards.table, person) == old(OthersOf(cards.table, person))
      ensures person !in holders ==> credentials == None && cards.table == old(cards.table)
      ensures person in holders ==>
                var reading := Reading.Read(ReaderFor(person, tracked, slotIds, now, old(cards.table)),
                                            person in ours, old(PersonBook(cards.table, person)));
                credentials == Some(reading.credentials) && PersonBook(cards.table, person) == reading.book
      ensures person in holders && DistinctSlots(holders[person].slots) && old(PersonBook(cards.table, person)) == map[] && (seos || slotIds == {}) ==>
                && (tracked != {} ==> credentials == Some([]) && PersonBook(cards.table, person) == map[])
                && forall i | 0 <= i < |holders[person].slots| ::
                     var slots, book := holders[person].slots, PersonBook(cards.table, person);
                     (exists id <- book :: book[id] == [Entry(slots[i].index, slots[i].card, None, if seos then Write else Settled, false)]) <==>
                       && triggerFormat != "" && slots[i].format == triggerFormat && slots[i].card.number != "" && tracked == {}
                       && (seos && pair ==> exists s <- slots :: s.card.number == "")
                       && exists j | 0 <= j <= i ::
                            && slots[j].format == triggerFormat && slots[j].card.number != ""
                            && forall k <- old(cards.table), e <- old(cards.table)[k] :: k.person != person ==> e.card != slots[j].card
    {
      hide Reading.Read, DistinctSlots, CardsElsewhere, WellKept;
      if person !in holders {
        return None;
      }
      var r := ReaderFor(person, tracked, slotIds, now, cards.table);
      ElsewhereIs(cards.table, person);
      ReadingRecords.NothingRecordedReads(r, person in ours);
      var out := CardholderReads.ReadCardholder(cards, person, r, person in ours);
      credentials := Some(out);
    }

    method UpdateCredentialStatus(k: Key, want: bool) returns (ok: bool)
      requires WellKeptTable(cards.table)
      modifies cards
      ensures WellKeptTable(cards.table)
      ensures ok == (k.person in holders && SwitchAllowed(Entries(old(cards.table), k), Present(holders[k.person].slots), want))
      ensures cards.table == if ok then old(cards.table)[k := Switched(old(cards.table)[k], Present(holders[k.person].slots), want)]
                             else old(cards.table)
      ensures cards.table == LedgerAfter(old(cards.table), holders, pair, PacsCall.SetStatus(k, want))
    {
      var entries := cards.Get(k);
      if k.person !in holders || entries == [] {
        return false;
      }
      var changed;
      ok, changed := SwitchCards(entries, holders[k.person].slots, want);
      if ok {
        assert WellKept(entries);
        SwitchedKeepsCards(entries, Present(holders[k.person].slots), want);
        RecordIsWellKept(cards.table, k, changed);
        cards.Record(k, changed);
      }
    }

    method RetireCredentials(k: Key, identities: seq<Identity>) returns (marked: nat)
      requires WellKeptTable(cards.table)
      modifies cards
      ensures WellKeptTable(cards.table)
      ensures var gone := set i <- identities :: i.card;
              && marked == CountRetirable(Entries(old(cards.table), k), gone)
              && cards.table == if k in old(cards.table) then old(cards.table)[k := Retired(old(cards.table)[k], gone)] else old(cards.table)
      ensures cards.table == LedgerAfter(old(cards.table), holders, pair, PacsCall.Retire(k, identities, Some(marked)))
    {
      hide Stored, CountRetirable, Distinct, SlotSorted, Retired;
      var gone := set i <- identities :: i.card;
      var entries := cards.Get(k);
      assert entries != [] ==> WellKept(entries);
      var changed;
      marked, changed := MarkForDeletion(entries, gone);
      RetiredKeepsCards(entries, gone);
      if marked > 0 {
        RecordIsWellKept(cards.table, k, changed);
        cards.Record(k, changed);
      }
    }

    method WriteBackCredentials(k: Key, identities: seq<Identity>) returns (ok: bool)
      requires WellKeptTable(cards.table)
      modifies cards
      ensures WellKeptTable(cards.table)
      ensures var plan := OfferedTo(old(cards.table), holders, k, pair, identities);
              ok == !plan.Refuse? && cards.table == AfterOffer(old(cards.table), k, plan)
      ensures cards.table == LedgerAfter(old(cards.table), holders, pair, PacsCall.WriteBack(k, identities))
      ensures k.person !in holders ==> !ok
      ensures k.person in holders ==>
                var c := Context(if k in old(cards.table) then old(cards.table)[k] else [],
                                 set x, e | x in old(cards.table) && x.person == k.person && e in old(cards.table)[x] :: e.slot,
                                 holders[k.person].slots,
                                 set p, s | p in holders && s in holders[p].slots && s.card.number != "" :: s.card, pair);
                && (ok <==> IsTheirs(c, identities) && HeldByNobody(c, identities) && (ToWrite(c, identities) == 0 || Fits(c, identities)))
                && (!ok || ToWrite(c, identities) == 0 ==> cards.table == old(cards.table))
    {
      hide IsTheirs, HeldByNobody, ToWrite, Fits, Decide, Stored;
      if k.person !in holders {
        return false;
      }
      ContextIs(cards.table, holders, k, pair);
      var plan := PlanWriteBack(ContextFor(cards.table, holders, k, pair), identities);
      if plan.Add? {
        RecordIsWellKept(cards.table, k, plan.entries);
        cards.Record(k, plan.entries);
      }
      ok := !plan.Refuse?;
    }

    /** The end of a cycle: deletions first, then one import, credited by its log. */
    method FinishCycle(dryRun: bool, stamp: Stamp) returns (ok: bool, ghost f: Flushed)
      requires WellKeptTable(cards.table)
      modifies cards, client
      ensures WellKeptTable(cards.table)
      ensures cards.table == AfterFlush(old(cards.table), holders, AgreedIn(f.requests), f.log)
      ensures old(client.asked) <= client.asked && old(client.answers) <= client.answers
      ensures AllAsked(old(cards.table), old(cards.table.Keys), holders, dryRun, f.requests, client.asked[|old(client.asked)|..])
      ensures AsAnswered(old(cards.table), holders, dryRun, stamp, f, old(client.sent), client.sent, client.answers[|old(client.answers)|..])
      ensures ok <==> f.log.Some? || dryRun || !AnyPending(AfterDeletes(old(cards.table), holders, AgreedIn(f.requests)), holders)
    {
      ok, f := Finish(cards, client, holders, dryRun, stamp);
    }
  }
}

/** What the adapter makes of what a cycle tells it about one pass. */
module PassLedger {
  import opened Base
  import opened Export
  import opened Pacs
  import opened Ledger
  import opened CardChanges
  import opened Flush
  import opened Decisions
  import opened WriteBack
  import opened Adapter
  import opened PassCalls

  /** Told so and so, one after the other. */
  function LedgerAfterAll(t: Ledger.Table, holders: Holders, pair: bool, calls: seq<PacsCall>): Ledger.Table {
    if calls == [] then t else LedgerAfter(LedgerAfterAll(t, holders, pair, calls[..|calls| - 1]), holders, pair, calls[|calls| - 1])
  }

  /** The same for one pass alone, while what it is offered is recorded already. */
  function EntriesAfter(entries: seq<Entry>, live: map<Card, Slot>, call: PacsCall): seq<Entry> {
    match call
    case WriteBack(_, _) => entries
    case SetStatus(_, want) => if SwitchAllowed(entries, live, want) then Switched(entries, live, want) else entries
    case Retire(_, identities, _) => Retired(entries, set i <- identities :: i.card)
  }

  function EntriesAfterAll(entries: seq<Entry>, live: map<Card, Slot>, calls: seq<PacsCall>): seq<Entry> {
    if calls == [] then entries else EntriesAfter(EntriesAfterAll(entries, live, calls[..|calls| - 1]), live, calls[|calls| - 1])
  }

  predicate RecordedAlready(call: PacsCall, cards: set<Card>) {
    call.WriteBack? ==> call.identities != [] && forall i <- call.identities :: i.card in cards
  }

  lemma {:induction false} CardsKept(entries: seq<Entry>, live: map<Card, Slot>, calls: seq<PacsCall>)
    ensures var after := EntriesAfterAll(entries, live, calls);
            |after| == |entries| && Cards(after) == Cards(entries)
  {
    hide Switchable, SwitchAllowed, Cards;
    if calls != [] {
      var before := EntriesAfterAll(entries, live, calls[..|calls| - 1]);
      CardsKept(entries, live, calls[..|calls| - 1]);
      SameCards(before, EntriesAfter(before, live, calls[|calls| - 1]));
    }
  }

  lemma OneCallOnLedger(t: Ledger.Table, holders: Holders, pair: bool, call: PacsCall, k: Key)
    requires k.person in holders && Entries(t, k) != [] && (call.key == k ==> RecordedAlready(call, Cards(Entries(t, k))))
    ensures Entries(LedgerAfter(t, holders, pair, call), k) ==
            if call.key == k then EntriesAfter(Entries(t, k), Present(holders[k.person].slots), call) else Entries(t, k)
  {
    hide Present, SwitchAllowed, Decide, Cards;
    if call.WriteBack? && call.key == k {
      WritesOnlyBesideItsOwn(ContextFor(t, holders, k, pair), call.identities);
    }
  }

  lemma OneMoreEntryCall(entries: seq<Entry>, live: map<Card, Slot>, calls: seq<PacsCall>, call: PacsCall)
    ensures EntriesAfterAll(entries, live, calls + [call]) == EntriesAfter(EntriesAfterAll(entries, live, calls), live, call)
  {
    hide EntriesAfter;
    assert (calls + [call])[..|calls|] == calls;
  }

  lemma OneMoreAbout(k: Key, calls: seq<PacsCall>, call: PacsCall)
    ensures ToldAbout(k, calls + [call]) == ToldAbout(k, calls) + if call.key == k then [call] else []
  {
    FilterStep((c: PacsCall) => c.key == k, calls, call);
  }

  /** The calls about a pass are all that changes its entries. */
  lemma {:induction false} LedgerFollows(t: Ledger.Table, holders: Holders, pair: bool, calls: seq<PacsCall>, k: Key)
    requires k.person in holders && Entries(t, k) != []
    requires forall c <- calls :: c.key == k ==> RecordedAlready(c, Cards(Entries(t, k)))
    ensures Entries(LedgerAfterAll(t, holders, pair, calls), k) ==
            EntriesAfterAll(Entries(t, k), Present(holders[k.person].slots), ToldAbout(k, calls))
  {
    hide Present, EntriesAfter, EntriesAfterAll, LedgerAfter, RecordedAlready, Cards, ToldAbout;
    var entries, live := Entries(t, k), Present(holders[k.person].slots);
    if calls == [] {
      NothingTold(k, entries, live);
    } else {
      var front, last := calls[..|calls| - 1], calls[|calls| - 1];
      assert calls == front + [last];
      LedgerFollows(t, holders, pair, front, k);
      CardsKept(entries, live, ToldAbout(k, front));
      OneCallOnLedger(LedgerAfterAll(t, holders, pair, front), holders, pair, last, k);
      OneMoreAbout(k, front, last);
      OneMoreEntryCall(entries, live, ToldAbout(k, front), last);
      assert ToldAbout(k, front) + [] == ToldAbout(k, front);
      assert LedgerAfterAll(t, holders, pair, calls) == LedgerAfter(LedgerAfterAll(t, holders, pair, front), holders, pair, last);
    }
  }

  lemma NothingTold(k: Key, entries: seq<Entry>, live: map<Card, Slot>)
    ensures ToldAbout(k, []) == [] && EntriesAfterAll(entries, live, []) == entries
  {
  }

  lemma AtMostOne(entries: seq<Entry>, live: map<Card, Slot>, calls: seq<PacsCall>)
    requires |calls| <= 1
    ensures EntriesAfterAll(entries, live, calls) == if calls == [] then entries else EntriesAfter(entries, live, calls[0])
  {
    hide EntriesAfter;
    if calls != [] {
      assert calls[..0] == [];
    }
  }

  lemma {:induction false} CallsJoin(entries: seq<Entry>, live: map<Card, Slot>, a: seq<PacsCall>, b: seq<PacsCall>)
    ensures EntriesAfterAll(entries, live, a + b) == EntriesAfterAll(EntriesAfterAll(entries, live, a), live, b)
    decreases |b|
  {
    hide EntriesAfter;
    if b == [] {
      assert a + b == a;
    } else {
      var front := b[..|b| - 1];
      assert (a + b)[..|a + b| - 1] == a + front;
      CallsJoin(entries, live, a, front);
    }
  }

  lemma NothingRetirable(entries: seq<Entry>, gone: set<Card>)
    requires forall c <- gone :: c !in Cards(entries)
    ensures Retired(entries, gone) == entries
  {
    forall i | 0 <= i < |entries| ensures Retired(entries, gone)[i] == entries[i] {
      assert entries[i].card in Cards(entries);
    }
  }
}

/** What every run of the adapter keeps of the ledger. */
module LedgerRules {
  import opened Base
  import opened Order
  import opened Export
  import opened Pacs
  import opened Ledger
  import opened SeosStatus
  import opened CardChanges
  import opened WriteBack
  import opened Flush
  import opened PersonLedger
  import opened Adapter
  import Reading

  /** A card waiting to be switched on was not switched on by us before: an operator's
      untick is not overruled. A card not yet written has no recorded box. */
  predicate RuledEntry(e: Entry) {
    && (e.pending == Activate ==> e.active != Some(true))
    && (Unwritten(e) ==> e.active.None?)
  }

  /** One row a card, and at most one trigger card waiting to be replaced. */
  predicate Ruled(es: seq<Entry>) {
    && WellKept(es)
    && (forall e <- es :: RuledEntry(e))
    && forall e, f | e in es && f in es && e.pending == Write && f.pending == Write :: e == f
  }

  ghost predicate RuledTable(t: Table) {
    forall k <- t :: Ruled(t[k])
  }

  // ---- entry-wise changes ----

  /** A change that turns nothing into a trigger card and breaks no entry's rule. */
  lemma ChangedIsRuled(before: seq<Entry>, after: seq<Entry>)
    requires Ruled(before) && |after| == |before|
    requires forall i | 0 <= i < |before| ::
               after[i].card == before[i].card && after[i].slot == before[i].slot && RuledEntry(after[i])
               && (after[i].pending == Write ==> after[i] == before[i])
    ensures Ruled(after)
  {
    forall e, f | e in after && f in after && e.pending == Write && f.pending == Write
      ensures e == f
    {
      assert e in before && f in before;
    }
  }

  lemma SwitchedIsRuled(es: seq<Entry>, live: map<Card, Slot>, want: bool)
    requires Ruled(es) && SwitchAllowed(es, live, want)
    ensures Ruled(Switched(es, live, want))
  {
    var after := Switched(es, live, want);
    forall i | 0 <= i < |es|
      ensures RuledEntry(after[i]) && (after[i].pending == Write ==> after[i] == es[i])
    {
      assert es[i] in es && RuledEntry(es[i]);
      assert want ==> !OperatorOff(es[i], live);
    }
    ChangedIsRuled(es, after);
  }

  lemma RetiredIsRuled(es: seq<Entry>, gone: set<Card>)
    requires Ruled(es)
    ensures Ruled(Retired(es, gone))
  {
    ChangedIsRuled(es, Retired(es, gone));
  }

  lemma SubsetIsRuled(es: seq<Entry>, some: seq<Entry>)
    requires Ruled(es) && WellKept(some) && forall e <- some :: e in es
    ensures Ruled(some)
  {
  }

  lemma CreditedIsRuled(es: seq<Entry>, skippedCards: set<Card>)
    requires Ruled(es)
    ensures Ruled(Credited(es, skippedCards))
  {
    var credited := CreditEach(es, skippedCards);
    forall i | 0 <= i < |es| ensures RuledEntry(es[i]) { assert es[i] in es; }
    ChangedIsRuled(es, credited);
    CreditedIsStored(es, skippedCards);
    SubsetIsRuled(credited, Credited(es, skippedCards));
  }

  lemma OfferedIsRuled(c: Context, identities: seq<Identity>)
    requires Ruled(c.entries) && Decide(c, identities).Add?
    ensures Ruled(Stored(c.entries, Decide(c, identities).entries))
  {
    var offered := Decide(c, identities).entries;
    var stored := Stored(c.entries, offered);
    var added := Inserts(Chosen(c, Unseen(c, identities)), Room(c));
    ChosenAreUnseen(c, identities);
    RecordKeepsLastPerCard(c.entries, offered);
    forall r | r in stored
      ensures RuledEntry(r) && (r.pending == Write ==> r in c.entries)
    {
      var e :| e in offered && LastOfItsCard(offered, e) && r == Filled(c.entries, e);
      FilledIs(c.entries, added, e);
    }
  }

  /** An entry already recorded is filled with its own box, and a new card with none. */
  lemma FilledIs(before: seq<Entry>, added: seq<Entry>, e: Entry)
    requires Distinct(before) && e in before + added
    requires forall a <- added :: a.pending == Insert && a.active.None? && a.card !in Cards(before)
    ensures e in before ==> Filled(before, e) == e
    ensures e !in before ==> Filled(before, e) == e && e.pending == Insert && e.active.None?
  {
    if e in before {
      KnownActiveIs(before, e);
    } else {
      assert e in added;
      KnownNothing(before, e.card);
    }
  }

  // ---- reads ----

  ghost predicate RuledBook(b: Reading.Book) {
    forall id <- b :: RuledPass(b[id])
  }

  /** A pass while it is being read: its rows not yet in slot order. */
  predicate RuledPass(es: seq<Entry>) {
    && es != [] && Distinct(es)
    && (forall e <- es :: RuledEntry(e))
    && forall e, f | e in es && f in es && e.pending == Write && f.pending == Write :: e == f
  }

  lemma AlteredIsRuled(before: seq<Entry>, after: seq<Entry>)
    requires RuledPass(before) && |after| == |before|
    requires forall i | 0 <= i < |before| ::
               after[i].card == before[i].card && after[i].pending == before[i].pending && after[i].active == before[i].active
    ensures RuledPass(after)
  {
    forall i | 0 <= i < |after| ensures RuledEntry(after[i]) {
      assert before[i] in before;
    }
    forall e, f | e in after && f in after && e.pending == Write && f.pending == Write
      ensures e == f
    {
      var i :| 0 <= i < |after| && after[i] == e;
      var j :| 0 <= j < |after| && after[j] == f;
      assert before[i] in before && before[j] in before && before[i] == before[j];
      assert before[i].card == before[j].card;
    }
  }

  lemma SortedIsRuled(es: seq<Entry>)
    requires RuledPass(es)
    ensures Ruled(SortBySlot(es))
  {
    SortBySlotKeeps(es);
  }

  lemma PreparedIsRuled(r: Reading.Reader, ours: bool, b: Reading.Book)
    requires RuledBook(b)
    ensures RuledBook(Reading.Prepared(r, ours, b))
  {
  }

  lemma RefreshedIsRuled(r: Reading.Reader, b: Reading.Book)
    requires RuledBook(b)
    ensures RuledBook(Reading.RefreshedBook(r, b))
  {
    forall id | id in b ensures RuledPass(Reading.Refreshed(r, b[id])) {
      AlteredIsRuled(b[id], Reading.Refreshed(r, b[id]));
    }
  }

  lemma ScanSlotIsRuled(r: Reading.Reader, st: Reading.Scan, s: Slot)
    requires RuledBook(st.book)
    ensures RuledBook(Reading.ScanSlot(r, st, s).book)
  {
    hide Reading.FirstAt, Reading.FreshId, Reading.HasRoom, Reading.Mismatched;
    var owner := Reading.OwnerOf(st.order, st.book, s.card);
    if owner.Some? {
      AlteredIsRuled(st.book[owner.value], Reading.Moved(st.book[owner.value], s.card, s.index));
    }
    assert RuledPass([Reading.NewEntry(r, s)]);
  }

  lemma {:induction false} ScanIsRuled(r: Reading.Reader, st: Reading.Scan, n: nat)
    requires n <= |r.slots| && RuledBook(st.book)
    ensures RuledBook(Reading.ScanSlots(r, st, n).book)
  {
    hide Reading.ScanSlot;
    if n > 0 {
      ScanIsRuled(r, st, n - 1);
      ScanSlotIsRuled(r, Reading.ScanSlots(r, st, n - 1), r.slots[n - 1]);
    }
  }

  lemma ReadIsRuled(r: Reading.Reader, ours: bool, b: Reading.Book)
    requires RuledBook(b)
    ensures forall id <- Reading.Read(r, ours, b).book :: Ruled(Reading.Read(r, ours, b).book[id])
  {
    var p := Reading.Prepared(r, ours, b);
    PreparedIsRuled(r, ours, b);
    RefreshedIsRuled(r, p);
    ScanIsRuled(r, Reading.Start(r, p), |r.slots|);
    var st := Reading.Scanned(r, p);
    hide Reading.Prepared, Reading.Scanned, Reading.Forgotten;
    forall id | id in Reading.Kept(r, st.book, st.held) ensures Ruled(SortBySlot(st.book[id])) {
      SortedIsRuled(st.book[id]);
    }
  }

  // ---- runs ----

  /** Anything that touches the ledger; each step brings its own export, so operators may
      have edited every cardholder in between. */
  datatype Step =
    | Read(person: string, reader: Reading.Reader, ours: bool)
    | SwitchTo(k: Key, want: bool, holders: Holders)
    | Offer(k: Key, identities: seq<Identity>, pair: bool, holders: Holders)
    | Retire(k: Key, gone: set<Card>)
    | FlushAll(holders: Holders, agreed: map<Key, set<Card>>, log: Option<ImportLog>)

  ghost predicate Leads(t: Table, step: Step, after: Table) {
    match step
    case Read(person, r, ours) =>
      && PersonBook(after, person) == Reading.Read(r, ours, PersonBook(t, person)).book
      && OthersOf(after, person) == OthersOf(t, person)
    case SwitchTo(k, want, holders) =>
      if k in t && k.person in holders && SwitchAllowed(t[k], Present(holders[k.person].slots), want)
      then after == t[k := Switched(t[k], Present(holders[k.person].slots), want)]
      else after == t
    case Offer(k, identities, pair, holders) => after == AfterOffer(t, k, OfferedTo(t, holders, k, pair, identities))
    case Retire(k, gone) => after == if k in t then t[k := Retired(t[k], gone)] else t
    case FlushAll(holders, agreed, log) => after == AfterFlush(t, holders, agreed, log)
  }

  lemma ReadKeeps(t: Table, person: string, r: Reading.Reader, ours: bool, after: Table)
    requires RuledTable(t) && Leads(t, Read(person, r, ours), after)
    ensures RuledTable(after)
  {
    hide Reading.Read, Ruled;
    var b := PersonBook(t, person);
    forall id | id in b ensures RuledPass(b[id]) { RuledIsPass(t[Key(person, id)]); }
    ReadIsRuled(r, ours, b);
    forall k | k in after ensures Ruled(after[k]) {
      if k.person == person {
        assert k == Key(person, k.credential) && k.credential in PersonBook(after, person);
      } else {
        assert k in OthersOf(after, person) && k in OthersOf(t, person);
        assert OthersOf(after, person)[k] == OthersOf(t, person)[k];
      }
    }
  }

  lemma RuledIsPass(es: seq<Entry>)
    requires Ruled(es)
    ensures RuledPass(es)
  {
  }

  lemma FlushedIsRuled(k: Key, es: seq<Entry>, holders: Holders, agreed: map<Key, set<Card>>, log: Option<ImportLog>)
    requires Ruled(es)
    ensures DeletesFor(k, es, holders, agreed) != [] ==> Ruled(DeletesFor(k, es, holders, agreed))
    ensures log.Some? ==> Ruled(ImportFor(k, es, holders, log.value))
  {
    if k.person in holders {
      SurvivingIsStored(es, Present(holders[k.person].slots), if k in agreed then agreed[k] else {});
    }
    if log.Some? {
      CreditedIsRuled(es, log.value.skippedCards);
    }
  }

  lemma FlushKeeps(t: Table, holders: Holders, agreed: map<Key, set<Card>>, log: Option<ImportLog>)
    requires RuledTable(t)
    ensures RuledTable(AfterFlush(t, holders, agreed, log))
  {
    hide Ruled, DeletesFor, ImportFor;
    var d := AfterDeletes(t, holders, agreed);
    forall k | k in d ensures Ruled(d[k]) {
      FlushedIsRuled(k, t[k], holders, agreed, log);
    }
    if log.Some? {
      forall k | k in d ensures Ruled(ImportFor(k, d[k], holders, log.value)) {
        FlushedIsRuled(k, d[k], holders, agreed, log);
      }
    }
  }

  lemma OfferKeeps(t: Table, k: Key, identities: seq<Identity>, pair: bool, holders: Holders)
    requires RuledTable(t)
    ensures RuledTable(AfterOffer(t, k, OfferedTo(t, holders, k, pair, identities)))
  {
    hide Decide, Stored, Ruled;
    var plan := OfferedTo(t, holders, k, pair, identities);
    if plan.Add? {
      var c := ContextFor(t, holders, k, pair);
      AddsToSomething(c, identities);
      OfferedIsRuled(c, identities);
    }
  }

  lemma AddsToSomething(c: Context, identities: seq<Identity>)
    requires Decide(c, identities).Add?
    ensures c.entries != []
  {
  }

  lemma StepKeeps(t: Table, step: Step, after: Table)
    requires RuledTable(t) && Leads(t, step, after)
    ensures RuledTable(after)
  {
    hide Ruled, AfterFlush, AfterOffer, OfferedTo, SwitchAllowed;
    match step
    case Read(person, r, ours) => ReadKeeps(t, person, r, ours, after);
    case SwitchTo(k, want, holders) =>
      if k in t && k.person in holders && SwitchAllowed(t[k], Present(holders[k.person].slots), want) {
        SwitchedIsRuled(t[k], Present(holders[k.person].slots), want);
      }
    case Offer(k, identities, pair, holders) => OfferKeeps(t, k, identities, pair, holders);
    case Retire(k, gone) => if k in t { RetiredIsRuled(t[k], gone); }
    case FlushAll(holders, agreed, log) => FlushKeeps(t, holders, agreed, log);
  }

  ghost predicate IsRun(run: seq<Table>, steps: seq<Step>) {
    && |run| == |steps| + 1 && run[0] == map[]
    && forall i | 0 <= i < |steps| :: Leads(run[i], steps[i], run[i + 1])
  }

  /** Over every interleaving of reads, switches, offers, retirements and flushes, whatever
      the exports, the identities and the logs: the rules hold at every moment. */
  lemma {:induction false} EveryRunIsRuled(run: seq<Table>, steps: seq<Step>, n: nat)
    requires IsRun(run, steps) && n < |run|
    ensures RuledTable(run[n])
  {
    hide Leads, Ruled;
    if n > 0 {
      EveryRunIsRuled(run, steps, n - 1);
      StepKeeps(run[n - 1], steps[n - 1], run[n]);
    }
  }

  /** So no import ever asks for a card to be switched on that we had switched on before. */
  lemma NeverOverrulesAnUntick(run: seq<Table>, steps: seq<Step>, n: nat, k: Key, e: Entry)
    requires IsRun(run, steps) && n < |run| && k in run[n] && e in run[n][k]
    ensures e.pending == Activate ==> e.active != Some(true)
  {
    EveryRunIsRuled(run, steps, n);
    assert Ruled(run[n][k]) && RuledEntry(e);
  }
}

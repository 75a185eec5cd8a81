/** finish_cycle: what the ledger becomes once deletions and the import have been answered. */
module Flush {
  import opened Base
  import opened Export
  import opened Ledger

  /** What the import's log names as not applied. */
  datatype ImportLog = ImportLog(skippedPeople: set<string>, skippedCards: set<Card>)

  type Holders = map<string, Cardholder>

  predicate Sendable(e: Entry) {
    e.pending == Activate || e.pending == Deactivate || e.pending == Insert
  }

  // ---- deletions ----

  /** Gone already, or deleted when asked. */
  predicate IsDeleted(e: Entry, live: map<Card, Slot>, agreed: set<Card>) {
    e.pending == Delete && (e.card !in live || e.card in agreed)
  }

  function Surviving(entries: seq<Entry>, live: map<Card, Slot>, agreed: set<Card>): seq<Entry> {
    Filter((e: Entry) => !IsDeleted(e, live, agreed), entries)
  }

  function DeletesFor(k: Key, entries: seq<Entry>, holders: Holders, agreed: map<Key, set<Card>>): seq<Entry> {
    if k.person in holders
    then Surviving(entries, Present(holders[k.person].slots), if k in agreed then agreed[k] else {})
    else entries
  }

  /** `agreed` is what Millennium deleted when asked, per pass. */
  ghost function AfterDeletes(t: Table, holders: Holders, agreed: map<Key, set<Card>>): Table {
    map k | k in t && DeletesFor(k, t[k], holders, agreed) != [] :: DeletesFor(k, t[k], holders, agreed)
  }

  // ---- the import ----

  predicate Sent(k: Key, entries: seq<Entry>, holders: Holders) {
    k.person in holders && exists e <- entries :: Sendable(e)
  }

  predicate Confirmed(e: Entry, skippedCards: set<Card>) {
    Sendable(e) && e.card !in skippedCards
  }

  function CreditedEntry(e: Entry, skippedCards: set<Card>): Entry {
    if Confirmed(e, skippedCards) then e.(active := Some(e.pending == Activate), pending := Settled) else e
  }

  predicate InsertTaken(entries: seq<Entry>, skippedCards: set<Card>) {
    exists e <- entries :: e.pending == Insert && e.card !in skippedCards
  }

  function CreditEach(entries: seq<Entry>, skippedCards: set<Card>): (r: seq<Entry>)
    ensures |r| == |entries| && forall i | 0 <= i < |r| :: r[i] == CreditedEntry(entries[i], skippedCards)
  {
    seq(|entries|, i requires 0 <= i < |entries| => CreditedEntry(entries[i], skippedCards))
  }

  /** AccessGrid's cards being in, the trigger card they replaced is no longer there. */
  function Credited(entries: seq<Entry>, skippedCards: set<Card>): seq<Entry> {
    var credited := CreditEach(entries, skippedCards);
    if InsertTaken(entries, skippedCards) then Filter((e: Entry) => e.pending != Write, credited) else credited
  }

  function ImportFor(k: Key, entries: seq<Entry>, holders: Holders, log: ImportLog): seq<Entry> {
    if Sent(k, entries, holders) && k.person !in log.skippedPeople then Credited(entries, log.skippedCards) else entries
  }

  ghost function AfterImport(t: Table, holders: Holders, log: ImportLog): Table {
    map k | k in t :: ImportFor(k, t[k], holders, log)
  }

  /** The whole flush; no log when nothing was sent, it was a dry run, or the import failed. */
  ghost function AfterFlush(t: Table, holders: Holders, agreed: map<Key, set<Card>>, log: Option<ImportLog>): Table {
    var deleted := AfterDeletes(t, holders, agreed);
    if log.Some? then AfterImport(deleted, holders, log.value) else deleted
  }

  // ---- what it keeps of the ledger's shape ----

  lemma {:induction false} FilterKeepsOrder(keep: Entry -> bool, es: seq<Entry>)
    requires Distinct(es) && SlotSorted(es)
    ensures Distinct(Filter(keep, es)) && SlotSorted(Filter(keep, es))
  {
    if es != [] {
      var n := |es| - 1;
      var front, last := es[..n], es[n];
      FilterKeepsOrder(keep, front);
      var r := Filter(keep, front);
      assert Filter(keep, es) == if keep(last) then r + [last] else r;
      hide Filter;
      forall x | x in r ensures x.card != last.card && x.slot <= last.slot {
        var j :| 0 <= j < n && front[j] == x;
        assert es[j] == x;
      }
      LastFits(r, last);
    }
  }

  lemma LastFits(r: seq<Entry>, last: Entry)
    requires Distinct(r) && SlotSorted(r) && forall x <- r :: x.card != last.card && x.slot <= last.slot
    ensures Distinct(r + [last]) && SlotSorted(r + [last])
  {
    forall i | 0 <= i < |r| ensures r[i].card != last.card && r[i].slot <= last.slot {
      assert r[i] in r;
    }
  }

  lemma SurvivingIsStored(entries: seq<Entry>, live: map<Card, Slot>, agreed: set<Card>)
    requires Distinct(entries) && SlotSorted(entries)
    ensures Distinct(Surviving(entries, live, agreed)) && SlotSorted(Surviving(entries, live, agreed))
    ensures Stored(entries, Surviving(entries, live, agreed)) == Surviving(entries, live, agreed)
  {
    FilterKeepsOrder((e: Entry) => !IsDeleted(e, live, agreed), entries);
    SubsetIsStored(entries, Surviving(entries, live, agreed));
  }

  lemma SubsetIsStored(entries: seq<Entry>, some: seq<Entry>)
    requires Distinct(entries) && Distinct(some) && SlotSorted(some)
    requires forall e <- some :: e in entries
    ensures Stored(entries, some) == some
  {
    forall e, b | e in some && b in entries && e.card == b.card && e.active.None?
      ensures b.active.None?
    {
      SameCardSameEntry(entries, e, b);
    }
    StoredAsGiven(entries, some);
  }

  lemma SameCardSameEntry(entries: seq<Entry>, a: Entry, b: Entry)
    requires Distinct(entries) && a in entries && b in entries && a.card == b.card
    ensures a == b
  {
    var i :| 0 <= i < |entries| && entries[i] == a;
    var j :| 0 <= j < |entries| && entries[j] == b;
    assert entries[i].card == entries[j].card;
  }

  lemma CreditEachIsStored(entries: seq<Entry>, skippedCards: set<Card>)
    requires Distinct(entries) && SlotSorted(entries)
    ensures var credited := CreditEach(entries, skippedCards);
            && Distinct(credited) && SlotSorted(credited) && Stored(entries, credited) == credited
            && forall e <- credited, b <- entries :: e.card == b.card && e.active.None? ==> b.active.None?
  {
    var credited := CreditEach(entries, skippedCards);
    StoredInPlace(entries, credited);
    forall e, b | e in credited && b in entries && e.card == b.card && e.active.None?
      ensures b.active.None?
    {
      var i :| 0 <= i < |credited| && credited[i] == e;
      SameCardSameEntry(entries, entries[i], b);
    }
  }

  lemma TakenLeavesACard(entries: seq<Entry>, skippedCards: set<Card>)
    requires InsertTaken(entries, skippedCards)
    ensures Credited(entries, skippedCards) != []
  {
    var i :| 0 <= i < |entries| && entries[i].pending == Insert && entries[i].card !in skippedCards;
    var credited := CreditEach(entries, skippedCards);
    assert credited[i] in credited && credited[i].pending == Settled;
    assert credited[i] in Credited(entries, skippedCards);
  }

  lemma CreditedIsStored(entries: seq<Entry>, skippedCards: set<Card>)
    requires Distinct(entries) && SlotSorted(entries)
    ensures Distinct(Credited(entries, skippedCards)) && SlotSorted(Credited(entries, skippedCards))
    ensures Stored(entries, Credited(entries, skippedCards)) == Credited(entries, skippedCards)
    ensures entries != [] ==> Credited(entries, skippedCards) != []
  {
    CreditEachIsStored(entries, skippedCards);
    if InsertTaken(entries, skippedCards) {
      FilterKeepsOrder((e: Entry) => e.pending != Write, CreditEach(entries, skippedCards));
      StoredAsGiven(entries, Credited(entries, skippedCards));
      TakenLeavesACard(entries, skippedCards);
    }
  }

  lemma FlushIsWellKept(t: Table, holders: Holders, agreed: map<Key, set<Card>>, log: Option<ImportLog>)
    requires WellKeptTable(t)
    ensures WellKeptTable(AfterDeletes(t, holders, agreed)) && WellKeptTable(AfterFlush(t, holders, agreed, log))
  {
    var deleted := AfterDeletes(t, holders, agreed);
    forall k | k in deleted ensures WellKept(deleted[k]) {
      if k.person in holders {
        SurvivingIsStored(t[k], Present(holders[k.person].slots), if k in agreed then agreed[k] else {});
      }
    }
    if log.Some? {
      var after := AfterImport(deleted, holders, log.value);
      forall k | k in after ensures WellKept(after[k]) {
        CreditedIsStored(deleted[k], log.value.skippedCards);
      }
    }
  }

  // ---- what it credits ----

  lemma CreditedEntries(entries: seq<Entry>, skippedCards: set<Card>)
    ensures forall x :: x in Credited(entries, skippedCards) <==>
              exists e <- entries :: x == CreditedEntry(e, skippedCards)
                                     && !(x.pending == Write && InsertTaken(entries, skippedCards))
  {
    var credited := CreditEach(entries, skippedCards);
    forall x
      ensures x in credited <==> exists e <- entries :: x == CreditedEntry(e, skippedCards)
    {
      if e :| e in entries && x == CreditedEntry(e, skippedCards) {
        var i :| 0 <= i < |entries| && entries[i] == e;
        assert credited[i] == x;
      }
      if x in credited {
        var i :| 0 <= i < |credited| && credited[i] == x;
        assert entries[i] in entries;
      }
    }
  }

  /** A change of this pass that the log does not name, neither by cardholder nor by card. */
  predicate LogConfirms(k: Key, e: Entry, holders: Holders, log: ImportLog) {
    && (e.pending == Activate || e.pending == Deactivate || e.pending == Insert)
    && k.person in holders && k.person !in log.skippedPeople && e.card !in log.skippedCards
  }

  predicate InsertConfirmed(k: Key, entries: seq<Entry>, holders: Holders, log: ImportLog) {
    exists e <- entries :: e.pending == Insert && LogConfirms(k, e, holders, log)
  }

  /** What the log makes of one entry: a confirmed change is settled with the box as sent. */
  function Answered(k: Key, e: Entry, holders: Holders, log: ImportLog): Entry {
    if LogConfirms(k, e, holders, log) then e.(pending := Settled, active := Some(e.pending == Activate)) else e
  }

  /** The trigger card's record, replaced by a card of the pass that was taken. */
  predicate Replaced(k: Key, entries: seq<Entry>, e: Entry, holders: Holders, log: ImportLog) {
    e.pending == Write && InsertConfirmed(k, entries, holders, log)
  }

  /** The import step credits exactly what the log confirms: a confirmed change is
      settled with the box as sent; a trigger card's record goes exactly when an
      insert of its pass was taken; everything else stays as it was. */
  lemma ImportCreditsExactlyTheLog(k: Key, entries: seq<Entry>, holders: Holders, log: ImportLog)
    ensures forall x :: x in ImportFor(k, entries, holders, log) <==>
              exists e <- entries :: x == Answered(k, e, holders, log) && !Replaced(k, entries, e, holders, log)
  {
    var after := ImportFor(k, entries, holders, log);
    if Sent(k, entries, holders) && k.person !in log.skippedPeople {
      CreditedEntries(entries, log.skippedCards);
      forall e | e in entries
        ensures Answered(k, e, holders, log) == CreditedEntry(e, log.skippedCards)
        ensures Replaced(k, entries, e, holders, log) <==> CreditedEntry(e, log.skippedCards).pending == Write && InsertTaken(entries, log.skippedCards)
      {
        SameInsert(k, entries, holders, log);
      }
    } else {
      forall e | e in entries
        ensures Answered(k, e, holders, log) == e && !Replaced(k, entries, e, holders, log)
      {
        assert !LogConfirms(k, e, holders, log);
        if x :| x in entries && x.pending == Insert && LogConfirms(k, x, holders, log) {
          assert Sendable(x);
        }
      }
    }
  }

  lemma SameInsert(k: Key, entries: seq<Entry>, holders: Holders, log: ImportLog)
    requires k.person in holders && k.person !in log.skippedPeople
    ensures InsertTaken(entries, log.skippedCards) <==> InsertConfirmed(k, entries, holders, log)
  {
    if e :| e in entries && e.pending == Insert && e.card !in log.skippedCards {
      assert LogConfirms(k, e, holders, log);
    }
  }

  /** A change is settled iff it was confirmed, and one that was not is sent again
      as soon as its cardholder is read again. */
  lemma UnconfirmedIsSentAgain(t: Table, holders: Holders, log: ImportLog, k: Key, e: Entry, later: Holders)
    requires k in t && e in t[k] && (e.pending == Activate || e.pending == Deactivate || e.pending == Insert) && Distinct(t[k])
    ensures LogConfirms(k, e, holders, log) <==>
            forall x <- AfterImport(t, holders, log)[k] :: x.card == e.card ==> x.pending == Settled
    ensures !LogConfirms(k, e, holders, log) ==> e in AfterImport(t, holders, log)[k]
    ensures !LogConfirms(k, e, holders, log) && k.person in later ==> Sent(k, AfterImport(t, holders, log)[k], later)
  {
    ImportCreditsExactlyTheLog(k, t[k], holders, log);
    var after := AfterImport(t, holders, log)[k];
    if LogConfirms(k, e, holders, log) {
      forall x | x in after && x.card == e.card
        ensures x.pending == Settled
      {
        var o :| o in t[k] && x == Answered(k, o, holders, log);
        SameCardSameEntry(t[k], o, e);
      }
    } else {
      assert e == Answered(k, e, holders, log) && !Replaced(k, t[k], e, holders, log);
      assert e in after;
    }
  }

  ghost predicate GoneByNow(k: Key, e: Entry, holders: Holders, agreed: map<Key, set<Card>>) {
    && k.person in holders && e.pending == Delete
    && ((k in agreed && e.card in agreed[k]) || forall s <- holders[k.person].slots :: s.card.number != "" ==> s.card != e.card)
  }

  lemma DeletesForIs(k: Key, entries: seq<Entry>, holders: Holders, agreed: map<Key, set<Card>>)
    ensures forall x :: x in DeletesFor(k, entries, holders, agreed) <==> x in entries && !GoneByNow(k, x, holders, agreed)
  {
  }

  /** A card deleted in this flush is not recorded back by its import step, and a
      card still marked is exactly one that was refused or not read. */
  lemma DeletedStaysDeleted(t: Table, holders: Holders, agreed: map<Key, set<Card>>, log: Option<ImportLog>, k: Key, e: Entry)
    requires k in t && e in t[k] && e.pending == Delete && Distinct(t[k])
    ensures GoneByNow(k, e, holders, agreed) <==> e.card !in Cards(Entries(AfterFlush(t, holders, agreed, log), k))
    ensures !GoneByNow(k, e, holders, agreed) ==> e in Entries(AfterFlush(t, holders, agreed, log), k)
  {
    var kept := DeletesFor(k, t[k], holders, agreed);
    DeletesForIs(k, t[k], holders, agreed);
    forall x | x in kept && x.card == e.card ensures x == e {
      SameCardSameEntry(t[k], x, e);
    }
    var deleted := AfterDeletes(t, holders, agreed);
    assert Entries(deleted, k) == kept;
    if log.Some? {
      var after := ImportFor(k, kept, holders, log.value);
      assert Entries(AfterFlush(t, holders, agreed, log), k) == after by {
        if kept == [] { NothingImported(k, holders, log.value); }
      }
      ImportCreditsExactlyTheLog(k, kept, holders, log.value);
      if !GoneByNow(k, e, holders, agreed) {
        assert e == Answered(k, e, holders, log.value) && !Replaced(k, kept, e, holders, log.value);
      }
    }
  }

  lemma NothingImported(k: Key, holders: Holders, log: ImportLog)
    ensures ImportFor(k, [], holders, log) == []
  {
  }
}

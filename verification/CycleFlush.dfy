/** finish_cycle as the adapter runs it. */
module CycleFlush {
  import opened Base
  import opened Export
  import opened Ledger
  import opened Flush
  import opened ImportFile
  import opened CardImport

  /** A card asked to be deleted, and whether it was: not when refused, nor when the request fails. */
  datatype Request = Request(person: string, card: Card, deleted: bool)

  /** Millennium itself: what it answers is its own affair; what it was asked, and answered, is kept. */
  class Millennium {
    var asked: seq<Request>
    var sent: seq<ImportFile>
    var answers: seq<Option<ImportLog>>     // to each file sent: its log, or None when the import failed

    constructor ()
      ensures asked == [] && sent == [] && answers == []
    {
      asked, sent, answers := [], [], [];
    }

    method DeleteCardByNumber(person: string, card: Card) returns (deleted: bool)
      modifies this`asked
      ensures asked == old(asked) + [Request(person, card, deleted)]
    {
      deleted := *;
      asked := asked + [Request(person, card, deleted)];
    }

    method ImportCardholders(file: ImportFile) returns (log: Option<ImportLog>)
      modifies this`sent, this`answers
      ensures sent == old(sent) + [file] && answers == old(answers) + [log]
    {
      log := *;
      sent, answers := sent + [file], answers + [log];
    }
  }

  function AgreedBy(requests: seq<Request>): set<Card> {
    set r | r in requests && r.deleted :: r.card
  }

  function AgreedFor(agreed: map<Key, set<Card>>, k: Key): set<Card> {
    if k in agreed then agreed[k] else {}
  }

  // ---- deletions ----

  lemma {:induction false} FilterSame(f: Entry -> bool, g: Entry -> bool, s: seq<Entry>)
    requires forall e <- s :: f(e) == g(e)
    ensures Filter(f, s) == Filter(g, s)
  {
    if s != [] {
      assert s == s[..|s| - 1] + [s[|s| - 1]];
      FilterSame(f, g, s[..|s| - 1]);
    }
  }

  lemma SurvivingStep(entries: seq<Entry>, live: map<Card, Slot>, before: set<Card>, after: set<Card>, n: nat)
    requires Distinct(entries) && n < |entries|
    requires before <= after <= before + {entries[n].card}
    ensures Surviving(entries[..n + 1], live, after) ==
            Surviving(entries[..n], live, before) + if IsDeleted(entries[n], live, after) then [] else [entries[n]]
  {
    assert entries[..n + 1] == entries[..n] + [entries[n]];
    FilterStep((e: Entry) => !IsDeleted(e, live, after), entries[..n], entries[n]);
    FilterSame((e: Entry) => !IsDeleted(e, live, after), (e: Entry) => !IsDeleted(e, live, before), entries[..n]);
  }

  /** The marked cards still on the cardholder, in the ledger's order. */
  function Doomed(entries: seq<Entry>, live: map<Card, Slot>): seq<Card> {
    if entries == [] then []
    else
      var e := entries[|entries| - 1];
      Doomed(entries[..|entries| - 1], live) + if e.pending == Delete && e.card in live then [e.card] else []
  }

  predicate RequestsFor(k: Key, entries: seq<Entry>, live: map<Card, Slot>, requests: seq<Request>) {
    && |requests| == |Doomed(entries, live)|
    && forall i | 0 <= i < |requests| :: requests[i].person == k.person && requests[i].card == Doomed(entries, live)[i]
  }

  /** They are exactly those, each once. */
  lemma {:induction false} DoomedAre(entries: seq<Entry>, live: map<Card, Slot>)
    requires Distinct(entries)
    ensures forall c :: c in Doomed(entries, live) <==> c in live && exists e <- entries :: e.card == c && e.pending == Delete
    ensures forall i, j | 0 <= i < j < |Doomed(entries, live)| :: Doomed(entries, live)[i] != Doomed(entries, live)[j]
  {
    if entries != [] {
      var front, last := entries[..|entries| - 1], entries[|entries| - 1];
      assert entries == front + [last];
      DoomedAre(front, live);
      assert forall e <- front :: e.card != last.card;
    }
  }

  lemma DoomedStep(entries: seq<Entry>, live: map<Card, Slot>, n: nat)
    requires n < |entries|
    ensures Doomed(entries[..n + 1], live) ==
            Doomed(entries[..n], live) + if entries[n].pending == Delete && entries[n].card in live then [entries[n].card] else []
  {
    assert entries[..n + 1][..n] == entries[..n];
  }

  /** One pass's marked cards: those already gone are forgotten, the others asked for once each. */
  method DeletePass(client: Millennium, k: Key, entries: seq<Entry>, live: map<Card, Slot>, dryRun: bool)
    returns (left: seq<Entry>, ghost requests: seq<Request>)
    requires Distinct(entries)
    modifies client`asked
    ensures left == Surviving(entries, live, AgreedBy(requests))
    ensures client.asked == old(client.asked) + requests
    ensures if dryRun then requests == [] else RequestsFor(k, entries, live, requests)
  {
    hide Surviving, Doomed, RequestsFor, AgreedBy, IsDeleted;
    left, requests := [], [];
    NothingSurvives(k, entries, live);
    for n := 0 to |entries|
      invariant left == Surviving(entries[..n], live, AgreedBy(requests))
      invariant AgreedBy(requests) <= set i | 0 <= i < n :: entries[i].card
      invariant client.asked == old(client.asked) + requests
      invariant if dryRun then requests == [] else RequestsFor(k, entries[..n], live, requests)
    {
      var gone;
      ghost var before, more := requests, [];
      gone, more := DeleteEntry(client, k, entries[n], live, dryRun);
      requests := requests + more;
      EntryDone(k, entries, live, dryRun, before, more, gone, n);
      if !gone {
        left := left + [entries[n]];
      }
    }
    assert entries[..|entries|] == entries;
  }

  /** One entry: whether it leaves the ledger, and what was asked for it. */
  method DeleteEntry(client: Millennium, k: Key, e: Entry, live: map<Card, Slot>, dryRun: bool) returns (gone: bool, ghost more: seq<Request>)
    modifies client`asked
    ensures client.asked == old(client.asked) + more
    ensures EntryAsk(k, e, live, dryRun, more, gone)
  {
    more := [];
    gone := e.pending == Delete && e.card !in live;
    if e.pending == Delete && e.card in live && !dryRun {
      gone := client.DeleteCardByNumber(k.person, e.card);
      more := [Request(k.person, e.card, gone)];
    }
  }

  predicate EntryAsk(k: Key, e: Entry, live: map<Card, Slot>, dryRun: bool, more: seq<Request>, gone: bool) {
    if e.pending != Delete then more == [] && !gone
    else if e.card !in live then more == [] && gone
    else if dryRun then more == [] && !gone
    else more == [Request(k.person, e.card, gone)]
  }

  lemma NothingSurvives(k: Key, entries: seq<Entry>, live: map<Card, Slot>)
    ensures entries[..0] == [] && Surviving([], live, AgreedBy([])) == [] && RequestsFor(k, [], live, []) && AgreedBy([]) == {}
  {
  }

  lemma EntryDone(k: Key, entries: seq<Entry>, live: map<Card, Slot>, dryRun: bool, before: seq<Request>, more: seq<Request>, gone: bool, n: nat)
    requires Distinct(entries) && n < |entries| && EntryAsk(k, entries[n], live, dryRun, more, gone)
    requires AgreedBy(before) <= set i | 0 <= i < n :: entries[i].card
    requires if dryRun then before == [] else RequestsFor(k, entries[..n], live, before)
    ensures AgreedBy(before + more) <= set i | 0 <= i < n + 1 :: entries[i].card
    ensures Surviving(entries[..n + 1], live, AgreedBy(before + more)) ==
            Surviving(entries[..n], live, AgreedBy(before)) + if gone then [] else [entries[n]]
    ensures if dryRun then before + more == [] else RequestsFor(k, entries[..n + 1], live, before + more)
  {
    hide Surviving;
    assert AgreedBy(before + more) == AgreedBy(before) + AgreedBy(more);
    assert AgreedBy(more) == if more != [] && gone then {entries[n].card} else {};
    DoomedStep(entries, live, n);
    SurvivingStep(entries, live, AgreedBy(before), AgreedBy(before + more), n);
    OwnAnswer(entries, AgreedBy(before), n);
  }

  /** A card was not agreed to before its turn. */
  lemma OwnAnswer(entries: seq<Entry>, agreed: set<Card>, n: nat)
    requires Distinct(entries) && n < |entries| && agreed <= set i | 0 <= i < n :: entries[i].card
    ensures entries[n].card !in agreed
  {
  }

  lemma NothingMarked(k: Key, entries: seq<Entry>, holders: Holders, agreed: map<Key, set<Card>>)
    requires k.person !in holders || forall e <- entries :: e.pending != Delete
    ensures DeletesFor(k, entries, holders, agreed) == entries
  {
    if k.person in holders {
      FilterAll((e: Entry) => !IsDeleted(e, Present(holders[k.person].slots), AgreedFor(agreed, k)), entries);
    }
  }

  /** The passes outside `todo` have had their deletions; the others are as they were. */
  ghost predicate Deleting(t0: Table, t: Table, todo: set<Key>, holders: Holders, agreed: map<Key, set<Card>>) {
    && t.Keys <= t0.Keys
    && (forall k <- todo :: k in t && k in t0 && t[k] == t0[k] && k !in agreed)
    && (forall k <- t0 :: k !in todo ==> Entries(t, k) == DeletesFor(k, t0[k], holders, agreed))
    && (forall k <- t :: t[k] != [])
  }

  lemma OneDeleted(t0: Table, t: Table, todo: set<Key>, holders: Holders, agreed: map<Key, set<Card>>,
                   k: Key, after: Table, some: set<Card>)
    requires Deleting(t0, t, todo, holders, agreed) && k in todo
    requires after.Keys <= t.Keys && t.Keys <= after.Keys + {k}
    requires forall x <- after :: x != k ==> after[x] == t[x]
    requires k in after ==> after[k] != []
    requires Entries(after, k) == DeletesFor(k, t0[k], holders, agreed[k := some])
    ensures Deleting(t0, after, todo - {k}, holders, agreed[k := some])
  {
    hide Surviving;
    forall x | x in t0 && x !in todo - {k}
      ensures Entries(after, x) == DeletesFor(x, t0[x], holders, agreed[k := some])
    {
      if x != k {
        assert Entries(after, x) == Entries(t, x);
      }
    }
  }

  lemma AllDeleted(t0: Table, t: Table, holders: Holders, agreed: map<Key, set<Card>>)
    requires Deleting(t0, t, {}, holders, agreed)
    ensures t == AfterDeletes(t0, holders, agreed)
  {
    hide DeletesFor;
  }

  /** What is asked for a pass: nothing for a cardholder not read, nor in a dry run. */
  predicate AsksFor(k: Key, entries: seq<Entry>, holders: Holders, dryRun: bool, requests: seq<Request>) {
    if dryRun || k.person !in holders then requests == []
    else RequestsFor(k, entries, Present(holders[k.person].slots), requests)
  }

  lemma {:induction false} NoneDoomed(entries: seq<Entry>, live: map<Card, Slot>)
    requires forall e <- entries :: e.pending != Delete
    ensures Doomed(entries, live) == []
  {
    if entries != [] {
      NoneDoomed(entries[..|entries| - 1], live);
    }
  }

  method DeleteOne(cards: PacsCards, client: Millennium, holders: Holders, dryRun: bool, k: Key) returns (ghost requests: seq<Request>)
    requires WellKeptTable(cards.table) && k in cards.table
    modifies cards, client`asked
    ensures WellKeptTable(cards.table)
    ensures cards.table.Keys <= old(cards.table.Keys) <= cards.table.Keys + {k}
    ensures forall x <- cards.table :: x != k ==> cards.table[x] == old(cards.table)[x]
    ensures Entries(cards.table, k) == DeletesFor(k, old(cards.table)[k], holders, map[k := AgreedBy(requests)])
    ensures client.asked == old(client.asked) + requests
    ensures AsksFor(k, old(cards.table)[k], holders, dryRun, requests)
  {
    requests := [];
    var entries := cards.Get(k);
    assert WellKept(entries);
    if k.person !in holders || forall e <- entries :: e.pending != Delete {
      NothingMarked(k, entries, holders, map[k := AgreedBy(requests)]);
      if k.person in holders { NoneDoomed(entries, Present(holders[k.person].slots)); }
      return;
    }
    hide Surviving, Doomed;
    var live := Present(holders[k.person].slots);
    var left;
    left, requests := DeletePass(client, k, entries, live, dryRun);
    SurvivingIsStored(entries, live, AgreedBy(requests));
    if left != [] {
      RecordIsWellKept(cards.table, k, left);
      cards.Record(k, left);
    } else {
      cards.Forget(k);
    }
  }

  /** What was deleted when asked, per pass. */
  ghost function AgreedIn(requests: map<Key, seq<Request>>): map<Key, set<Card>> {
    map k | k in requests :: AgreedBy(requests[k])
  }

  /** Every pass asked what it should, and nothing else asked. */
  ghost predicate AllAsked(t: Table, done: set<Key>, holders: Holders, dryRun: bool, requests: map<Key, seq<Request>>, asked: seq<Request>) {
    && requests.Keys == done
    && (forall k <- done :: k in t && AsksFor(k, t[k], holders, dryRun, requests[k]))
    && (forall r :: r in asked <==> exists k <- done :: r in requests[k])
  }

  /** Asked to be deleted are exactly the cards marked for it that are still on a cardholder who was read;
      none in a dry run. */
  lemma AskedAre(t: Table, holders: Holders, dryRun: bool, requests: map<Key, seq<Request>>, asked: seq<Request>, person: string, card: Card)
    requires WellKeptTable(t) && AllAsked(t, t.Keys, holders, dryRun, requests, asked)
    ensures (exists r <- asked :: r.person == person && r.card == card) <==>
              && !dryRun && person in holders && (exists s <- holders[person].slots :: s.card == card && s.card.number != "")
              && exists k <- t, e <- t[k] :: k.person == person && e.card == card && e.pending == Delete
  {
    hide Doomed, Present;
    forall k | k in t
      ensures (exists r <- requests[k] :: r.person == person && r.card == card) <==>
                && !dryRun && k.person == person && person in holders && card in Present(holders[person].slots)
                && exists e <- t[k] :: e.card == card && e.pending == Delete
    {
      RequestsAre(k, t[k], holders, dryRun, requests[k], person, card);
    }
    if person in holders {
      assert card in Present(holders[person].slots) <==> exists s <- holders[person].slots :: s.card == card && s.card.number != "";
    }
  }

  lemma RequestsAre(k: Key, entries: seq<Entry>, holders: Holders, dryRun: bool, requests: seq<Request>, person: string, card: Card)
    requires WellKept(entries) && AsksFor(k, entries, holders, dryRun, requests)
    ensures (exists r <- requests :: r.person == person && r.card == card) <==>
              && !dryRun && k.person == person && person in holders && card in Present(holders[person].slots)
              && exists e <- entries :: e.card == card && e.pending == Delete
  {
    hide Doomed, Present;
    if !dryRun && k.person in holders {
      var doomed := Doomed(entries, Present(holders[k.person].slots));
      DoomedAre(entries, Present(holders[k.person].slots));
      if k.person == person && card in doomed {
        var i :| 0 <= i < |doomed| && doomed[i] == card;
        assert requests[i] in requests;
      }
    }
  }

  lemma OneMoreAsked(t: Table, done: set<Key>, holders: Holders, dryRun: bool, requests: map<Key, seq<Request>>, asked: seq<Request>,
                     k: Key, more: seq<Request>)
    requires AllAsked(t, done, holders, dryRun, requests, asked) && k in t && k !in done
    requires AsksFor(k, t[k], holders, dryRun, more)
    ensures AllAsked(t, done + {k}, holders, dryRun, requests[k := more], asked + more)
  {
    hide AsksFor;
    var after := requests[k := more];
    forall r ensures r in asked + more <==> exists x <- done + {k} :: r in after[x] {
      if x :| x in done && r in requests[x] {
        assert r in after[x];
      }
      if r in more {
        assert r in after[k];
      }
    }
  }

  method DeleteCards(cards: PacsCards, client: Millennium, holders: Holders, dryRun: bool)
    returns (ghost requests: map<Key, seq<Request>>)
    requires WellKeptTable(cards.table)
    modifies cards, client`asked
    ensures WellKeptTable(cards.table)
    ensures cards.table == AfterDeletes(old(cards.table), holders, AgreedIn(requests))
    ensures old(client.asked) <= client.asked
            && AllAsked(old(cards.table), old(cards.table.Keys), holders, dryRun, requests, client.asked[|old(client.asked)|..])
  {
    hide DeletesFor, WellKept, AllAsked, AsksFor, AgreedBy, Deleting, AgreedIn, WellKeptTable;
    ghost var t0 := cards.table;
    requests := map[];
    var todo := cards.table.Keys;
    NothingDeletedYet(t0, holders, dryRun);
    assert client.asked[|client.asked|..] == [];
    while todo != {}
      invariant todo <= t0.Keys && Deleting(t0, cards.table, todo, holders, AgreedIn(requests))
      invariant WellKeptTable(cards.table) && old(client.asked) <= client.asked
      invariant AllAsked(t0, t0.Keys - todo, holders, dryRun, requests, client.asked[|old(client.asked)|..])
      decreases todo
    {
      var k :| k in todo;
      ghost var t, before, asked := cards.table, requests, client.asked;
      StillToDelete(t0, t, todo, holders, AgreedIn(requests), k);
      ghost var more := DeleteOne(cards, client, holders, dryRun, k);
      requests := requests[k := more];
      assert client.asked[|old(client.asked)|..] == asked[|old(client.asked)|..] + more;
      OnePassDone(t0, t, cards.table, todo, holders, dryRun, before, asked[|old(client.asked)|..], k, more);
      todo := todo - {k};
    }
    AllDeleted(t0, cards.table, holders, AgreedIn(requests));
    assert t0.Keys - todo == t0.Keys;
  }

  lemma StillToDelete(t0: Table, t: Table, todo: set<Key>, holders: Holders, agreed: map<Key, set<Card>>, k: Key)
    requires Deleting(t0, t, todo, holders, agreed) && k in todo
    ensures k in t && k in t0 && t[k] == t0[k]
  {
  }

  lemma OnePassDone(t0: Table, t: Table, after: Table, todo: set<Key>, holders: Holders, dryRun: bool,
                    requests: map<Key, seq<Request>>, asked: seq<Request>, k: Key, more: seq<Request>)
    requires todo <= t0.Keys && k in todo && Deleting(t0, t, todo, holders, AgreedIn(requests)) && WellKeptTable(after)
    requires AllAsked(t0, t0.Keys - todo, holders, dryRun, requests, asked) && AsksFor(k, t0[k], holders, dryRun, more)
    requires after.Keys <= t.Keys && t.Keys <= after.Keys + {k} && forall x <- after :: x != k ==> after[x] == t[x]
    requires Entries(after, k) == DeletesFor(k, t0[k], holders, map[k := AgreedBy(more)])
    ensures Deleting(t0, after, todo - {k}, holders, AgreedIn(requests[k := more]))
    ensures AllAsked(t0, t0.Keys - (todo - {k}), holders, dryRun, requests[k := more], asked + more)
  {
    hide DeletesFor, AllAsked, AsksFor, AgreedBy, Deleting;
    SameAgreed(k, t0[k], holders, AgreedIn(requests), AgreedBy(more));
    if k in after { assert WellKept(after[k]); }
    assert AgreedIn(requests[k := more]) == AgreedIn(requests)[k := AgreedBy(more)];
    hide AgreedIn, WellKeptTable;
    OneDeleted(t0, t, todo, holders, AgreedIn(requests), k, after, AgreedBy(more));
    OneMoreAsked(t0, t0.Keys - todo, holders, dryRun, requests, asked, k, more);
    assert t0.Keys - (todo - {k}) == (t0.Keys - todo) + {k};
  }

  lemma NothingDeletedYet(t: Table, holders: Holders, dryRun: bool)
    requires WellKeptTable(t)
    ensures Deleting(t, t, t.Keys, holders, AgreedIn(map[]))
    ensures AllAsked(t, t.Keys - t.Keys, holders, dryRun, map[], [])
  {
    NothingAskedYet(t, holders, dryRun);
    hide AllAsked;
    forall k | k in t ensures t[k] != [] { assert WellKept(t[k]); }
  }

  lemma NothingAskedYet(t: Table, holders: Holders, dryRun: bool)
    ensures AllAsked(t, t.Keys - t.Keys, holders, dryRun, map[], [])
  {
  }

  lemma SameAgreed(k: Key, es: seq<Entry>, holders: Holders, agreed: map<Key, set<Card>>, some: set<Card>)
    ensures DeletesFor(k, es, holders, map[k := some]) == DeletesFor(k, es, holders, agreed[k := some])
  {
  }

  // ---- the rows sent ----

  /** Every change of a person, over all their passes, is in a slot of its own. */
  ghost predicate PersonApart(t: Table, person: string) {
    && (forall k <- t | k.person == person :: ApartInSlots(t[k]))
    && (forall j, k | j in t && k in t && j != k && j.person == person && k.person == person ::
          forall e <- t[j], f <- t[k] | Sendable(e) && Sendable(f) :: e.slot != f.slot)
  }

  ghost predicate CarriedFor(rows: map<string, Row>, t: Table, holders: Holders, stamp: Stamp, k: Key)
    requires k in t && k.person in holders
  {
    k.person in rows &&
    forall e <- t[k] | Sendable(e) ::
      Within(ChangeCells(e, t[k], Present(holders[k.person].slots), stamp), rows[k.person].cells)
  }

  /** The changes of the passes in `done` are in their cardholders' rows. */
  ghost predicate Carried(rows: map<string, Row>, t: Table, holders: Holders, stamp: Stamp, done: set<Key>) {
    forall k <- done :: k in t && Sent(k, t[k], holders) && (PersonApart(t, k.person) ==> CarriedFor(rows, t, holders, stamp, k))
  }

  lemma KeepsOthers(cells: map<Cell, string>, part: map<Cell, string>, t: Table, j: Key, k: Key, e: Entry,
                                       live: map<Card, Slot>, other: map<Card, Slot>, stamp: Stamp)
    requires j in t && k in t && j != k && j.person == k.person && PersonApart(t, k.person)
    requires e in t[j] && Sendable(e) && part == ChangeCells(e, t[j], other, stamp) && Within(part, cells)
    ensures Within(part, WithChanges(cells, t[k], live, stamp, |t[k]|))
  {
    hide ChangeCells;
    ChangeStaysInSlot(e, t[j], other, stamp);
    ChangesAreCarried(cells, t[k], live, stamp, |t[k]|);
    assert !SlotOf(t[k], e.slot);
  }

  lemma OneCarried(rows: map<string, Row>, after: map<string, Row>, t: Table, holders: Holders, stamp: Stamp, done: set<Key>, k: Key)
    requires Carried(rows, t, holders, stamp, done)
    requires k in t && k !in done && Sent(k, t[k], holders)
    requires k.person in after && after.Keys == rows.Keys + {k.person}
    requires forall p <- rows :: p != k.person ==> after[p] == rows[p]
    requires after[k.person].cells ==
             WithChanges(if k.person in rows then rows[k.person].cells else map[], t[k], Present(holders[k.person].slots), stamp, |t[k]|)
    ensures Carried(after, t, holders, stamp, done + {k})
  {
    hide ChangeCells, WithChanges, PersonApart, Present, Within;
    forall j | j in done + {k} && PersonApart(t, j.person)
      ensures CarriedFor(after, t, holders, stamp, j)
    {
      if j == k {
        CarriesItself(after, if k.person in rows then rows[k.person].cells else map[], t, holders, stamp, k);
      } else {
        StillCarried(rows, after, t, holders, stamp, j, k);
      }
    }
  }

  lemma CarriesItself(after: map<string, Row>, before: map<Cell, string>, t: Table, holders: Holders, stamp: Stamp, k: Key)
    requires k in t && k.person in holders && k.person in after && PersonApart(t, k.person)
    requires after[k.person].cells == WithChanges(before, t[k], Present(holders[k.person].slots), stamp, |t[k]|)
    ensures CarriedFor(after, t, holders, stamp, k)
  {
    hide ChangeCells, Present;
    ChangesAreCarried(before, t[k], Present(holders[k.person].slots), stamp, |t[k]|);
    assert ApartInSlots(t[k]);
  }

  lemma StillCarried(rows: map<string, Row>, after: map<string, Row>, t: Table, holders: Holders, stamp: Stamp, j: Key, k: Key)
    requires j in t && k in t && j != k && j.person in holders && CarriedFor(rows, t, holders, stamp, j) && PersonApart(t, j.person)
    requires k.person in holders && k.person in after && after.Keys == rows.Keys + {k.person}
    requires forall p <- rows :: p != k.person ==> after[p] == rows[p]
    requires after[k.person].cells ==
             WithChanges(if k.person in rows then rows[k.person].cells else map[], t[k], Present(holders[k.person].slots), stamp, |t[k]|)
    ensures CarriedFor(after, t, holders, stamp, j)
  {
    hide ChangeCells, WithChanges, PersonApart, Present, Within;
    if j.person == k.person {
      forall e | e in t[j] && Sendable(e)
        ensures Within(ChangeCells(e, t[j], Present(holders[j.person].slots), stamp), after[j.person].cells)
      {
        KeepsOthers(rows[k.person].cells, ChangeCells(e, t[j], Present(holders[j.person].slots), stamp), t, j, k, e,
                    Present(holders[k.person].slots), Present(holders[j.person].slots), stamp);
      }
    }
  }

  /** A row is a cardholder's, under their name, and holds changes of their passes and nothing else. */
  ghost predicate OnlyChanges(row: Row, t: Table, holders: Holders, stamp: Stamp) {
    && row.employeeId in holders && row.firstName == holders[row.employeeId].firstName && row.lastName == holders[row.employeeId].lastName
    && forall c <- row.cells ::
         exists k <- t, e <- t[k] ::
           && k.person == row.employeeId && (e.pending == Activate || e.pending == Deactivate || e.pending == Insert)
           && var change := ChangeCells(e, t[k], Present(holders[k.person].slots), stamp); c in change && row.cells[c] == change[c]
  }

  lemma StillOnlyChanges(row: Row, cells: map<Cell, string>, t: Table, holders: Holders, stamp: Stamp, k: Key)
    requires k in t && k.person in holders && row.employeeId == k.person && OnlyChanges(row, t, holders, stamp)
    requires cells == WithChanges(row.cells, t[k], Present(holders[k.person].slots), stamp, |t[k]|)
    ensures OnlyChanges(row.(cells := cells), t, holders, stamp)
  {
    hide ChangeCells, WithChanges, Present;
    var live := Present(holders[k.person].slots);
    ChangesAreCarried(row.cells, t[k], live, stamp, |t[k]|);
    forall c | c in cells
      ensures exists x <- t, e <- t[x] ::
                && x.person == row.employeeId && (e.pending == Activate || e.pending == Deactivate || e.pending == Insert)
                && var change := ChangeCells(e, t[x], Present(holders[x.person].slots), stamp); c in change && cells[c] == change[c]
    {
      if i :| 0 <= i < |t[k]| && Sendable(t[k][i]) && c in ChangeCells(t[k][i], t[k], live, stamp) && cells[c] == ChangeCells(t[k][i], t[k], live, stamp)[c] {
        assert t[k][i] in t[k];
      }
    }
  }

  lemma EmptyRow(t: Table, holders: Holders, stamp: Stamp, person: string)
    requires person in holders
    ensures OnlyChanges(Row(person, holders[person].firstName, holders[person].lastName, map[]), t, holders, stamp)
  {
  }

  method AddChanges(cells: map<Cell, string>, entries: seq<Entry>, live: map<Card, Slot>, stamp: Stamp) returns (after: map<Cell, string>)
    ensures after == WithChanges(cells, entries, live, stamp, |entries|)
  {
    after := cells;
    for n := 0 to |entries|
      invariant after == WithChanges(cells, entries, live, stamp, n)
    {
      if Sendable(entries[n]) {
        after := after + ChangeCells(entries[n], entries, live, stamp);
      }
    }
  }

  /** One row a cardholder, with the changes of all their passes. */
  method CollectRows(t: Table, holders: Holders, stamp: Stamp) returns (rows: map<string, Row>, pending: set<Key>)
    ensures forall k :: k in pending <==> k in t && Sent(k, t[k], holders)
    ensures Carried(rows, t, holders, stamp, pending)
    ensures forall p <- rows :: rows[p].employeeId == p && exists k <- pending :: k.person == p
    ensures forall k <- pending :: k.person in rows
    ensures forall p <- rows :: OnlyChanges(rows[p], t, holders, stamp)
  {
    rows, pending := map[], {};
    var todo := t.Keys;
    while todo != {}
      invariant todo <= t.Keys
      invariant forall k :: k in pending <==> k in t && k !in todo && Sent(k, t[k], holders)
      invariant Carried(rows, t, holders, stamp, pending)
      invariant forall p <- rows :: rows[p].employeeId == p && exists k <- pending :: k.person == p
      invariant forall k <- pending :: k.person in rows
      invariant forall p <- rows :: OnlyChanges(rows[p], t, holders, stamp)
      decreases todo
    {
      hide Carried, WithChanges, Present, OnlyChanges;
      var k :| k in todo;
      todo := todo - {k};
      if k.person in holders && exists e <- t[k] :: Sendable(e) {
        var holder := holders[k.person];
        var row := if k.person in rows then rows[k.person] else Row(k.person, holder.firstName, holder.lastName, map[]);
        var cells := AddChanges(row.cells, t[k], Present(holder.slots), stamp);
        if k.person !in rows {
          EmptyRow(t, holders, stamp, k.person);
        }
        StillOnlyChanges(row, cells, t, holders, stamp, k);
        OneCarried(rows, rows[k.person := row.(cells := cells)], t, holders, stamp, pending, k);
        rows := rows[k.person := row.(cells := cells)];
        pending := pending + {k};
      }
    }
  }

  /** The rows went out as one file per set of columns. */
  ghost predicate AsFiles(before: seq<ImportFile>, after: seq<ImportFile>, lines: seq<Row>) {
    && |after| == |before| + |Groups(lines)| && before <= after
    && forall i | 0 <= i < |Groups(lines)| :: FileOf(after[|before| + i], Groups(lines)[i])
  }

  /** All the logs together; None as soon as one import failed. */
  function Merged(answers: seq<Option<ImportLog>>): Option<ImportLog> {
    if answers == [] then Some(ImportLog({}, {})) else Both(Merged(answers[..|answers| - 1]), answers[|answers| - 1])
  }

  function Both(a: Option<ImportLog>, b: Option<ImportLog>): Option<ImportLog> {
    if a.None? || b.None? then None
    else Some(ImportLog(a.value.skippedPeople + b.value.skippedPeople, a.value.skippedCards + b.value.skippedCards))
  }

  /** A log needs every answer, and skips whatever one of them skips. */
  lemma {:induction false} MergedSays(answers: seq<Option<ImportLog>>, person: string, card: Card)
    ensures Merged(answers).Some? <==> forall a <- answers :: a.Some?
    ensures Merged(answers).Some? ==>
              && (person in Merged(answers).value.skippedPeople <==> exists a <- answers :: a.Some? && person in a.value.skippedPeople)
              && (card in Merged(answers).value.skippedCards <==> exists a <- answers :: a.Some? && card in a.value.skippedCards)
  {
    if answers == [] {
      NoAnswers();
    } else {
      hide Merged;
      var front, last := answers[..|answers| - 1], answers[|answers| - 1];
      assert answers == front + [last];
      MergedSays(front, person, card);
      OneMoreAnswer(front, last);
      BothSay(Merged(front), last, person, card);
      hide Both;
      assert forall a :: a in answers <==> a in front || a == last;
    }
  }

  lemma BothSay(a: Option<ImportLog>, b: Option<ImportLog>, person: string, card: Card)
    ensures Both(a, b).Some? <==> a.Some? && b.Some?
    ensures Both(a, b).Some? ==>
              && (person in Both(a, b).value.skippedPeople <==> person in a.value.skippedPeople || person in b.value.skippedPeople)
              && (card in Both(a, b).value.skippedCards <==> card in a.value.skippedCards || card in b.value.skippedCards)
  {
  }

  /** Every card identified, every cell a field's. */
  ghost predicate Importable(rows: seq<Row>) {
    (forall r <- rows :: Identified(r)) && forall r <- rows :: Mappable(Columns(r))
  }

  /** Imports one file per set of columns. There is a log exactly when the rows can be
      imported and every file was answered, and it is what the answers say together. */
  method SendRows(client: Millennium, rows: map<string, Row>) returns (log: Option<ImportLog>, ghost lines: seq<Row>)
    modifies client`sent, client`answers
    ensures forall r :: r in lines <==> exists p <- rows :: rows[p] == r
    ensures old(client.sent) <= client.sent && old(client.answers) <= client.answers
    ensures log == if Importable(lines) then Merged(client.answers[|old(client.answers)|..]) else None
    ensures log.Some? ==> AsFiles(old(client.sent), client.sent, lines)
  {
    hide Importable, Merged, FileOf;
    var list: seq<Row>, todo := [], rows.Keys;
    while todo != {}
      invariant todo <= rows.Keys
      invariant forall r :: r in list <==> exists p <- rows :: p !in todo && rows[p] == r
      decreases todo
    {
      var p :| p in todo;
      list, todo := list + [rows[p]], todo - {p};
    }
    lines := list;
    var built := Build(list);
    assert built.Built? <==> Importable(list) by { ImportableIs(list); }
    if built.Rejected? {
      return None, lines;
    }
    log := SendFiles(client, built.files);
  }

  lemma ImportableIs(rows: seq<Row>)
    ensures Importable(rows) <==> (forall r <- rows :: Identified(r)) && forall r <- rows :: Mappable(Columns(r))
  {
  }

  method SendFiles(client: Millennium, files: seq<ImportFile>) returns (log: Option<ImportLog>)
    modifies client`sent, client`answers
    ensures old(client.sent) <= client.sent && old(client.answers) <= client.answers
    ensures log == Merged(client.answers[|old(client.answers)|..])
    ensures log.Some? ==> client.sent == old(client.sent) + files
  {
    hide Merged;
    var total := ImportLog({}, {});
    ghost var said: seq<Option<ImportLog>> := [];
    NoAnswers();
    for i := 0 to |files|
      invariant client.answers == old(client.answers) + said && Merged(said) == Some(total)
      invariant client.sent == old(client.sent) + files[..i]
    {
      var answer := client.ImportCardholders(files[i]);
      assert files[..i + 1] == files[..i] + [files[i]];
      OneMoreAnswer(said, answer);
      said := said + [answer];
      assert client.answers == old(client.answers) + said;
      assert client.answers[|old(client.answers)|..] == said;
      if answer.None? {
        return None;
      }
      total := ImportLog(total.skippedPeople + answer.value.skippedPeople, total.skippedCards + answer.value.skippedCards);
    }
    assert files[..|files|] == files && client.answers[|old(client.answers)|..] == said;
    log := Some(total);
  }

  lemma NoAnswers()
    ensures Merged([]) == Some(ImportLog({}, {}))
  {
  }

  lemma OneMoreAnswer(said: seq<Option<ImportLog>>, answer: Option<ImportLog>)
    ensures Merged(said + [answer]) == Both(Merged(said), answer)
  {
    assert (said + [answer])[..|said|] == said;
  }

  // ---- crediting ----

  method CreditPass(entries: seq<Entry>, skippedCards: set<Card>) returns (credited: seq<Entry>)
    ensures credited == Credited(entries, skippedCards)
  {
    credited := entries;
    var taken := false;
    for i := 0 to |entries|
      invariant |credited| == |entries|
      invariant forall j | 0 <= j < |entries| :: credited[j] == if j < i then CreditedEntry(entries[j], skippedCards) else entries[j]
      invariant taken <==> exists j | 0 <= j < i :: entries[j].pending == Insert && entries[j].card !in skippedCards
    {
      var e := entries[i];
      if Sendable(e) && e.card !in skippedCards {
        taken := taken || e.pending == Insert;
        credited := credited[i := e.(active := Some(e.pending == Activate), pending := Settled)];
      }
    }
    assert credited == CreditEach(entries, skippedCards);
    assert taken <==> InsertTaken(entries, skippedCards);
    if taken {
      credited := Filter((e: Entry) => e.pending != Write, credited);
    }
  }

  ghost predicate Crediting(d: Table, t: Table, todo: set<Key>, holders: Holders, log: ImportLog) {
    && t.Keys == d.Keys
    && forall k <- d :: t[k] == if k in todo then d[k] else ImportFor(k, d[k], holders, log)
  }

  lemma AllCredited(d: Table, t: Table, todo: set<Key>, holders: Holders, log: ImportLog)
    requires Crediting(d, t, todo, holders, log)
    requires forall k <- todo :: k in d && !Sent(k, d[k], holders)
    ensures t == AfterImport(d, holders, log)
  {
  }

  method CreditOne(cards: PacsCards, holders: Holders, log: ImportLog, k: Key)
    requires WellKeptTable(cards.table) && k in cards.table && Sent(k, cards.table[k], holders)
    modifies cards
    ensures cards.table == old(cards.table)[k := ImportFor(k, old(cards.table)[k], holders, log)]
    ensures WellKeptTable(cards.table)
  {
    var entries := cards.Get(k);
    assert WellKept(entries);
    if k.person in log.skippedPeople {
      assert cards.table == cards.table[k := entries];
      return;
    }
    var credited := CreditPass(entries, log.skippedCards);
    CreditedIsStored(entries, log.skippedCards);
    RecordIsWellKept(cards.table, k, credited);
    cards.Record(k, credited);
  }

  /** Every pass of the import gets what the log confirms. */
  method CreditPasses(cards: PacsCards, holders: Holders, log: ImportLog, pending: set<Key>)
    requires WellKeptTable(cards.table)
    requires forall k :: k in pending <==> k in cards.table && Sent(k, cards.table[k], holders)
    modifies cards
    ensures cards.table == AfterImport(old(cards.table), holders, log) && WellKeptTable(cards.table)
  {
    hide ImportFor, WellKeptTable, Sent;
    ghost var d := cards.table;
    ghost var left := d.Keys;
    var todo := pending;
    while todo != {}
      invariant todo <= pending && left == todo + (d.Keys - pending)
      invariant Crediting(d, cards.table, left, holders, log) && WellKeptTable(cards.table)
      decreases todo
    {
      var k :| k in todo;
      assert cards.table[k] == d[k];
      CreditOne(cards, holders, log, k);
      todo, left := todo - {k}, left - {k};
    }
    AllCredited(d, cards.table, left, holders, log);
  }

  // ---- the whole flush ----

  ghost predicate AnyPending(t: Table, holders: Holders) {
    exists k <- t :: Sent(k, t[k], holders)
  }

  /** What a flush asked, sent and was answered. */
  datatype Flushed = Flushed(requests: map<Key, seq<Request>>, log: Option<ImportLog>, lines: seq<Row>)

  /** The flush as its answers have it: the import happens unless there is nothing to send or
      it is a dry run, and its log is what the answers say together. */
  ghost predicate AsAnswered(t: Table, holders: Holders, dryRun: bool, stamp: Stamp, f: Flushed,
                             sentBefore: seq<ImportFile>, sent: seq<ImportFile>, answers: seq<Option<ImportLog>>) {
    var d := AfterDeletes(t, holders, AgreedIn(f.requests));
    if dryRun || !AnyPending(d, holders) then sent == sentBefore && answers == [] && f.log.None?
    else
      && AllSent(d, holders, stamp, f.lines) && (forall r <- f.lines :: OnlyChanges(r, d, holders, stamp))
      && f.log == (if Importable(f.lines) then Merged(answers) else None)
      && (f.log.Some? ==> AsFiles(sentBefore, sent, f.lines))
  }

  method Finish(cards: PacsCards, client: Millennium, holders: Holders, dryRun: bool, stamp: Stamp) returns (ok: bool, ghost f: Flushed)
    requires WellKeptTable(cards.table)
    modifies cards, client
    ensures WellKeptTable(cards.table)
    ensures cards.table == AfterFlush(old(cards.table), holders, AgreedIn(f.requests), f.log)
    ensures old(client.asked) <= client.asked && old(client.answers) <= client.answers
    ensures AllAsked(old(cards.table), old(cards.table.Keys), holders, dryRun, f.requests, client.asked[|old(client.asked)|..])
    ensures AsAnswered(old(cards.table), holders, dryRun, stamp, f, old(client.sent), client.sent, client.answers[|old(client.answers)|..])
    ensures ok <==> f.log.Some? || dryRun || !AnyPending(AfterDeletes(old(cards.table), holders, AgreedIn(f.requests)), holders)
  {
    hide WellKeptTable, AsFiles, AfterDeletes, AfterImport, Sent, Carried, AllSent, OnlyChanges, AllAsked, Importable, Merged, AgreedIn;
    ghost var t0 := cards.table;
    ghost var requests := DeleteCards(cards, client, holders, dryRun);
    ok, f := true, Flushed(requests, None, []);
    ghost var d := cards.table;
    var rows, pending := CollectRows(cards.table, holders, stamp);
    assert rows == map[] <==> !AnyPending(d, holders) by {
      if k :| k in pending { assert k.person in rows; }
      if p :| p in rows { var k :| k in pending && k.person == p; }
    }
    assert client.answers[|old(client.answers)|..] == [];
    if rows == map[] || dryRun {
      return;
    }
    ghost var lines;
    var answer;
    answer, lines := SendRows(client, rows);
    f := Flushed(requests, answer, lines);
    RowsAreSent(rows, pending, d, holders, stamp, lines);
    if answer.None? {
      ok := false;
      return;
    }
    CreditPasses(cards, holders, answer.value, pending);
  }

  /** The import carries every pending change of every cardholder whose changes are in distinct slots. */
  ghost predicate AllSent(t: Table, holders: Holders, stamp: Stamp, lines: seq<Row>) {
    forall k <- t, e <- t[k] | k.person in holders && Sendable(e) && PersonApart(t, k.person) ::
      exists r <- lines :: r.employeeId == k.person && Within(ChangeCells(e, t[k], Present(holders[k.person].slots), stamp), r.cells)
  }

  lemma RowsAreSent(rows: map<string, Row>, pending: set<Key>, t: Table, holders: Holders, stamp: Stamp, lines: seq<Row>)
    requires forall k :: k in pending <==> k in t && Sent(k, t[k], holders)
    requires Carried(rows, t, holders, stamp, pending)
    requires forall p <- rows :: rows[p].employeeId == p && rows[p] in lines
    ensures AllSent(t, holders, stamp, lines)
  {
    hide ChangeCells, Present, PersonApart, Within;
    forall k, e | k in t && e in t[k] && k.person in holders && Sendable(e) && PersonApart(t, k.person)
      ensures exists r <- lines :: r.employeeId == k.person && Within(ChangeCells(e, t[k], Present(holders[k.person].slots), stamp), r.cells)
    {
      assert k in pending && CarriedFor(rows, t, holders, stamp, k);
      assert rows[k.person] in lines;
    }
  }
}

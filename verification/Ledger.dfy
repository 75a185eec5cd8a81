/** The `pacs_cards` ledger: which cards each pass rests on. */
module Ledger {
  import opened Base
  import opened Export

  /** The change a recorded card is waiting for; Settled when there is none. */
  datatype Pending = Settled | Write | Insert | Activate | Deactivate | Delete

  /** `active` is the Active box as we last wrote or saw it, None when unknown. */
  datatype Entry = Entry(slot: nat, card: Card, active: Option<bool>, pending: Pending, dormant: bool)

  datatype Key = Key(person: string, credential: string)

  type Table = map<Key, seq<Entry>>

  predicate Distinct(es: seq<Entry>) {
    forall i, j | 0 <= i < j < |es| :: es[i].card != es[j].card
  }

  predicate SlotSorted(es: seq<Entry>) {
    forall i, j | 0 <= i < j < |es| :: es[i].slot <= es[j].slot
  }

  /** What reading a credential back from the table always gives. */
  predicate WellKept(es: seq<Entry>) {
    |es| > 0 && Distinct(es) && SlotSorted(es)
  }

  ghost predicate WellKeptTable(t: Table) {
    forall k <- t :: WellKept(t[k])
  }

  function Entries(t: Table, k: Key): seq<Entry> {
    if k in t then t[k] else []
  }

  function Cards(es: seq<Entry>): set<Card> {
    set e <- es :: e.card
  }

  lemma SameCards(a: seq<Entry>, b: seq<Entry>)
    requires |a| == |b| && forall i | 0 <= i < |a| :: a[i].card == b[i].card
    ensures Cards(a) == Cards(b)
  {
    forall c ensures c in Cards(a) <==> c in Cards(b) {
      if e :| e in a && e.card == c {
        var i :| 0 <= i < |a| && a[i] == e;
        assert b[i] in b;
      }
      if e :| e in b && e.card == c {
        var i :| 0 <= i < |b| && b[i] == e;
        assert a[i] in a;
      }
    }
  }

  // ---- ORDER BY slot ----

  function InsertBySlot(es: seq<Entry>, e: Entry): seq<Entry> {
    if es == [] || es[|es| - 1].slot <= e.slot then es + [e]
    else InsertBySlot(es[..|es| - 1], e) + [es[|es| - 1]]
  }

  function SortBySlot(es: seq<Entry>): seq<Entry> {
    if es == [] then [] else InsertBySlot(SortBySlot(es[..|es| - 1]), es[|es| - 1])
  }

  lemma {:induction false} InsertBySlotMembers(es: seq<Entry>, e: Entry)
    ensures |InsertBySlot(es, e)| == |es| + 1
    ensures forall x :: x in InsertBySlot(es, e) <==> x == e || x in es
  {
    if es == [] || es[|es| - 1].slot <= e.slot {
    } else {
      InsertBySlotMembers(es[..|es| - 1], e);
      assert es == es[..|es| - 1] + [es[|es| - 1]];
    }
  }

  lemma {:induction false} InsertBySlotSorted(es: seq<Entry>, e: Entry)
    requires SlotSorted(es)
    ensures SlotSorted(InsertBySlot(es, e))
  {
    if es == [] || es[|es| - 1].slot <= e.slot {
    } else {
      var front, last := es[..|es| - 1], es[|es| - 1];
      InsertBySlotSorted(front, e);
      InsertBySlotMembers(front, e);
      var r := InsertBySlot(front, e);
      forall i | 0 <= i < |r|
        ensures r[i].slot <= last.slot
      {
        assert r[i] in r;
      }
    }
  }

  lemma {:induction false} InsertBySlotDistinct(es: seq<Entry>, e: Entry)
    requires Distinct(es) && e.card !in Cards(es)
    ensures Distinct(InsertBySlot(es, e))
  {
    if es == [] || es[|es| - 1].slot <= e.slot {
      forall x | x in es ensures x.card != e.card { assert x.card in Cards(es); }
    } else {
      var front, last := es[..|es| - 1], es[|es| - 1];
      forall x | x in front ensures x in es { }
      InsertBySlotDistinct(front, e);
      InsertBySlotMembers(front, e);
      assert last in es && last.card in Cards(es);
      var r := InsertBySlot(front, e);
      forall i | 0 <= i < |r|
        ensures r[i].card != last.card
      {
        assert r[i] in r;
      }
    }
  }

  /** ORDER BY only reorders: in slot order, with the same rows. */
  lemma {:induction false} SortBySlotKeeps(es: seq<Entry>)
    ensures SlotSorted(SortBySlot(es)) && |SortBySlot(es)| == |es|
    ensures forall x :: x in SortBySlot(es) <==> x in es
    ensures Distinct(es) ==> Distinct(SortBySlot(es))
  {
    if es != [] {
      var front, last := es[..|es| - 1], es[|es| - 1];
      SortBySlotKeeps(front);
      InsertBySlotSorted(SortBySlot(front), last);
      InsertBySlotMembers(SortBySlot(front), last);
      assert es == front + [last];
      if Distinct(es) {
        forall x | x in front ensures x.card != last.card { }
        InsertBySlotDistinct(SortBySlot(front), last);
      }
    }
  }

  lemma InsertAtEnd(front: seq<Entry>, e: Entry)
    requires front == [] || front[|front| - 1].slot <= e.slot
    ensures InsertBySlot(front, e) == front + [e]
  {
  }

  lemma {:induction false} SortedStays(es: seq<Entry>)
    requires SlotSorted(es)
    ensures SortBySlot(es) == es
  {
    if es != [] {
      hide InsertBySlot;
      var front, last := es[..|es| - 1], es[|es| - 1];
      assert es == front + [last];
      SortedStays(front);
      InsertAtEnd(front, last);
    }
  }

  // ---- one row per physical card: the last one offered ----

  function Upsert(kept: seq<Entry>, e: Entry): seq<Entry> {
    if kept == [] then [e]
    else if kept[0].card == e.card then [e] + kept[1..]
    else [kept[0]] + Upsert(kept[1..], e)
  }

  function Dedupe(es: seq<Entry>): seq<Entry> {
    if es == [] then [] else Upsert(Dedupe(es[..|es| - 1]), es[|es| - 1])
  }

  lemma {:induction false} UpsertKeeps(kept: seq<Entry>, e: Entry)
    requires Distinct(kept)
    ensures Distinct(Upsert(kept, e))
    ensures forall x :: x in Upsert(kept, e) <==> x == e || (x in kept && x.card != e.card)
    ensures e.card !in Cards(kept) ==> Upsert(kept, e) == kept + [e]
  {
    if kept != [] {
      var rest := kept[1..];
      assert kept == [kept[0]] + rest;
      if kept[0].card != e.card {
        UpsertKeeps(rest, e);
        hide Distinct;
        assert e.card !in Cards(kept) ==> e.card !in Cards(rest);
        DistinctCons(kept[0], Upsert(rest, e));
      } else {
        DistinctCons(e, rest);
      }
    }
  }

  lemma DistinctCons(e: Entry, rest: seq<Entry>)
    ensures Distinct([e] + rest) <==> Distinct(rest) && forall x <- rest :: x.card != e.card
  {
    var s := [e] + rest;
    if Distinct(s) {
      forall i, j | 0 <= i < j < |rest| ensures rest[i].card != rest[j].card {
        assert s[i + 1] == rest[i] && s[j + 1] == rest[j];
      }
      forall x | x in rest ensures x.card != e.card {
        var i :| 0 <= i < |rest| && rest[i] == x;
        assert s[0] == e && s[i + 1] == x;
      }
    } else {
      var i, j :| 0 <= i < j < |s| && s[i].card == s[j].card;
      assert s[j] == rest[j - 1] && rest[j - 1] in rest;
    }
  }

  /** e is the last entry of `es` for its card. */
  predicate LastOfItsCard(es: seq<Entry>, e: Entry) {
    exists i | 0 <= i < |es| :: es[i] == e && forall j | i < j < |es| :: es[j].card != e.card
  }

  lemma LastOfItsCardStep(front: seq<Entry>, last: Entry, x: Entry)
    ensures LastOfItsCard(front + [last], x) <==> x == last || (LastOfItsCard(front, x) && x.card != last.card)
  {
    var es := front + [last];
    assert es[|front|] == last;
    if LastOfItsCard(es, x) && x != last {
      var i :| 0 <= i < |es| && es[i] == x && forall j | i < j < |es| :: es[j].card != x.card;
      assert front[i] == x && forall j | i < j < |front| :: front[j] == es[j];
    }
    if LastOfItsCard(front, x) && x.card != last.card {
      var i :| 0 <= i < |front| && front[i] == x && forall j | i < j < |front| :: front[j].card != x.card;
      assert es[i] == x;
      forall j | i < j < |es| ensures es[j].card != x.card {
        if j < |front| { assert front[j] == es[j]; }
      }
    }
  }

  lemma {:induction false} DedupeKeepsTheLast(es: seq<Entry>)
    ensures Distinct(Dedupe(es))
    ensures forall x :: x in Dedupe(es) <==> LastOfItsCard(es, x)
  {
    if es != [] {
      var front, last := es[..|es| - 1], es[|es| - 1];
      DedupeKeepsTheLast(front);
      UpsertKeeps(Dedupe(front), last);
      assert es == front + [last];
      forall x ensures x in Dedupe(es) <==> LastOfItsCard(es, x) {
        LastOfItsCardStep(front, last, x);
      }
    }
  }

  lemma {:induction false} DistinctIsDeduped(es: seq<Entry>)
    requires Distinct(es)
    ensures Dedupe(es) == es
  {
    if es != [] {
      var front, last := es[..|es| - 1], es[|es| - 1];
      hide Upsert;
      assert es == front + [last];
      DistinctIsDeduped(front);
      forall x | x in front ensures x.card != last.card {
        var i :| 0 <= i < |front| && front[i] == x;
        assert es[i] == x;
      }
      UpsertKeeps(front, last);
    }
  }

  // ---- the Active box survives a re-record ----

  function KnownActive(before: seq<Entry>, card: Card): Option<bool> {
    if before == [] then None
    else if before[|before| - 1].card == card && before[|before| - 1].active.Some? then before[|before| - 1].active
    else KnownActive(before[..|before| - 1], card)
  }

  function Filled(before: seq<Entry>, e: Entry): Entry {
    if e.active.Some? then e else e.(active := KnownActive(before, e.card))
  }

  function FillAll(before: seq<Entry>, es: seq<Entry>): (r: seq<Entry>)
    ensures |r| == |es|
    ensures forall i | 0 <= i < |es| :: r[i] == Filled(before, es[i])
  {
    seq(|es|, i requires 0 <= i < |es| => Filled(before, es[i]))
  }

  lemma {:induction false} KnownActiveIs(before: seq<Entry>, e: Entry)
    requires Distinct(before) && e in before
    ensures KnownActive(before, e.card) == e.active
  {
    var n := |before| - 1;
    if before[n] == e {
      if e.active.None? {
        assert before[..n] == before[..n];
        KnownNothing(before[..n], e.card);
      }
    } else {
      assert before[n].card != e.card;
      KnownActiveIs(before[..n], e);
    }
  }

  lemma {:induction false} KnownNothing(before: seq<Entry>, card: Card)
    requires card !in Cards(before)
    ensures KnownActive(before, card) == None
  {
    if before != [] {
      assert before[|before| - 1] in before;
      KnownNothing(before[..|before| - 1], card);
    }
  }

  /** The rows a credential has after `entries` are recorded over `before`. */
  function Stored(before: seq<Entry>, entries: seq<Entry>): seq<Entry> {
    SortBySlot(FillAll(before, Dedupe(entries)))
  }

  function Recorded(t: Table, k: Key, entries: seq<Entry>): Table {
    var rows := Stored(Entries(t, k), entries);
    if rows == [] then t - {k} else t[k := rows]
  }

  /** Recording keeps one row per card, the last one offered, in slot order; a
      box left unsaid keeps what was recorded for that card before. */
  lemma RecordKeepsLastPerCard(before: seq<Entry>, entries: seq<Entry>)
    requires Distinct(before)
    ensures Distinct(Stored(before, entries)) && SlotSorted(Stored(before, entries))
    ensures forall r :: r in Stored(before, entries) <==> exists e <- entries :: LastOfItsCard(entries, e) && r == Filled(before, e)
    ensures (Stored(before, entries) == []) <==> (entries == [])
    ensures forall e <- before, r <- Stored(before, entries) ::
              e.card == r.card && e.active.Some? && r.active != e.active
              ==> exists x <- entries :: x.card == r.card && x.active == r.active
  {
    DedupeKeepsTheLast(entries);
    var kept := Dedupe(entries);
    var filled := FillAll(before, kept);
    SortBySlotKeeps(filled);
    forall r
      ensures r in Stored(before, entries) <==> exists e <- entries :: LastOfItsCard(entries, e) && r == Filled(before, e)
    {
      if r in filled {
        var i :| 0 <= i < |filled| && filled[i] == r;
        assert kept[i] in kept && LastOfItsCard(entries, kept[i]);
      }
      if e :| e in entries && LastOfItsCard(entries, e) && r == Filled(before, e) {
        assert e in kept;
        var i :| 0 <= i < |kept| && kept[i] == e;
        assert filled[i] == r;
      }
    }
    if entries != [] {
      var last := entries[|entries| - 1];
      assert LastOfItsCard(entries, last);
      assert Filled(before, last) in Stored(before, entries);
    }
    forall e, r | e in before && r in Stored(before, entries) && e.card == r.card && e.active.Some? && r.active != e.active
      ensures exists x <- entries :: x.card == r.card && x.active == r.active
    {
      var x :| x in entries && LastOfItsCard(entries, x) && r == Filled(before, x);
      if x.active.None? {
        KnownActiveIs(before, e);
        assert false;
      }
    }
  }

  lemma RecordIsWellKept(t: Table, k: Key, entries: seq<Entry>)
    requires WellKeptTable(t)
    ensures WellKeptTable(Recorded(t, k, entries))
    ensures Entries(Recorded(t, k, entries), k) == Stored(Entries(t, k), entries)
  {
    RecordKeepsLastPerCard(Entries(t, k), entries);
  }

  /** Entries that are already in order, and that forget no box, are stored as they are. */
  lemma StoredAsGiven(before: seq<Entry>, entries: seq<Entry>)
    requires Distinct(before) && Distinct(entries) && SlotSorted(entries)
    requires forall e <- entries, b <- before :: e.card == b.card && e.active.None? ==> b.active.None?
    ensures Stored(before, entries) == entries
  {
    NothingToFill(before, entries);
    SortedStays(entries);
  }

  lemma NothingToFill(before: seq<Entry>, entries: seq<Entry>)
    requires Distinct(before) && Distinct(entries)
    requires forall e <- entries, b <- before :: e.card == b.card && e.active.None? ==> b.active.None?
    ensures FillAll(before, Dedupe(entries)) == entries
    ensures Stored(before, entries) == SortBySlot(entries)
  {
    DistinctIsDeduped(entries);
    forall i | 0 <= i < |entries|
      ensures Filled(before, entries[i]) == entries[i]
    {
      var e := entries[i];
      if e.active.None? {
        if e.card in Cards(before) {
          var b :| b in before && b.card == e.card;
          KnownActiveIs(before, b);
        } else {
          KnownNothing(before, e.card);
        }
      }
    }
    assert FillAll(before, entries) == entries;
  }

  /** Changing entries in place, without unlearning a box, stores them in place. */
  lemma StoredInPlace(before: seq<Entry>, changed: seq<Entry>)
    requires Distinct(before) && SlotSorted(before) && |changed| == |before|
    requires forall i | 0 <= i < |before| ::
               changed[i].card == before[i].card && changed[i].slot == before[i].slot
               && (changed[i].active.None? ==> before[i].active.None?)
    ensures Distinct(changed) && SlotSorted(changed)
    ensures Stored(before, changed) == changed
  {
    forall e, b | e in changed && b in before && e.card == b.card && e.active.None?
      ensures b.active.None?
    {
      var i :| 0 <= i < |changed| && changed[i] == e;
      var j :| 0 <= j < |before| && before[j] == b;
      assert before[i].card == before[j].card;
    }
    StoredAsGiven(before, changed);
  }

  // ---- the table itself ----

  /** The boxes recorded before, by card. */
  ghost predicate KnownAre(before: seq<Entry>, known: map<Card, bool>) {
    && (forall c :: c in known <==> KnownActive(before, c).Some?)
    && (forall c <- known :: KnownActive(before, c) == Some(known[c]))
  }

  method KnownBoxes(before: seq<Entry>) returns (known: map<Card, bool>)
    ensures KnownAre(before, known)
  {
    known := map[];
    for i := 0 to |before|
      invariant KnownAre(before[..i], known)
    {
      assert before[..i + 1][..i] == before[..i];
      if before[i].active.Some? {
        known := known[before[i].card := before[i].active.value];
      }
    }
    assert before[..|before|] == before;
  }

  method LastPerCard(entries: seq<Entry>) returns (deduped: seq<Entry>)
    ensures deduped == Dedupe(entries)
  {
    hide Upsert;
    deduped := [];
    for i := 0 to |entries|
      invariant deduped == Dedupe(entries[..i])
    {
      assert entries[..i + 1][..i] == entries[..i];
      deduped := Upsert(deduped, entries[i]);
    }
    assert entries[..|entries|] == entries;
  }

  method Fill(before: seq<Entry>, known: map<Card, bool>, deduped: seq<Entry>) returns (rows: seq<Entry>)
    requires KnownAre(before, known)
    ensures rows == FillAll(before, deduped)
  {
    hide KnownActive;
    rows := [];
    for i := 0 to |deduped|
      invariant |rows| == i && forall j | 0 <= j < i :: rows[j] == Filled(before, deduped[j])
    {
      var e := deduped[i];
      if e.active.None? && e.card in known {
        e := e.(active := Some(known[e.card]));
      }
      rows := rows + [e];
    }
  }

  class PacsCards {
    var table: Table

    constructor ()
      ensures table == map[]
    {
      table := map[];
    }

    method Get(k: Key) returns (entries: seq<Entry>)
      ensures entries == Entries(table, k)
    {
      entries := if k in table then table[k] else [];
    }

    /** Replace a credential's recorded cards. */
    method Record(k: Key, entries: seq<Entry>)
      modifies this
      ensures table == Recorded(old(table), k, entries)
    {
      hide Dedupe, FillAll, KnownActive, SortBySlot;
      var before := Get(k);
      var known := KnownBoxes(before);
      var deduped := LastPerCard(entries);
      var rows := Fill(before, known, deduped);
      table := table - {k};
      SortBySlotKeeps(rows);
      if rows != [] {
        table := table[k := SortBySlot(rows)];
      }
    }

    method Forget(k: Key)
      modifies this
      ensures table == old(table) - {k}
    {
      table := table - {k};
    }
  }
}

/** What one read of a cardholder records, follows and holds, said of the slots and the records it found,
    without the walk that finds them. */
module ReadingRecords {
  import opened Base
  import opened Order
  import opened Export
  import opened Pacs
  import opened Ledger
  import opened SeosStatus
  import opened Reading
  import opened ReadingStability

  // ---- the records in a slot's way ----

  /** A card recorded for the slot, written there already, that no earlier slot was found to hold. */
  predicate InTheWay(r: Reader, e: Entry, i: nat)
    requires i < |r.slots|
  {
    e.slot == r.slots[i].index && e.pending != Insert && forall j | 0 <= j < i :: !(IsTrigger(r, r.slots[j]) && r.slots[j].card == e.card)
  }

  predicate Blocks(r: Reader, es: seq<Entry>, i: nat)
    requires i < |r.slots|
  {
    exists e <- es :: InTheWay(r, e, i)
  }

  predicate Blocked(r: Reader, b: Book, i: nat)
    requires i < |r.slots|
  {
    exists id <- b :: Blocks(r, b[id], i)
  }

  /** Of the passes in a slot's way, the first by its id. */
  predicate FirstInTheWay(r: Reader, b: Book, id: string, i: nat)
    requires i < |r.slots|
  {
    id in b && Blocks(r, b[id], i) && forall x <- b :: Blocks(r, b[x], i) ==> x == id || TextLess(id, x)
  }

  /** A trigger card no pass of theirs holds. */
  predicate Unclaimed(r: Reader, b: Book, i: nat)
    requires i < |r.slots|
  {
    IsTrigger(r, r.slots[i]) && !Claimed(b, r.slots[i].card)
  }

  /** Somebody with nothing recorded has to be new: none of their passes is tracked, and of the trigger
      cards up to here one is recorded on nobody else. */
  predicate Newcomer(r: Reader, i: nat)
    requires i < |r.slots|
  {
    r.tracked == {} && exists j | 0 <= j <= i :: IsTrigger(r, r.slots[j]) && r.slots[j].card !in r.elsewhere
  }

  predicate IsRecorded(r: Reader, b: Book, i: nat)
    requires i < |r.slots|
  {
    Unclaimed(r, b, i) && !Blocked(r, b, i) && HasRoom(r) && (b != map[] || Newcomer(r, i))
  }

  predicate MadeFor(r: Reader, b: Book, book: Book, i: nat)
    requires i < |r.slots|
  {
    exists id <- book :: id !in b && book[id] == [NewEntry(r, r.slots[i])]
  }

  /** What the walk has recorded after n slots is what is to be recorded, and for what it has put on hold
      there is a cause. */
  ghost predicate RecordsSoFar(r: Reader, b: Book, st: Scan, n: nat)
    requires n <= |r.slots|
  {
    forall i | 0 <= i < n :: MadeFor(r, b, st.book, i) <==> IsRecorded(r, b, i)
  }

  ghost predicate HeldSoFar(r: Reader, b: Book, st: Scan, n: nat)
    requires n <= |r.slots|
  {
    forall id :: id in st.held <==> id in DormantIds(r, b) || exists i | 0 <= i < n :: Unclaimed(r, b, i) && FirstInTheWay(r, b, id, i)
  }

  // ---- found in the way ----

  lemma UnshiftedIsInTheWay(r: Reader, e: Entry, n: nat)
    requires DistinctSlots(r.slots) && n < |r.slots| && IsTrigger(r, r.slots[n])
    ensures At(ShiftedEntry(r, e, n), r.slots[n].index) <==> InTheWay(r, e, n)
  {
    var found := SlotFor(r, e.card, n);
    if found.Some? {
      var j :| 0 <= j < n && r.slots[j] == found.value;
      assert r.slots[j].index != r.slots[n].index;
      assert IsTrigger(r, r.slots[j]) && r.slots[j].card == e.card;
    }
  }

  lemma AtIsInTheWay(r: Reader, b: Book, st: Scan, n: nat, id: string)
    requires DistinctSlots(r.slots) && n < |r.slots| && IsTrigger(r, r.slots[n])
    requires id in b && id in st.book && st.book[id] == Shifted(r, b[id], n)
    ensures AnyAt(st.book, id, r.slots[n].index) <==> Blocks(r, b[id], n)
  {
    hide InTheWay, At, ShiftedEntry;
    var es, f, index := b[id], Shifted(r, b[id], n), r.slots[n].index;
    forall m | 0 <= m < |es| ensures At(f[m], index) <==> InTheWay(r, es[m], n) {
      UnshiftedIsInTheWay(r, es[m], n);
    }
    if e :| e in f && At(e, index) {
      var m :| 0 <= m < |f| && f[m] == e;
      assert es[m] in es;
    }
    if e :| e in es && InTheWay(r, e, n) {
      var m :| 0 <= m < |es| && es[m] == e;
      assert f[m] in f;
    }
  }

  /** The first record found for an unclaimed slot belongs to the first pass in its way. */
  lemma FoundIsFirstInTheWay(r: Reader, b: Book, st: Scan, n: nat, e: Entry) returns (id: string)
    requires DistinctSlots(r.slots) && n < |r.slots| && IsTrigger(r, r.slots[n]) && OrderInv(b, st) && BookInv(r, b, st, n)
    requires FirstAt(st.order, st.book, r.slots[n].index) == Some(e)
    ensures FirstInTheWay(r, b, id, n) && (set x | x in st.book && e in st.book[x]) == {id}
  {
    hide Blocks, InTheWay, TextLess, Shifted;
    var k := FoundFirst(st.order, st.book, r.slots[n].index);
    id := st.order[k];
    assert AnyAt(st.book, id, r.slots[n].index);
    MadeEarlierElsewhere(r, b, st, n);
    AtIsInTheWay(r, b, st, n, id);
    OnlyOneHolds(st.book, id, e);
    var sorted := SortedSet(TextLess, b.Keys);
    assert k < |sorted| && st.order[k] == sorted[k];
    forall x | x in b && Blocks(r, b[x], n) ensures x == id || TextLess(id, x) {
      AtIsInTheWay(r, b, st, n, x);
      var j := PlaceOf(b.Keys, k, x);
      assert st.order[j] == sorted[j];
    }
  }

  lemma NothingInTheWay(r: Reader, b: Book, st: Scan, n: nat)
    requires DistinctSlots(r.slots) && n < |r.slots| && IsTrigger(r, r.slots[n]) && OrderInv(b, st) && BookInv(r, b, st, n)
    requires FirstAt(st.order, st.book, r.slots[n].index) == None
    ensures !Blocked(r, b, n)
  {
    hide Blocks, InTheWay, Shifted;
    NothingFound(st.order, st.book, r.slots[n].index);
    forall id | id in b ensures !Blocks(r, b[id], n) {
      AtIsInTheWay(r, b, st, n, id);
      assert id in st.order;
    }
  }

  /** No pass is recorded for a slot before the walk comes to it. */
  lemma NotMadeYet(r: Reader, b: Book, st: Scan, n: nat)
    requires DistinctSlots(r.slots) && n < |r.slots| && BookInv(r, b, st, n)
    ensures !MadeFor(r, b, st.book, n)
  {
    forall id | id in st.book && id !in b ensures st.book[id] != [NewEntry(r, r.slots[n])] {
      var i :| 0 <= i < n && MadeFrom(r, b, r.slots[i], st.book[id]);
      assert r.slots[i].index != r.slots[n].index;
      assert st.book[id][0].slot == r.slots[i].index;
    }
  }

  // ---- one slot of the walk ----

  lemma SameNewPasses(r: Reader, b: Book, before: Book, after: Book, i: nat)
    requires i < |r.slots|
    requires forall id :: id !in b ==> (id in before <==> id in after) && (id in before ==> after[id] == before[id])
    ensures MadeFor(r, b, before, i) <==> MadeFor(r, b, after, i)
  {
  }

  lemma NothingMore(r: Reader, b: Book, st: Scan, after: Scan, n: nat)
    requires DistinctSlots(r.slots) && n < |r.slots| && BookInv(r, b, st, n) && RecordsSoFar(r, b, st, n)
    requires forall id :: id !in b ==> (id in st.book <==> id in after.book) && (id in st.book ==> after.book[id] == st.book[id])
    requires !IsRecorded(r, b, n)
    ensures RecordsSoFar(r, b, after, n + 1)
  {
    hide MadeFor, IsRecorded, BookInv;
    NotMadeYet(r, b, st, n);
    forall i | 0 <= i < n + 1 ensures MadeFor(r, b, after.book, i) <==> IsRecorded(r, b, i) {
      SameNewPasses(r, b, st.book, after.book, i);
    }
  }

  lemma OneMore(r: Reader, b: Book, st: Scan, n: nat, id: string)
    requires n < |r.slots| && RecordsSoFar(r, b, st, n) && id !in st.book && id !in b && IsRecorded(r, b, n)
    requires forall i | 0 <= i < n :: r.slots[i].index != r.slots[n].index
    ensures RecordsSoFar(r, b, st.(order := st.order + [id], book := st.book[id := [NewEntry(r, r.slots[n])]]), n + 1)
  {
    hide IsRecorded;
    var book := st.book[id := [NewEntry(r, r.slots[n])]];
    forall i | 0 <= i < n + 1 ensures MadeFor(r, b, book, i) <==> IsRecorded(r, b, i) {
      if i == n {
        assert book[id] == [NewEntry(r, r.slots[n])];
      } else {
        assert NewEntry(r, r.slots[i]).slot != NewEntry(r, r.slots[n]).slot;
        if x :| x in st.book && x !in b && st.book[x] == [NewEntry(r, r.slots[i])] {
          assert book[x] == [NewEntry(r, r.slots[i])];
        }
      }
    }
  }

  /** With nothing recorded, a walk has recorded something once a newcomer's card was met. */
  lemma NewcomerIsMet(r: Reader, b: Book, st: Scan, n: nat)
    requires n < |r.slots| && BookInv(r, b, st, n) && RecordsSoFar(r, b, st, n) && b == map[] && HasRoom(r) && IsTrigger(r, r.slots[n])
    ensures Newcomer(r, n) <==> st.book != map[] || !Mismatched(r, r.slots[n].card)
  {
    forall i | 0 <= i < n && IsTrigger(r, r.slots[i]) && Newcomer(r, i) ensures st.book != map[] {
      assert Unclaimed(r, b, i) && !Blocked(r, b, i);
      assert IsRecorded(r, b, i);
      assert MadeFor(r, b, st.book, i);
    }
    if st.book != map[] {
      var i :| 0 <= i < n && IsTrigger(r, r.slots[i]) && !Mismatched(r, r.slots[i].card) && HasRoom(r);
    }
    if Newcomer(r, n) {
      var j :| 0 <= j <= n && IsTrigger(r, r.slots[j]) && r.slots[j].card !in r.elsewhere;
      if j < n {
        assert Newcomer(r, j);
      }
    }
  }

  /** The book the walk has come to is empty only if it began so. */
  lemma StillEmpty(r: Reader, b: Book, st: Scan, n: nat)
    requires n <= |r.slots| && BookInv(r, b, st, n) && st.book == map[]
    ensures b == map[]
  {
    assert forall id :: id in b ==> id in st.book;
  }

  /** A slot whose card nobody holds, with nothing in its way. */
  lemma FreeSlotIsRecorded(r: Reader, b: Book, st: Scan, n: nat)
    requires DistinctSlots(r.slots) && n < |r.slots| && OrderInv(b, st) && BookInv(r, b, st, n) && RecordsSoFar(r, b, st, n)
    requires IsTrigger(r, r.slots[n]) && OwnerOf(st.order, st.book, r.slots[n].card) == None && FirstAt(st.order, st.book, r.slots[n].index) == None
    ensures RecordsSoFar(r, b, ScanSlot(r, st, r.slots[n]), n + 1)
  {
    hide RecordsSoFar, MadeFor, Blocked, Newcomer, HasRoom, Mismatched, FreshId, Claimed, OrderInv, BookInv;
    var s, after := r.slots[n], ScanSlot(r, st, r.slots[n]);
    NobodyHolds(r, b, st, n);
    NothingInTheWay(r, b, st, n);
    if b == map[] && HasRoom(r) {
      NewcomerIsMet(r, b, st, n);
    }
    if st.book == map[] {
      StillEmpty(r, b, st, n);
    }
    if (st.book == map[] && Mismatched(r, s.card)) || !HasRoom(r) {
      NothingMore(r, b, st, after, n);
    } else {
      FreshIdIsFree(st.book.Keys);
      var id := FreshId(st.book.Keys);
      OldIsThere(r, b, st, n, id);
      OneMore(r, b, st, n, id);
    }
  }

  lemma OldIsThere(r: Reader, b: Book, st: Scan, n: nat, id: string)
    requires n <= |r.slots| && BookInv(r, b, st, n) && id !in st.book
    ensures id !in b
  {
    assert forall x <- b :: x in st.book;
  }

  lemma SlotIsRecorded(r: Reader, b: Book, st: Scan, n: nat)
    requires DistinctSlots(r.slots) && n < |r.slots| && OrderInv(b, st) && BookInv(r, b, st, n) && RecordsSoFar(r, b, st, n)
    ensures RecordsSoFar(r, b, ScanSlot(r, st, r.slots[n]), n + 1)
  {
    hide RecordsSoFar, MadeFor, Blocked, Newcomer, HasRoom, Mismatched, FreshId, Claimed, OrderInv, BookInv, Moved, Holds;
    var s, after := r.slots[n], ScanSlot(r, st, r.slots[n]);
    if !IsTrigger(r, s) {
      NothingMore(r, b, st, after, n);
    } else if OwnerOf(st.order, st.book, s.card).Some? {
      OwnerIsOld(r, b, st, n, OwnerOf(st.order, st.book, s.card).value);
      NothingMore(r, b, st, after, n);
    } else if FirstAt(st.order, st.book, s.index).Some? {
      var id := FoundIsFirstInTheWay(r, b, st, n, FirstAt(st.order, st.book, s.index).value);
      BlocksIsBlocked(r, b, id, n);
      NothingMore(r, b, st, after, n);
    } else {
      FreeSlotIsRecorded(r, b, st, n);
    }
  }

  lemma BlocksIsBlocked(r: Reader, b: Book, id: string, n: nat)
    requires n < |r.slots| && FirstInTheWay(r, b, id, n)
    ensures Blocked(r, b, n)
  {
  }

  lemma SlotIsHeld(r: Reader, b: Book, st: Scan, n: nat)
    requires DistinctSlots(r.slots) && n < |r.slots| && OrderInv(b, st) && BookInv(r, b, st, n) && HeldSoFar(r, b, st, n)
    ensures HeldSoFar(r, b, ScanSlot(r, st, r.slots[n]), n + 1)
  {
    hide FirstInTheWay, HasRoom, Mismatched, FreshId, Claimed, DormantIds, OrderInv, BookInv, Moved, Holds, Blocked;
    var s, after := r.slots[n], ScanSlot(r, st, r.slots[n]);
    if !IsTrigger(r, s) {
    } else if OwnerOf(st.order, st.book, s.card).Some? {
      OwnerIsOld(r, b, st, n, OwnerOf(st.order, st.book, s.card).value);
    } else if FirstAt(st.order, st.book, s.index).Some? {
      NobodyHolds(r, b, st, n);
      var id := FoundIsFirstInTheWay(r, b, st, n, FirstAt(st.order, st.book, s.index).value);
      OneIsFirst(r, b, id, n);
    } else {
      NothingInTheWay(r, b, st, n);
      NoneIsFirst(r, b, n);
    }
  }

  lemma OneIsFirst(r: Reader, b: Book, id: string, n: nat)
    requires n < |r.slots| && FirstInTheWay(r, b, id, n)
    ensures forall x :: FirstInTheWay(r, b, x, n) <==> x == id
  {
    hide Blocks;
    TextIsOrdered();
  }

  lemma NoneIsFirst(r: Reader, b: Book, n: nat)
    requires n < |r.slots| && !Blocked(r, b, n)
    ensures forall x :: !FirstInTheWay(r, b, x, n)
  {
    hide Blocks;
  }

  lemma {:induction false} WalkRecords(r: Reader, b: Book, n: nat)
    requires DistinctSlots(r.slots) && n <= |r.slots| && CardsApart(b) && RefreshedBook(r, b) == b
    ensures RecordsSoFar(r, b, ScanSlots(r, Start(r, b), n), n) && HeldSoFar(r, b, ScanSlots(r, Start(r, b), n), n)
  {
    hide OrderInv, BookInv, HeldInv, RecordsSoFar, HeldSoFar;
    if n == 0 {
      WalkBegins(r, b);
    } else {
      WalkRecords(r, b, n - 1);
      WalkStarts(r, b);
      WalkKeeps(r, b, DormantIds(r, b), Start(r, b), n - 1);
      SlotIsRecorded(r, b, ScanSlots(r, Start(r, b), n - 1), n - 1);
      SlotIsHeld(r, b, ScanSlots(r, Start(r, b), n - 1), n - 1);
    }
  }

  lemma WalkBegins(r: Reader, b: Book)
    ensures RecordsSoFar(r, b, Start(r, b), 0) && HeldSoFar(r, b, Start(r, b), 0)
  {
  }

  // ---- what a read starts from ----

  /** A Seos read of somebody the cycle knew cards of, who has no trigger card left, starts from the passes
      one of whose cards is still there; any other starts from what was recorded. A DESFire read of somebody
      with nothing recorded first takes the card now in each slot a pass was tracked by. */
  lemma StartsFrom(r: Reader, ours: bool, b: Book, id: string)
    requires DistinctSlots(r.slots)
    ensures r.seos ==>
              && (id in Prepared(r, ours, b) <==>
                    && id in b
                    && (ours ==> || (exists s <- r.slots :: r.trigger != "" && s.format == r.trigger && s.card.number != "")
                                 || (exists e <- b[id], s <- r.slots :: s.card == e.card && s.card.number != "")))
              && (id in Prepared(r, ours, b) ==> Prepared(r, ours, b)[id] == b[id])
    ensures !r.seos && b != map[] ==> Prepared(r, ours, b) == b
    ensures !r.seos && b == map[] ==>
              && (id in Prepared(r, ours, b) <==>
                    && id in r.slotIds
                    && exists s <- r.slots :: r.trigger != "" && s.format == r.trigger && s.card.number != "" && id == "slot" + Decimal(s.index))
              && (forall s <- r.slots ::
                    r.trigger != "" && s.format == r.trigger && s.card.number != "" && id == "slot" + Decimal(s.index) && id in Prepared(r, ours, b)
                    ==> Prepared(r, ours, b)[id] == [Entry(s.index, s.card, None, Settled, false)])
  {
    var p := Prepared(r, ours, b);
    if !r.seos && b == map[] {
      forall s | s in r.slots && IsTrigger(r, s) && id == "slot" + Decimal(s.index)
        ensures SlotNamed(r, id, 0) == Some(s)
      {
        NamedOnceOnly(r, id, s);
      }
    }
  }

  lemma NamedOnceOnly(r: Reader, id: string, s: Slot)
    requires DistinctSlots(r.slots) && s in r.slots && IsTrigger(r, s) && id == "slot" + Decimal(s.index)
    ensures SlotNamed(r, id, 0) == Some(s)
  {
    var found := SlotNamed(r, id, 0);
    var j :| 0 <= j < |r.slots| && r.slots[j] == s;
    assert found.Some?;
    var i :| 0 <= i < |r.slots| && r.slots[i] == found.value;
    assert ("slot" + Decimal(r.slots[i].index))[4..] == Decimal(r.slots[i].index);
    assert ("slot" + Decimal(s.index))[4..] == Decimal(s.index);
    DecimalInjective(r.slots[i].index, s.index);
  }

  // ---- what it records ----

  lemma {:induction false} EmptyIsCounted(slots: seq<Slot>)
    ensures EmptyCount(slots) >= 1 <==> exists s <- slots :: s.card.number == ""
  {
    if slots != [] {
      var front := slots[..|slots| - 1];
      assert slots == front + [slots[|slots| - 1]];
      EmptyIsCounted(front);
    }
  }

  lemma RoomSays(r: Reader)
    ensures HasRoom(r) <==> (r.seos && r.pair ==> exists s <- r.slots :: s.card.number == "")
  {
    EmptyIsCounted(r.slots);
  }

  /** Keeping its dormancy current changes nothing a slot is compared with. */
  lemma RefreshedIsInTheWay(r: Reader, es: seq<Entry>, i: nat)
    requires i < |r.slots|
    ensures Blocks(r, Refreshed(r, es), i) <==> Blocks(r, es, i)
    ensures forall card :: Holds(Refreshed(r, es), card) <==> Holds(es, card)
  {
    hide IsDormant, InTheWay;
    var f := Refreshed(r, es);
    forall m | 0 <= m < |es|
      ensures f[m] in f && es[m] in es && f[m].card == es[m].card && (InTheWay(r, f[m], i) <==> InTheWay(r, es[m], i))
    {
      InTheWayIgnoresDormancy(r, es[m], IsDormant(r, es[m].card), i);
    }
    if e :| e in es && InTheWay(r, e, i) {
      var m :| 0 <= m < |es| && es[m] == e;
    }
    if e :| e in f && InTheWay(r, e, i) {
      var m :| 0 <= m < |f| && f[m] == e;
    }
    forall card ensures Holds(f, card) <==> Holds(es, card) {
      if e :| e in es && e.card == card {
        var m :| 0 <= m < |es| && es[m] == e;
      }
      if e :| e in f && e.card == card {
        var m :| 0 <= m < |f| && f[m] == e;
      }
    }
  }

  lemma InTheWayIgnoresDormancy(r: Reader, e: Entry, dormant: bool, i: nat)
    requires i < |r.slots|
    ensures InTheWay(r, e.(dormant := dormant), i) <==> InTheWay(r, e, i)
  {
  }

  lemma RefreshedIsRecorded(r: Reader, p: Book, i: nat)
    requires i < |r.slots|
    ensures IsRecorded(r, RefreshedBook(r, p), i) <==> IsRecorded(r, p, i)
    ensures Unclaimed(r, RefreshedBook(r, p), i) <==> Unclaimed(r, p, i)
    ensures forall id :: FirstInTheWay(r, RefreshedBook(r, p), id, i) <==> FirstInTheWay(r, p, id, i)
  {
    hide Blocks, Holds, Refreshed, TextLess;
    var q := RefreshedBook(r, p);
    forall id | id in p ensures Blocks(r, q[id], i) <==> Blocks(r, p[id], i) {
      RefreshedIsInTheWay(r, p[id], i);
    }
    forall id, card | id in p ensures Holds(q[id], card) <==> Holds(p[id], card) {
      RefreshedIsInTheWay(r, p[id], i);
    }
    assert q == map[] <==> p == map[] by { assert q.Keys == p.Keys; }
  }

  /** A read records a new pass exactly for the trigger cards no pass of theirs holds, in a slot no record of
      theirs names (but for cards found in earlier slots, and cards still to be written), where there is room:
      an empty slot for a Seos pair. Somebody with nothing recorded has to have no pass tracked, and a
      trigger card up to there recorded on nobody else. */
  lemma ReadRecords(r: Reader, ours: bool, b: Book, i: nat)
    requires DistinctSlots(r.slots) && GoodBook(b) && i < |r.slots|
    ensures var p := Prepared(r, ours, b);
            var book := Scanned(r, p).book;
            (exists id <- book :: id !in p && book[id] == [Entry(r.slots[i].index, r.slots[i].card, None, if r.seos then Write else Settled, false)])
            <==>
              && r.trigger != "" && r.slots[i].format == r.trigger && r.slots[i].card.number != ""
              && (forall id <- p, e <- p[id] ::
                    && e.card != r.slots[i].card
                    && !(e.slot == r.slots[i].index && e.pending != Insert
                         && forall j | 0 <= j < i :: r.trigger == "" || r.slots[j].format != r.trigger || r.slots[j].card.number == "" || r.slots[j].card != e.card))
              && (r.seos && r.pair ==> exists s <- r.slots :: s.card.number == "")
              && (p != map[]
                  || (r.tracked == {}
                      && exists j | 0 <= j <= i :: r.slots[j].format == r.trigger && r.slots[j].card.number != "" && r.slots[j].card !in r.elsewhere))
  {
    hide WellKept, Scanned, Prepared, EmptyCount, Start;
    var p := Prepared(r, ours, b);
    PreparedIsGood(r, ours, b);
    RefreshedIsGood(r, p);
    var q := RefreshedBook(r, p);
    GoodIsApart(q);
    ScannedRecords(r, q);
    RefreshedIsRecorded(r, p, i);
    RoomSays(r);
    var book := Scanned(r, p).book;
    assert MadeFor(r, q, book, i) <==> IsRecorded(r, q, i);
    assert MadeFor(r, q, book, i) <==> MadeFor(r, p, book, i);
  }

  lemma ScannedRecords(r: Reader, b: Book)
    requires DistinctSlots(r.slots) && CardsApart(b) && RefreshedBook(r, b) == b
    ensures RecordsSoFar(r, b, Scanned(r, b), |r.slots|) && HeldSoFar(r, b, Scanned(r, b), |r.slots|)
  {
    hide RecordsSoFar, HeldSoFar, CardsApart, RefreshedBook;
    WalkRecords(r, b, |r.slots|);
  }

  // ---- what it follows and holds ----

  /** Of a recorded card a read changes the slot, to the trigger slot holding it, and its dormancy: dormant
      while it is on the cardholder in another format. Nothing else of it. */
  lemma ReadFollows(r: Reader, ours: bool, b: Book, id: string, m: nat)
    requires DistinctSlots(r.slots) && GoodBook(b) && id in Prepared(r, ours, b) && m < |Prepared(r, ours, b)[id]|
    ensures id in Scanned(r, Prepared(r, ours, b)).book && |Scanned(r, Prepared(r, ours, b)).book[id]| == |Prepared(r, ours, b)[id]|
    ensures var e, after := Prepared(r, ours, b)[id][m], Scanned(r, Prepared(r, ours, b)).book[id][m];
            && after == e.(slot := after.slot, dormant := after.dormant)
            && (after.dormant <==> exists s <- r.slots :: s.card == e.card && s.card.number != "" && (r.trigger == "" || s.format != r.trigger))
            && (forall s <- r.slots | r.trigger != "" && s.format == r.trigger && s.card.number != "" && s.card == e.card :: after.slot == s.index)
            && (after.slot == e.slot || exists s <- r.slots :: r.trigger != "" && s.format == r.trigger && s.card == e.card)
  {
    hide Scanned, Prepared, WellKept, HeldInv, OrderInv;
    var p := Prepared(r, ours, b);
    PreparedIsGood(r, ours, b);
    RefreshedIsGood(r, p);
    var q := RefreshedBook(r, p);
    GoodIsApart(q);
    var st := WalkOf(r, q);
    assert p[id][m] in p[id];
    EntryFollowed(r, p[id][m]);
  }

  lemma EntryFollowed(r: Reader, e: Entry)
    requires DistinctSlots(r.slots) && e.card.number != ""
    ensures var after := ShiftedEntry(r, e.(dormant := IsDormant(r, e.card)), |r.slots|);
            && after == e.(slot := after.slot, dormant := after.dormant)
            && (after.dormant <==> exists s <- r.slots :: s.card == e.card && s.card.number != "" && (r.trigger == "" || s.format != r.trigger))
            && (forall s <- r.slots | r.trigger != "" && s.format == r.trigger && s.card.number != "" && s.card == e.card :: after.slot == s.index)
            && (after.slot == e.slot || exists s <- r.slots :: r.trigger != "" && s.format == r.trigger && s.card == e.card)
  {
    forall s | s in r.slots && s.card == e.card ensures e.card in Present(r.slots) && Present(r.slots)[e.card] == s {
      PresentIs(r.slots, s);
    }
    forall s | s in r.slots && IsTrigger(r, s) && s.card == e.card ensures SlotFor(r, e.card, |r.slots|) == Some(s) {
      TriggerSlotOf(r, s);
    }
    hide Present;
  }

  /** A read holds exactly the passes with a card on the cardholder in another format, and those first in
      the way of a trigger slot whose card no pass of theirs holds. */
  lemma ReadHolds(r: Reader, ours: bool, b: Book, id: string)
    requires DistinctSlots(r.slots) && GoodBook(b)
    ensures var p := Prepared(r, ours, b);
            id in Scanned(r, p).held <==>
              && id in p
              && ( || (exists e <- p[id], s <- r.slots :: s.card == e.card && s.card.number != "" && (r.trigger == "" || s.format != r.trigger))
                   || exists i | 0 <= i < |r.slots| ::
                        && r.trigger != "" && r.slots[i].format == r.trigger && r.slots[i].card.number != ""
                        && (forall x <- p, e <- p[x] :: e.card != r.slots[i].card)
                        && FirstInTheWay(r, p, id, i))
  {
    hide Scanned, Prepared, WellKept, FirstInTheWay, AnyDormant, Start;
    var p := Prepared(r, ours, b);
    PreparedIsGood(r, ours, b);
    RefreshedIsGood(r, p);
    var q := RefreshedBook(r, p);
    GoodIsApart(q);
    ScannedRecords(r, q);
    forall i | 0 <= i < |r.slots| ensures Unclaimed(r, q, i) <==> Unclaimed(r, p, i)
                                  ensures FirstInTheWay(r, q, id, i) <==> FirstInTheWay(r, p, id, i) {
      RefreshedIsRecorded(r, p, i);
    }
    if id in p {
      RefreshedPass(r, p[id]);
      DormantSays(r, p[id]);
    }
    FirstIsTheirs(r, p, id);
  }

  lemma FirstIsTheirs(r: Reader, p: Book, id: string)
    ensures forall i | 0 <= i < |r.slots| :: FirstInTheWay(r, p, id, i) ==> id in p
  {
  }

  lemma DormantSays(r: Reader, es: seq<Entry>)
    requires DistinctSlots(r.slots) && Numbered(es)
    ensures AnyDormant(r, es) <==> exists e <- es, s <- r.slots :: s.card == e.card && s.card.number != "" && (r.trigger == "" || s.format != r.trigger)
  {
    hide Present;
    forall e, s | e in es && s in r.slots && s.card == e.card ensures e.card in Present(r.slots) && Present(r.slots)[e.card] == s {
      PresentIs(r.slots, s);
    }
    hide DistinctSlots;
  }

  // ---- what it keeps and reports ----

  /** A read forgets a pass only where no card of it is on the cardholder any more: a DESFire pass that is
      not held, and does not wait for room. */
  lemma ReadKeeps(r: Reader, ours: bool, b: Book, id: string)
    ensures var st := Scanned(r, Prepared(r, ours, b));
            && (id in Read(r, ours, b).book <==>
                  && id in st.book
                  && ( || r.seos || id in st.held || (exists e <- st.book[id], s <- r.slots :: s.card == e.card)
                       || Waiting(r, id, st.book[id])))
            && (id in Read(r, ours, b).book ==> Read(r, ours, b).book[id] == SortBySlot(st.book[id]))
  {
    hide Scanned, Prepared, HasRoom, SeosCredential;
    RoomSays(r);
  }

  /** All its cards still to be written, not issued, and no empty slot for a pair's second card. */
  predicate Waiting(r: Reader, id: string, es: seq<Entry>) {
    && (forall e <- es :: e.pending == Write) && id !in r.tracked
    && r.seos && r.pair && forall s <- r.slots :: s.card.number != ""
  }

  /** And it reports the others: those held or with a card there, or any Seos pass, that do not wait. */
  lemma ReadReports(r: Reader, ours: bool, b: Book, id: string)
    ensures var st := Scanned(r, Prepared(r, ours, b));
            && ((exists c <- Read(r, ours, b).credentials :: c.id == id) <==>
                  && id in st.book && !Waiting(r, id, st.book[id])
                  && (r.seos || (id in st.held && st.book[id] != []) || (exists e <- st.book[id], s <- r.slots :: s.card == e.card)))
            && (forall c <- Read(r, ours, b).credentials | c.id == id :: c.hold <==> id in st.held)
  {
    hide Scanned, Prepared, HasRoom, SeosCredential, TextLess, SortedSet, Reports, Report;
    var st := Scanned(r, Prepared(r, ours, b));
    TextIsOrdered();
    SortedSetIs(TextLess, st.book.Keys);
    ReportsAlong(r, SortedSet(TextLess, st.book.Keys), st.book, st.held, id);
    if id in st.book {
      ReportedWhen(r, id, st.book[id], id in st.held);
    }
  }

  lemma ReportedWhen(r: Reader, id: string, es: seq<Entry>, held: bool)
    ensures Report(r, id, es, held).Some? <==>
              !Waiting(r, id, es) && (r.seos || (held && es != []) || (exists e <- es, s <- r.slots :: s.card == e.card))
    ensures Report(r, id, es, held).Some? ==> Report(r, id, es, held).value.id == id && Report(r, id, es, held).value.hold == held
  {
    hide HasRoom, SeosCredential;
    RoomSays(r);
    ReportNames(r, id, es, held);
  }

  lemma {:induction false} ReportsAlong(r: Reader, ids: seq<string>, book: Book, held: set<string>, id: string)
    ensures forall c | c in Reports(r, ids, book, held) && c.id == id ::
              id in ids && id in book && Report(r, id, book[id], id in held) == Some(c)
    ensures id in ids && id in book && Report(r, id, book[id], id in held).Some? ==>
              Report(r, id, book[id], id in held).value in Reports(r, ids, book, held)
  {
    if ids != [] {
      hide Report;
      var front, last := ids[..|ids| - 1], ids[|ids| - 1];
      assert ids == front + [last];
      ReportsAlong(r, front, book, held, id);
      if last in book {
        ReportNames(r, last, book[last], last in held);
      }
    }
  }

  // ---- taken together ----

  /** What one read does to a ledger in which each card is recorded once: it still is. A recorded pass keeps
      its cards; a new one rests on one trigger card, as `ReadRecords` says; and somebody of whom nothing is
      recorded but a pass is tracked, or whose trigger cards are all recorded on others, reads back empty. */
  lemma ReadAccountsForItself(r: Reader, ours: bool, b: Book)
    requires DistinctSlots(r.slots) && GoodBook(b)
    ensures var p := Prepared(r, ours, b);
            var st := Scanned(r, p);
            && CardsApart(st.book)
            && (forall id <- p :: id in st.book && Cards(st.book[id]) == Cards(p[id]))
            && (forall id <- st.book :: id !in p ==> exists i | 0 <= i < |r.slots| :: IsRecorded(r, p, i) && st.book[id] == [NewEntry(r, r.slots[i])])
            && (p == map[]
                && (r.tracked != {} || forall s <- r.slots :: r.trigger == "" || s.format != r.trigger || s.card.number == "" || s.card in r.elsewhere)
                ==> Read(r, ours, b).book == map[] && Read(r, ours, b).credentials == [])
  {
    hide Scanned, Prepared, GoodBook, IsRecorded, Read, CardsApart, Cards, NewEntry;
    var p := Prepared(r, ours, b);
    PreparedIsGood(r, ours, b);
    BookIsAccounted(r, p);
    if p == map[] && (r.tracked != {} || forall s <- r.slots :: IsTrigger(r, s) ==> s.card in r.elsewhere) {
      NothingIsRecorded(r, p);
      NothingIsReported(r, ours, b);
    }
  }

  lemma BookIsAccounted(r: Reader, p: Book)
    requires DistinctSlots(r.slots) && GoodBook(p)
    ensures var book := Scanned(r, p).book;
            && CardsApart(book) && (forall id <- p :: id in book && Cards(book[id]) == Cards(p[id]))
            && (forall id <- book :: id !in p ==> exists i | 0 <= i < |r.slots| :: IsRecorded(r, p, i) && book[id] == [NewEntry(r, r.slots[i])])
  {
    hide Scanned, WellKept, HeldInv, OrderInv, IsRecorded, Start, CardsApart, MadeAmong, AnyWelcome, Shifted, Refreshed, NewEntry, Cards;
    RefreshedIsGood(r, p);
    var q := RefreshedBook(r, p);
    GoodIsApart(q);
    var st := WalkOf(r, q);
    forall id | id in p ensures id in st.book && Cards(st.book[id]) == Cards(p[id]) {
      ShiftedHolds(r, q[id], |r.slots|);
      RefreshedPass(r, p[id]);
    }
    ScannedRecords(r, q);
    forall id | id in st.book && id !in p ensures exists i | 0 <= i < |r.slots| :: IsRecorded(r, p, i) && st.book[id] == [NewEntry(r, r.slots[i])] {
      var i := MadeBy(r, q, st, id);
      RefreshedIsRecorded(r, p, i);
    }
  }

  lemma NothingIsRecorded(r: Reader, p: Book)
    requires DistinctSlots(r.slots) && p == map[]
    requires r.tracked != {} || forall s <- r.slots :: IsTrigger(r, s) ==> s.card in r.elsewhere
    ensures Scanned(r, p).book == map[]
  {
    hide Scanned, HeldInv, OrderInv, MadeAmong;
    assert RefreshedBook(r, p) == p;
    var st := WalkOf(r, p);
  }

  lemma MadeBy(r: Reader, b: Book, st: Scan, id: string) returns (i: nat)
    requires BookInv(r, b, st, |r.slots|) && RecordsSoFar(r, b, st, |r.slots|) && id in st.book && id !in b
    ensures i < |r.slots| && IsRecorded(r, b, i) && st.book[id] == [NewEntry(r, r.slots[i])]
  {
    hide IsRecorded;
    i :| 0 <= i < |r.slots| && MadeFrom(r, b, r.slots[i], st.book[id]);
    assert MadeFor(r, b, st.book, i);
  }

  lemma NothingIsReported(r: Reader, ours: bool, b: Book)
    requires Scanned(r, Prepared(r, ours, b)).book == map[]
    ensures Read(r, ours, b).book == map[] && Read(r, ours, b).credentials == []
  {
    hide Scanned, Prepared, Report;
    var st := Scanned(r, Prepared(r, ours, b));
    assert Kept(r, st.book, st.held) == map[];
    TextIsOrdered();
    SortedSetIs(TextLess, st.book.Keys);
    NothingIn(SortedSet(TextLess, st.book.Keys));
  }

  // ---- somebody with nothing recorded ----

  /** Of somebody with nothing recorded, and no pass tracked by slot, a read leaves a pass for exactly the
      trigger cards there is room for: none while a pass of theirs is tracked, nor before the first such card
      recorded on nobody else. */
  lemma FirstReadRecords(r: Reader, ours: bool, i: nat)
    requires DistinctSlots(r.slots) && i < |r.slots| && (r.seos || r.slotIds == {})
    ensures var book := Read(r, ours, map[]).book;
            (exists id <- book :: book[id] == [Entry(r.slots[i].index, r.slots[i].card, None, if r.seos then Write else Settled, false)]) <==>
              && r.trigger != "" && r.slots[i].format == r.trigger && r.slots[i].card.number != "" && r.tracked == {}
              && (r.seos && r.pair ==> exists s <- r.slots :: s.card.number == "")
              && exists j | 0 <= j <= i :: r.slots[j].format == r.trigger && r.slots[j].card.number != "" && r.slots[j].card !in r.elsewhere
  {
    hide Scanned, Read, EmptyCount, Kept;
    assert Prepared(r, ours, map[]) == map[];
    ReadRecords(r, ours, map[], i);
    FirstReadKeeps(r, ours);
  }

  lemma FirstReadKeeps(r: Reader, ours: bool)
    requires DistinctSlots(r.slots) && Prepared(r, ours, map[]) == map[]
    ensures Read(r, ours, map[]).book == Scanned(r, map[]).book
  {
    hide Scanned, HeldInv, OrderInv, BookInv, Forgotten, Shifted, Prepared, Reports, DistinctSlots, CardsApart, SortBySlot;
    var e: Book := map[];
    assert RefreshedBook(r, e) == e && CardsApart(e) by { NothingIsApart(r); }
    var st := WalkOf(r, e);
    forall id | id in st.book ensures !Forgotten(r, id, st.book[id], id in st.held) && SortBySlot(st.book[id]) == st.book[id] {
      MadeIsQuiet(r, e, st, id);
    }
  }

  lemma NothingIsApart(r: Reader)
    ensures RefreshedBook(r, map[]) == map[] && CardsApart(map[])
  {
  }

  lemma MadeIsQuiet(r: Reader, b: Book, st: Scan, id: string)
    requires DistinctSlots(r.slots) && BookInv(r, b, st, |r.slots|) && id in st.book && id !in b
    ensures !Forgotten(r, id, st.book[id], id in st.held) && SortBySlot(st.book[id]) == st.book[id]
  {
    hide MadeFrom;
    var s := MadeFromOne(r, b, st, id);
    NewPassIsQuiet(r, b, s, id, st.book[id]);
  }

  lemma NothingRecordedReads(r: Reader, ours: bool)
    ensures DistinctSlots(r.slots) && (r.seos || r.slotIds == {}) ==>
              && (r.tracked != {} ==> Read(r, ours, map[]).book == map[] && Read(r, ours, map[]).credentials == [])
              && forall i | 0 <= i < |r.slots| ::
                   var book := Read(r, ours, map[]).book;
                   (exists id <- book :: book[id] == [Entry(r.slots[i].index, r.slots[i].card, None, if r.seos then Write else Settled, false)]) <==>
                     && r.trigger != "" && r.slots[i].format == r.trigger && r.slots[i].card.number != "" && r.tracked == {}
                     && (r.seos && r.pair ==> exists s <- r.slots :: s.card.number == "")
                     && exists j | 0 <= j <= i :: r.slots[j].format == r.trigger && r.slots[j].card.number != "" && r.slots[j].card !in r.elsewhere
  {
    hide Read;
    if DistinctSlots(r.slots) && (r.seos || r.slotIds == {}) {
      assert Prepared(r, ours, map[]) == map[];
      ReadAccountsForItself(r, ours, map[]);
      forall i | 0 <= i < |r.slots|
        ensures var book := Read(r, ours, map[]).book;
                (exists id <- book :: book[id] == [Entry(r.slots[i].index, r.slots[i].card, None, if r.seos then Write else Settled, false)]) <==>
                  && r.trigger != "" && r.slots[i].format == r.trigger && r.slots[i].card.number != "" && r.tracked == {}
                  && (r.seos && r.pair ==> exists s <- r.slots :: s.card.number == "")
                  && exists j | 0 <= j <= i :: r.slots[j].format == r.trigger && r.slots[j].card.number != "" && r.slots[j].card !in r.elsewhere
      {
        FirstReadRecords(r, ours, i);
      }
    }
  }
}

/** Reading an unchanged cardholder settles: by the third read nothing changes any more. */
module ReadingStability {
  import opened Base
  import opened Order
  import opened Export
  import opened Ledger
  import opened SeosStatus
  import opened Reading

  // ---- vocabulary ----

  predicate Numbered(es: seq<Entry>) {
    forall e <- es :: e.card.number != ""
  }

  predicate InTrigger(r: Reader, card: Card) {
    exists s <- r.slots :: IsTrigger(r, s) && s.card == card
  }

  /** The trigger slot among the first n that holds a card. */
  function SlotFor(r: Reader, card: Card, n: nat): (f: Option<Slot>)
    requires n <= |r.slots|
    ensures f.Some? ==> IsTrigger(r, f.value) && f.value.card == card && exists i | 0 <= i < n :: r.slots[i] == f.value
    ensures f.None? ==> forall i | 0 <= i < n :: !(IsTrigger(r, r.slots[i]) && r.slots[i].card == card)
  {
    if n == 0 then None
    else if IsTrigger(r, r.slots[n - 1]) && r.slots[n - 1].card == card then Some(r.slots[n - 1])
    else SlotFor(r, card, n - 1)
  }

  function ShiftedEntry(r: Reader, e: Entry, n: nat): Entry
    requires n <= |r.slots|
  {
    match SlotFor(r, e.card, n)
    case Some(s) => e.(slot := s.index)
    case None => e
  }

  /** A pass after the first n slots were walked: each of its cards met there has its slot followed. */
  function Shifted(r: Reader, es: seq<Entry>, n: nat): (f: seq<Entry>)
    requires n <= |r.slots|
    ensures |f| == |es| && forall i | 0 <= i < |f| :: f[i] == ShiftedEntry(r, es[i], n)
  {
    seq(|es|, i requires 0 <= i < |es| => ShiftedEntry(r, es[i], n))
  }

  predicate Claimed(b: Book, card: Card) {
    exists id <- b :: Holds(b[id], card)
  }

  /** A record naming a slot although its card is in no trigger slot: no walk will move it. */
  predicate Stale(r: Reader, e: Entry, index: int) {
    At(e, index) && !InTrigger(r, e.card)
  }

  predicate HasStale(r: Reader, es: seq<Entry>, index: int) {
    exists e <- es :: Stale(r, e, index)
  }

  predicate StaleAnywhere(r: Reader, b: Book, index: int) {
    exists id <- b :: HasStale(r, b[id], index)
  }

  predicate Misplaced(r: Reader, es: seq<Entry>) {
    exists e <- es, s <- r.slots :: IsTrigger(r, s) && s.card == e.card && e.slot != s.index
  }

  /** No pass before `id` has a stale record for the slot. */
  predicate Least(r: Reader, b: Book, id: string, index: int) {
    id in b && forall other <- b :: HasStale(r, b[other], index) ==> other == id || TextLess(id, other)
  }

  /** A trigger slot whose unrecorded card puts the pass on hold. */
  predicate Catches(r: Reader, b: Book, s: Slot, id: string) {
    && IsTrigger(r, s) && !Claimed(b, s.card) && Least(r, b, id, s.index)
    && (HasStale(r, b[id], s.index) || Misplaced(r, b[id]))
  }

  predicate CardsApart(b: Book) {
    && (forall id <- b :: Distinct(b[id]))
    && (forall i, j | i in b && j in b && i != j :: Cards(b[i]) !! Cards(b[j]))
  }

  /** A pass recorded for the trigger card of a slot during the walk. */
  predicate MadeFrom(r: Reader, b: Book, s: Slot, es: seq<Entry>) {
    && IsTrigger(r, s) && !Claimed(b, s.card) && es == [NewEntry(r, s)]
    && !StaleAnywhere(r, b, s.index) && HasRoom(r)
  }

  predicate Refused(r: Reader, b: Book, s: Slot) {
    !StaleAnywhere(r, b, s.index) && (!HasRoom(r) || (b == map[] && Mismatched(r, s.card)))
  }

  predicate Outcome(r: Reader, b: Book, st: Scan, s: Slot) {
    || Claimed(b, s.card)
    || (exists id <- st.held :: Catches(r, b, s, id))
    || (exists id <- st.book :: id !in b && st.book[id] == [NewEntry(r, s)])
    || Refused(r, b, s)
  }

  // ---- what the walk keeps ----

  ghost predicate OrderInv(b: Book, st: Scan) {
    var sorted := SortedSet(TextLess, b.Keys);
    && |sorted| <= |st.order| && st.order[..|sorted|] == sorted
    && (forall i | |sorted| <= i < |st.order| :: st.order[i] !in b)
    && (forall id :: id in st.order <==> id in st.book)
  }

  predicate MadeAmong(r: Reader, b: Book, es: seq<Entry>, n: nat)
    requires n <= |r.slots|
  {
    exists i | 0 <= i < n :: MadeFrom(r, b, r.slots[i], es)
  }

  predicate AnyWelcome(r: Reader, n: nat)
    requires n <= |r.slots|
  {
    exists i | 0 <= i < n :: IsTrigger(r, r.slots[i]) && !Mismatched(r, r.slots[i].card) && HasRoom(r)
  }

  ghost predicate BookInv(r: Reader, b: Book, st: Scan, n: nat)
    requires n <= |r.slots|
  {
    && (forall id <- b :: id in st.book && st.book[id] == Shifted(r, b[id], n))
    && (forall id <- st.book :: id !in b ==> MadeAmong(r, b, st.book[id], n))
    && CardsApart(st.book)
    && (st.book != map[] && b == map[] ==> AnyWelcome(r, n))
  }

  ghost predicate HeldInv(r: Reader, b: Book, held0: set<string>, st: Scan, n: nat)
    requires n <= |r.slots|
  {
    && held0 <= st.held
    && (forall id <- st.held :: id in held0 || exists i | 0 <= i < n :: Catches(r, b, r.slots[i], id))
    && (forall i | 0 <= i < n :: IsTrigger(r, r.slots[i]) ==> Outcome(r, b, st, r.slots[i]))
  }

  ghost predicate ScanInv(r: Reader, b: Book, held0: set<string>, st: Scan, n: nat)
    requires n <= |r.slots|
  {
    OrderInv(b, st) && BookInv(r, b, st, n) && HeldInv(r, b, held0, st, n)
  }

  lemma SlotsAreDistinct(r: Reader, i: nat, j: nat)
    requires DistinctSlots(r.slots) && i < |r.slots| && j < |r.slots|
    requires IsTrigger(r, r.slots[i]) && IsTrigger(r, r.slots[j])
    ensures r.slots[i].card == r.slots[j].card ==> i == j
    ensures r.slots[i].index == r.slots[j].index ==> i == j
  {
  }

  predicate AnyAt(book: Book, id: string, index: int) {
    id in book && exists e <- book[id] :: At(e, index)
  }

  predicate NoneBefore(order: seq<string>, book: Book, k: nat, index: int)
    requires k <= |order|
  {
    forall j | 0 <= j < k :: !AnyAt(book, order[j], index)
  }

  /** Nothing is found where no pass looked through has a record. */
  lemma {:induction false} NothingFound(order: seq<string>, book: Book, index: int)
    requires FirstAt(order, book, index).None?
    ensures forall id <- order :: !AnyAt(book, id, index)
  {
    if order != [] {
      NothingFound(order[1..], book, index);
      assert order == [order[0]] + order[1..];
    }
  }

  /** What is found is the first such record in the order looked through. */
  lemma {:induction false} FoundFirst(order: seq<string>, book: Book, index: int) returns (k: nat)
    requires FirstAt(order, book, index).Some?
    ensures k < |order| && order[k] in book && FirstAt(order, book, index).value in book[order[k]]
    ensures At(FirstAt(order, book, index).value, index) && NoneBefore(order, book, k, index)
  {
    if order[0] in book && FirstIn(book[order[0]], index).Some? {
      k := 0;
    } else {
      var t := FoundFirst(order[1..], book, index);
      k := t + 1;
      forall j | 0 <= j < k ensures !AnyAt(book, order[j], index) {
        if j > 0 { assert order[j] == order[1..][j - 1]; }
      }
    }
  }

  lemma ShiftedNext(r: Reader, es: seq<Entry>, n: nat)
    requires n < |r.slots|
    ensures IsTrigger(r, r.slots[n]) ==> Shifted(r, es, n + 1) == Moved(Shifted(r, es, n), r.slots[n].card, r.slots[n].index)
    ensures !IsTrigger(r, r.slots[n]) || !Holds(es, r.slots[n].card) ==> Shifted(r, es, n + 1) == Shifted(r, es, n)
  {
    var s := r.slots[n];
    forall i | 0 <= i < |es|
      ensures IsTrigger(r, s) ==> Shifted(r, es, n + 1)[i] == Moved(Shifted(r, es, n), s.card, s.index)[i]
      ensures !IsTrigger(r, s) || !Holds(es, s.card) ==> Shifted(r, es, n + 1)[i] == Shifted(r, es, n)[i]
    {
      assert es[i] in es;
      assert SlotFor(r, es[i].card, n + 1) ==
             if IsTrigger(r, s) && s.card == es[i].card then Some(s) else SlotFor(r, es[i].card, n);
    }
  }

  lemma ShiftedHolds(r: Reader, es: seq<Entry>, n: nat)
    requires n <= |r.slots|
    ensures Cards(Shifted(r, es, n)) == Cards(es)
    ensures forall c :: Holds(Shifted(r, es, n), c) <==> Holds(es, c)
    ensures Distinct(es) ==> Distinct(Shifted(r, es, n))
  {
    var f := Shifted(r, es, n);
    forall c ensures Holds(f, c) <==> Holds(es, c) {
      if e :| e in es && e.card == c {
        var i :| 0 <= i < |es| && es[i] == e;
        assert f[i] in f && f[i].card == c;
      }
      if e :| e in f && e.card == c {
        var i :| 0 <= i < |f| && f[i] == e;
        assert es[i] in es && es[i].card == c;
      }
    }
    forall c ensures c in Cards(f) <==> c in Cards(es) {
      assert c in Cards(f) <==> Holds(f, c);
      assert c in Cards(es) <==> Holds(es, c);
    }
  }

  lemma MovedHolds(es: seq<Entry>, card: Card, index: nat)
    ensures Cards(Moved(es, card, index)) == Cards(es)
    ensures Distinct(es) ==> Distinct(Moved(es, card, index))
  {
    var m := Moved(es, card, index);
    forall c ensures c in Cards(m) <==> c in Cards(es) {
      if e :| e in es && e.card == c {
        var i :| 0 <= i < |es| && es[i] == e;
        assert m[i] in m;
      }
    }
  }

  // ---- one slot of the walk ----

  lemma OutcomesPersist(r: Reader, b: Book, st: Scan, after: Scan, n: nat)
    requires n <= |r.slots|
    requires forall i | 0 <= i < n :: IsTrigger(r, r.slots[i]) ==> Outcome(r, b, st, r.slots[i])
    requires st.held <= after.held
    requires forall id <- st.book :: id !in b ==> id in after.book && after.book[id] == st.book[id]
    ensures forall i | 0 <= i < n :: IsTrigger(r, r.slots[i]) ==> Outcome(r, b, after, r.slots[i])
  {
    forall i | 0 <= i < n && IsTrigger(r, r.slots[i])
      ensures Outcome(r, b, after, r.slots[i])
    {
      var s := r.slots[i];
      assert Outcome(r, b, st, s);
      if id :| id in st.held && Catches(r, b, s, id) {
        assert id in after.held;
      } else if id :| id in st.book && id !in b && st.book[id] == [NewEntry(r, s)] {
        assert id in after.book && after.book[id] == [NewEntry(r, s)];
      }
    }
  }

  lemma HeldPersists(r: Reader, b: Book, held0: set<string>, st: Scan, after: Scan, n: nat)
    requires n < |r.slots| && HeldInv(r, b, held0, st, n)
    requires st.held == after.held
    requires forall id <- st.book :: id !in b ==> id in after.book && after.book[id] == st.book[id]
    requires IsTrigger(r, r.slots[n]) ==> Outcome(r, b, after, r.slots[n])
    ensures HeldInv(r, b, held0, after, n + 1)
  {
    OutcomesPersist(r, b, st, after, n);
  }

  lemma MadePersists(r: Reader, b: Book, st: Scan, n: nat)
    requires n < |r.slots| && BookInv(r, b, st, n)
    ensures forall id <- st.book :: id !in b ==> MadeAmong(r, b, st.book[id], n + 1)
    ensures st.book != map[] && b == map[] ==> AnyWelcome(r, n + 1)
  {
  }

  lemma StepNoTrigger(r: Reader, b: Book, held0: set<string>, st: Scan, n: nat)
    requires n < |r.slots| && ScanInv(r, b, held0, st, n) && !IsTrigger(r, r.slots[n])
    ensures ScanInv(r, b, held0, st, n + 1)
  {
    forall id | id in b ensures st.book[id] == Shifted(r, b[id], n + 1) {
      ShiftedNext(r, b[id], n);
    }
    MadePersists(r, b, st, n);
    HeldPersists(r, b, held0, st, st, n);
  }

  /** Passes recorded earlier in the walk rest on other slots' cards. */
  lemma MadeEarlierElsewhere(r: Reader, b: Book, st: Scan, n: nat)
    requires DistinctSlots(r.slots) && n < |r.slots| && BookInv(r, b, st, n) && IsTrigger(r, r.slots[n])
    ensures forall id <- st.book :: id !in b ==>
              !Holds(st.book[id], r.slots[n].card) && forall e <- st.book[id] :: !At(e, r.slots[n].index)
  {
    forall id | id in st.book && id !in b
      ensures !Holds(st.book[id], r.slots[n].card) && forall e <- st.book[id] :: !At(e, r.slots[n].index)
    {
      var i :| 0 <= i < n && MadeFrom(r, b, r.slots[i], st.book[id]);
      SlotsAreDistinct(r, i, n);
    }
  }

  lemma MovedApart(book: Book, owner: string, card: Card, index: nat)
    requires CardsApart(book) && owner in book
    ensures CardsApart(book[owner := Moved(book[owner], card, index)])
  {
    MovedHolds(book[owner], card, index);
  }

  lemma MovedShifts(r: Reader, b: Book, st: Scan, n: nat, owner: string, id: string)
    requires n < |r.slots| && IsTrigger(r, r.slots[n]) && CardsApart(st.book)
    requires id in b && id in st.book && st.book[id] == Shifted(r, b[id], n)
    requires owner in st.book && Holds(st.book[owner], r.slots[n].card)
    ensures Shifted(r, b[id], n + 1) ==
            if id == owner then Moved(st.book[owner], r.slots[n].card, r.slots[n].index) else st.book[id]
  {
    ShiftedNext(r, b[id], n);
    ShiftedHolds(r, b[id], n);
    assert r.slots[n].card in Cards(st.book[owner]);
    if id != owner {
      assert r.slots[n].card !in Cards(st.book[id]);
      assert r.slots[n].card !in Cards(b[id]);
    }
  }

  lemma MovedBook(r: Reader, b: Book, st: Scan, n: nat, owner: string)
    requires n < |r.slots| && BookInv(r, b, st, n) && IsTrigger(r, r.slots[n])
    requires owner in b && owner in st.book && Holds(st.book[owner], r.slots[n].card)
    ensures BookInv(r, b, st.(book := st.book[owner := Moved(st.book[owner], r.slots[n].card, r.slots[n].index)]), n + 1)
  {
    hide MadeAmong, AnyWelcome, CardsApart, Shifted, Moved, Holds;
    var s := r.slots[n];
    var book := st.book[owner := Moved(st.book[owner], s.card, s.index)];
    MovedApart(st.book, owner, s.card, s.index);
    forall id | id in b ensures book[id] == Shifted(r, b[id], n + 1) {
      MovedShifts(r, b, st, n, owner, id);
    }
    MadePersists(r, b, st, n);
    assert forall id <- book :: id !in b ==> book[id] == st.book[id];
  }

  lemma StepMoved(r: Reader, b: Book, held0: set<string>, st: Scan, n: nat, owner: string)
    requires DistinctSlots(r.slots) && n < |r.slots| && ScanInv(r, b, held0, st, n) && IsTrigger(r, r.slots[n])
    requires OwnerOf(st.order, st.book, r.slots[n].card) == Some(owner)
    ensures ScanInv(r, b, held0, ScanSlot(r, st, r.slots[n]), n + 1)
  {
    hide BookInv, HeldInv, Claimed, Shifted;
    var s, after := r.slots[n], ScanSlot(r, st, r.slots[n]);
    OwnerIsOld(r, b, st, n, owner);
    MovedBook(r, b, st, n, owner);
    HeldPersists(r, b, held0, st, after, n);
    assert after.book.Keys == st.book.Keys;
  }

  /** Only a pass from before the walk can hold the card of a slot not walked yet. */
  lemma OwnerIsOld(r: Reader, b: Book, st: Scan, n: nat, owner: string)
    requires DistinctSlots(r.slots) && n < |r.slots| && BookInv(r, b, st, n) && IsTrigger(r, r.slots[n])
    requires owner in st.book && Holds(st.book[owner], r.slots[n].card)
    ensures owner in b && Claimed(b, r.slots[n].card)
  {
    MadeEarlierElsewhere(r, b, st, n);
    assert owner in b;
    ShiftedHolds(r, b[owner], n);
  }

  lemma NobodyHolds(r: Reader, b: Book, st: Scan, n: nat)
    requires n < |r.slots| && OrderInv(b, st) && BookInv(r, b, st, n)
    requires OwnerOf(st.order, st.book, r.slots[n].card) == None
    ensures !Claimed(b, r.slots[n].card)
    ensures forall id <- st.book :: r.slots[n].card !in Cards(st.book[id])
    ensures forall id <- b :: Shifted(r, b[id], n + 1) == st.book[id]
  {
    var card := r.slots[n].card;
    forall id | id in st.book ensures card !in Cards(st.book[id]) {
      assert id in st.order && !Holds(st.book[id], card);
    }
    forall id | id in b ensures !Holds(b[id], card) && Shifted(r, b[id], n + 1) == st.book[id] {
      ShiftedHolds(r, b[id], n);
      assert !Holds(st.book[id], card);
      ShiftedNext(r, b[id], n);
    }
  }

  /** A stale record stays where it is while the slots are walked. */
  lemma StaleStays(r: Reader, es: seq<Entry>, n: nat, index: int)
    requires n <= |r.slots|
    ensures HasStale(r, Shifted(r, es, n), index) <==> HasStale(r, es, index)
  {
    var f := Shifted(r, es, n);
    forall i | 0 <= i < |es|
      ensures Stale(r, f[i], index) <==> Stale(r, es[i], index)
    {
      var found := SlotFor(r, es[i].card, n);
      if found.Some? {
        assert InTrigger(r, es[i].card);
      }
    }
    if e :| e in es && Stale(r, e, index) {
      var i :| 0 <= i < |es| && es[i] == e;
      assert f[i] in f;
    }
    if e :| e in f && Stale(r, e, index) {
      var i :| 0 <= i < |f| && f[i] == e;
      assert es[i] in es;
    }
  }

  /** The pass holding the first record found for an unclaimed slot is caught by it. */
  lemma FirstFoundIsCaught(r: Reader, b: Book, st: Scan, n: nat, e: Entry) returns (id: string)
    requires DistinctSlots(r.slots) && n < |r.slots| && IsTrigger(r, r.slots[n])
    requires OrderInv(b, st) && BookInv(r, b, st, n) && !Claimed(b, r.slots[n].card)
    requires FirstAt(st.order, st.book, r.slots[n].index) == Some(e)
    ensures id in st.book && Catches(r, b, r.slots[n], id)
    ensures (set x | x in st.book && e in st.book[x]) == {id}
  {
    var s := r.slots[n];
    var k := FoundFirst(st.order, st.book, s.index);
    id := st.order[k];
    OnlyOneHolds(st.book, id, e);
    MadeEarlierElsewhere(r, b, st, n);
    FirstFoundIsLeast(r, b, st, n, k);
    FoundIsStaleOrMisplaced(r, b[id], n, e);
  }

  lemma OnlyOneHolds(book: Book, id: string, e: Entry)
    requires CardsApart(book) && id in book && e in book[id]
    ensures (set x | x in book && e in book[x]) == {id}
  {
    assert e.card in Cards(book[id]);
    forall x | x in book && e in book[x] ensures x == id {
      assert e.card in Cards(book[x]);
    }
  }

  lemma FirstFoundIsLeast(r: Reader, b: Book, st: Scan, n: nat, k: nat)
    requires n < |r.slots| && OrderInv(b, st)
    requires forall id <- b :: id in st.book && st.book[id] == Shifted(r, b[id], n)
    requires k < |st.order| && st.order[k] in b && NoneBefore(st.order, st.book, k, r.slots[n].index)
    ensures Least(r, b, st.order[k], r.slots[n].index)
  {
    hide Shifted, HasStale, AnyAt, TextLess;
    var index, sorted := r.slots[n].index, SortedSet(TextLess, b.Keys);
    assert k < |sorted| && st.order[k] == sorted[k];
    forall other | other in b && HasStale(r, b[other], index)
      ensures other == st.order[k] || TextLess(st.order[k], other)
    {
      StaleIsFound(r, b, st, n, other, index);
      var j := PlaceOf(b.Keys, k, other);
      assert st.order[j] == sorted[j];
    }
  }

  lemma PlaceOf(ids: set<string>, k: nat, id: string) returns (j: nat)
    requires k < |SortedSet(TextLess, ids)| && id in ids
    ensures j < |SortedSet(TextLess, ids)| && SortedSet(TextLess, ids)[j] == id
    ensures j > k ==> TextLess(SortedSet(TextLess, ids)[k], id)
  {
    TextIsOrdered();
    SortedSetIs(TextLess, ids);
    var i :| 0 <= i < |SortedSet(TextLess, ids)| && SortedSet(TextLess, ids)[i] == id;
    j := i;
  }

  lemma StaleIsFound(r: Reader, b: Book, st: Scan, n: nat, id: string, index: int)
    requires n <= |r.slots| && id in b && HasStale(r, b[id], index)
    requires id in st.book && st.book[id] == Shifted(r, b[id], n)
    ensures AnyAt(st.book, id, index)
  {
    StaleStays(r, b[id], n, index);
  }

  lemma FoundIsStaleOrMisplaced(r: Reader, es: seq<Entry>, n: nat, e: Entry)
    requires DistinctSlots(r.slots) && n < |r.slots| && IsTrigger(r, r.slots[n])
    requires e in Shifted(r, es, n) && At(e, r.slots[n].index) && !Holds(es, r.slots[n].card)
    ensures HasStale(r, es, r.slots[n].index) || Misplaced(r, es)
  {
    var s, f := r.slots[n], Shifted(r, es, n);
    var i :| 0 <= i < |f| && f[i] == e;
    assert es[i] in es && es[i].card != s.card;
    forall q | 0 <= q < n && IsTrigger(r, r.slots[q]) ensures r.slots[q].index != s.index {
      SlotsAreDistinct(r, q, n);
    }
    assert SlotFor(r, e.card, n).None?;
    if InTrigger(r, e.card) {
      var t :| t in r.slots && IsTrigger(r, t) && t.card == e.card;
      var p :| 0 <= p < |r.slots| && r.slots[p] == t;
      SlotsAreDistinct(r, p, n);
      assert es[i].slot == s.index && t.index != s.index;
    } else {
      assert Stale(r, es[i], s.index);
    }
  }

  lemma StepHeld(r: Reader, b: Book, held0: set<string>, st: Scan, n: nat, e: Entry)
    requires DistinctSlots(r.slots) && n < |r.slots| && ScanInv(r, b, held0, st, n) && IsTrigger(r, r.slots[n])
    requires OwnerOf(st.order, st.book, r.slots[n].card) == None
    requires FirstAt(st.order, st.book, r.slots[n].index) == Some(e)
    ensures ScanInv(r, b, held0, ScanSlot(r, st, r.slots[n]), n + 1)
  {
    NobodyHolds(r, b, st, n);
    MadePersists(r, b, st, n);
    var id := FirstFoundIsCaught(r, b, st, n, e);
    var after := st.(held := st.held + {id});
    assert ScanSlot(r, st, r.slots[n]) == after;
    OutcomesPersist(r, b, st, after, n);
    HeldGrows(r, b, held0, st, n, id);
  }

  lemma HeldGrows(r: Reader, b: Book, held0: set<string>, st: Scan, n: nat, id: string)
    requires n < |r.slots| && HeldInv(r, b, held0, st, n) && Catches(r, b, r.slots[n], id)
    requires forall i | 0 <= i < n :: IsTrigger(r, r.slots[i]) ==> Outcome(r, b, st.(held := st.held + {id}), r.slots[i])
    ensures HeldInv(r, b, held0, st.(held := st.held + {id}), n + 1)
  {
    var after := st.(held := st.held + {id});
    assert id in after.held && Outcome(r, b, after, r.slots[n]);
    forall x | x in after.held
      ensures x in held0 || exists i | 0 <= i < n + 1 :: Catches(r, b, r.slots[i], x)
    {
      if x == id {
        assert Catches(r, b, r.slots[n], x);
      }
    }
  }

  lemma NothingStale(r: Reader, b: Book, st: Scan, n: nat)
    requires n < |r.slots| && OrderInv(b, st) && BookInv(r, b, st, n)
    requires FirstAt(st.order, st.book, r.slots[n].index) == None
    ensures !StaleAnywhere(r, b, r.slots[n].index)
  {
    NothingFound(st.order, st.book, r.slots[n].index);
    forall id | id in b ensures !HasStale(r, b[id], r.slots[n].index) {
      StaleStays(r, b[id], n, r.slots[n].index);
      assert id in st.order && !AnyAt(st.book, id, r.slots[n].index);
    }
  }

  lemma StepUnheld(r: Reader, b: Book, held0: set<string>, st: Scan, n: nat)
    requires DistinctSlots(r.slots) && n < |r.slots| && ScanInv(r, b, held0, st, n) && IsTrigger(r, r.slots[n])
    requires OwnerOf(st.order, st.book, r.slots[n].card) == None
    requires FirstAt(st.order, st.book, r.slots[n].index) == None
    ensures ScanInv(r, b, held0, ScanSlot(r, st, r.slots[n]), n + 1)
  {
    NobodyHolds(r, b, st, n);
    NothingStale(r, b, st, n);
    if (st.book == map[] && Mismatched(r, r.slots[n].card)) || !HasRoom(r) {
      MadePersists(r, b, st, n);
      assert st.book == map[] ==> b == map[] by {
        assert forall id :: id in b ==> id in st.book;
      }
      assert Refused(r, b, r.slots[n]);
      HeldPersists(r, b, held0, st, st, n);
    } else {
      StepMade(r, b, held0, st, n);
    }
  }

  lemma StepMade(r: Reader, b: Book, held0: set<string>, st: Scan, n: nat)
    requires n < |r.slots| && ScanInv(r, b, held0, st, n) && IsTrigger(r, r.slots[n])
    requires OwnerOf(st.order, st.book, r.slots[n].card) == None
    requires FirstAt(st.order, st.book, r.slots[n].index) == None
    requires !Claimed(b, r.slots[n].card) && !StaleAnywhere(r, b, r.slots[n].index) && HasRoom(r)
    requires forall x <- st.book :: r.slots[n].card !in Cards(st.book[x])
    requires forall x <- b :: Shifted(r, b[x], n + 1) == st.book[x]
    requires !(st.book == map[] && Mismatched(r, r.slots[n].card))
    ensures ScanInv(r, b, held0, ScanSlot(r, st, r.slots[n]), n + 1)
  {
    hide HeldInv, Claimed, StaleAnywhere, Shifted, OrderInv;
    FreshIdIsFree(st.book.Keys);
    var id := FreshId(st.book.Keys);
    assert id !in b by {
      assert forall x <- b :: x in st.book;
    }
    hide BookInv, FreshId, Mismatched, HasRoom;
    var after := st.(order := st.order + [id], book := st.book[id := [NewEntry(r, r.slots[n])]]);
    assert ScanSlot(r, st, r.slots[n]) == after;
    StepMadeBook(r, b, st, n, id);
    StepMadeHeld(r, b, held0, st, n, id);
    OrderGrows(b, st, after, id);
  }

  lemma StepMadeHeld(r: Reader, b: Book, held0: set<string>, st: Scan, n: nat, id: string)
    requires n < |r.slots| && HeldInv(r, b, held0, st, n) && id !in st.book && id !in b
    ensures HeldInv(r, b, held0, st.(order := st.order + [id], book := st.book[id := [NewEntry(r, r.slots[n])]]), n + 1)
  {
    var after := st.(order := st.order + [id], book := st.book[id := [NewEntry(r, r.slots[n])]]);
    assert id in after.book && after.book[id] == [NewEntry(r, r.slots[n])];
    HeldPersists(r, b, held0, st, after, n);
  }

  lemma OrderGrows(b: Book, st: Scan, after: Scan, id: string)
    requires OrderInv(b, st) && id !in b
    requires after.order == st.order + [id] && after.book.Keys == st.book.Keys + {id}
    ensures OrderInv(b, after)
  {
    var sorted := SortedSet(TextLess, b.Keys);
    assert after.order[..|sorted|] == st.order[..|sorted|];
  }

  lemma StepMadeBook(r: Reader, b: Book, st: Scan, n: nat, id: string)
    requires n < |r.slots| && BookInv(r, b, st, n) && id !in st.book && id !in b
    requires forall x <- st.book :: r.slots[n].card !in Cards(st.book[x])
    requires forall x <- b :: Shifted(r, b[x], n + 1) == st.book[x]
    requires MadeFrom(r, b, r.slots[n], [NewEntry(r, r.slots[n])])
    requires !(st.book == map[] && Mismatched(r, r.slots[n].card))
    ensures BookInv(r, b, st.(order := st.order + [id], book := st.book[id := [NewEntry(r, r.slots[n])]]), n + 1)
  {
    hide MadeAmong, AnyWelcome, CardsApart, Shifted;
    var es := [NewEntry(r, r.slots[n])];
    MadePersists(r, b, st, n);
    assert Cards(es) == {r.slots[n].card};
    MadeApart(st.book, id, es);
    MadeLast(r, b, es, n);
  }

  lemma MadeLast(r: Reader, b: Book, es: seq<Entry>, n: nat)
    requires n < |r.slots| && MadeFrom(r, b, r.slots[n], es)
    ensures MadeAmong(r, b, es, n + 1)
    ensures !Mismatched(r, r.slots[n].card) ==> AnyWelcome(r, n + 1)
  {
  }

  lemma MadeApart(book: Book, id: string, es: seq<Entry>)
    requires CardsApart(book) && id !in book && Distinct(es)
    requires forall x <- book :: Cards(book[x]) !! Cards(es)
    ensures CardsApart(book[id := es])
  {
  }

  lemma WalkStarts(r: Reader, b: Book)
    requires CardsApart(b) && RefreshedBook(r, b) == b
    ensures ScanInv(r, b, DormantIds(r, b), Start(r, b), 0)
  {
    TextIsOrdered();
    SortedSetIs(TextLess, b.Keys);
    var st := Start(r, b);
    assert st.order[..|st.order|] == st.order;
    forall id | id in b ensures st.book[id] == Shifted(r, b[id], 0) {
      assert forall i | 0 <= i < |b[id]| :: ShiftedEntry(r, b[id][i], 0) == b[id][i];
    }
  }

  lemma StepKeeps(r: Reader, b: Book, held0: set<string>, st: Scan, n: nat)
    requires DistinctSlots(r.slots) && n < |r.slots| && ScanInv(r, b, held0, st, n)
    ensures ScanInv(r, b, held0, ScanSlot(r, st, r.slots[n]), n + 1)
  {
    hide ScanInv;
    var s := r.slots[n];
    if !IsTrigger(r, s) {
      StepNoTrigger(r, b, held0, st, n);
    } else if OwnerOf(st.order, st.book, s.card).Some? {
      StepMoved(r, b, held0, st, n, OwnerOf(st.order, st.book, s.card).value);
    } else if FirstAt(st.order, st.book, s.index).Some? {
      StepHeld(r, b, held0, st, n, FirstAt(st.order, st.book, s.index).value);
    } else {
      StepUnheld(r, b, held0, st, n);
    }
  }

  lemma {:induction false} WalkKeeps(r: Reader, b: Book, held0: set<string>, st: Scan, n: nat)
    requires DistinctSlots(r.slots) && n <= |r.slots| && ScanInv(r, b, held0, st, 0)
    ensures ScanInv(r, b, held0, ScanSlots(r, st, n), n)
  {
    hide ScanInv;
    if n > 0 {
      WalkKeeps(r, b, held0, st, n - 1);
      StepKeeps(r, b, held0, ScanSlots(r, st, n - 1), n - 1);
    }
  }

  // ---- a ledger that reading leaves alone ----

  /** Every card met in a trigger slot has its slot recorded. */
  ghost predicate Aligned(r: Reader, b: Book) {
    forall id <- b :: Shifted(r, b[id], |r.slots|) == b[id]
  }

  /** The passes a read of an aligned ledger holds. */
  function HeldBy(r: Reader, b: Book): set<string> {
    DormantIds(r, b) + set id | id in b && exists s <- r.slots :: Catches(r, b, s, id)
  }

  /** What one read leaves: aligned, its dormancy current, and nothing left to forget. */
  ghost predicate Level(r: Reader, b: Book) {
    && GoodBook(b) && RefreshedBook(r, b) == b && Aligned(r, b)
    && Prepared(r, b != map[], b) == b
    && forall id <- b :: !Forgotten(r, id, b[id], id in HeldBy(r, b))
  }

  /** What two reads leave: also no trigger card left to record. */
  ghost predicate Calm(r: Reader, b: Book) {
    && Level(r, b)
    && forall s <- r.slots :: IsTrigger(r, s) ==> Claimed(b, s.card) || StaleAnywhere(r, b, s.index) || Refused(r, b, s)
  }

  lemma GoodIsApart(b: Book)
    requires GoodBook(b)
    ensures CardsApart(b)
  {
  }

  lemma TriggerSlotOf(r: Reader, s: Slot)
    requires DistinctSlots(r.slots) && s in r.slots && IsTrigger(r, s)
    ensures SlotFor(r, s.card, |r.slots|) == Some(s)
    ensures !IsDormant(r, s.card) && s.card in Present(r.slots) && InTrigger(r, s.card)
  {
    PresentIs(r.slots, s);
    var f := SlotFor(r, s.card, |r.slots|);
    var j :| 0 <= j < |r.slots| && r.slots[j] == s;
    assert f.Some?;
    var i :| 0 <= i < |r.slots| && r.slots[i] == f.value;
    SlotsAreDistinct(r, i, j);
  }

  lemma AlignedIsPlaced(r: Reader, es: seq<Entry>)
    requires DistinctSlots(r.slots) && Shifted(r, es, |r.slots|) == es
    ensures !Misplaced(r, es)
  {
    forall e, s | e in es && s in r.slots && IsTrigger(r, s) && s.card == e.card
      ensures e.slot == s.index
    {
      TriggerSlotOf(r, s);
      var i :| 0 <= i < |es| && es[i] == e;
      assert es[i] == ShiftedEntry(r, es[i], |r.slots|);
    }
  }

  /** A freshly recorded pass is aligned, current, reported, and never in the way. */
  lemma NewPassIsQuiet(r: Reader, b: Book, s: Slot, id: string, es: seq<Entry>)
    requires DistinctSlots(r.slots) && s in r.slots && MadeFrom(r, b, s, es)
    ensures WellKept(es) && Numbered(es) && SortBySlot(es) == es
    ensures Refreshed(r, es) == es && Shifted(r, es, |r.slots|) == es && !AnyDormant(r, es)
    ensures Build(r, id, es).Some? && !Misplaced(r, es) && AnyPresent(r, es)
    ensures forall index :: !HasStale(r, es, index)
    ensures Holds(es, s.card)
  {
    TriggerSlotOf(r, s);
    assert es == [NewEntry(r, s)];
    SortedStays(es);
    assert es[0] in es;
    AlignedIsPlaced(r, es);
    if !r.seos {
      assert Holds(es, s.card);
    }
  }

  lemma WalkOf(r: Reader, b: Book) returns (st: Scan)
    requires DistinctSlots(r.slots) && CardsApart(b) && RefreshedBook(r, b) == b
    ensures st == Scanned(r, b) && ScanInv(r, b, DormantIds(r, b), st, |r.slots|)
  {
    WalkStarts(r, b);
    WalkKeeps(r, b, DormantIds(r, b), Start(r, b), |r.slots|);
    st := Scanned(r, b);
  }

  lemma MadeFromOne(r: Reader, b: Book, st: Scan, id: string) returns (s: Slot)
    requires BookInv(r, b, st, |r.slots|) && id in st.book && id !in b
    ensures s in r.slots && MadeFrom(r, b, s, st.book[id])
  {
    var i :| 0 <= i < |r.slots| && MadeFrom(r, b, r.slots[i], st.book[id]);
    s := r.slots[i];
  }

  lemma OutcomeOf(r: Reader, b: Book, st: Scan, s: Slot)
    requires HeldInv(r, b, DormantIds(r, b), st, |r.slots|) && s in r.slots && IsTrigger(r, s)
    ensures Outcome(r, b, st, s)
  {
    var i :| 0 <= i < |r.slots| && r.slots[i] == s;
  }

  /** A slot with a stale record in the way gets no pass. */
  lemma NotMadeWhereStale(r: Reader, b: Book, st: Scan, s: Slot)
    requires DistinctSlots(r.slots) && BookInv(r, b, st, |r.slots|)
    requires s in r.slots && IsTrigger(r, s) && StaleAnywhere(r, b, s.index) && !Claimed(b, s.card)
    ensures !Claimed(st.book, s.card)
  {
    forall id | id in st.book ensures !Holds(st.book[id], s.card) {
      if id in b {
        ShiftedHolds(r, b[id], |r.slots|);
        assert !Holds(b[id], s.card);
      } else {
        var t := MadeFromOne(r, b, st, id);
        var i :| 0 <= i < |r.slots| && r.slots[i] == s;
        var j :| 0 <= j < |r.slots| && r.slots[j] == t;
        SlotsAreDistinct(r, i, j);
      }
    }
  }

  lemma MadeClaims(r: Reader, book: Book, s: Slot)
    ensures (exists id <- book :: book[id] == [NewEntry(r, s)]) ==> Claimed(book, s.card)
  {
    if id :| id in book && book[id] == [NewEntry(r, s)] {
      assert book[id][0].card == s.card && Holds(book[id], s.card);
    }
  }

  lemma CaughtIsHeld(r: Reader, b: Book, st: Scan, s: Slot, id: string)
    requires DistinctSlots(r.slots) && Aligned(r, b) && BookInv(r, b, st, |r.slots|)
    requires HeldInv(r, b, DormantIds(r, b), st, |r.slots|)
    requires s in r.slots && Catches(r, b, s, id)
    ensures id in st.held
  {
    hide HasStale, Misplaced, BookInv, HeldInv, TextLess;
    AlignedIsPlaced(r, b[id]);
    assert StaleAnywhere(r, b, s.index);
    OutcomeOf(r, b, st, s);
    NotMadeWhereStale(r, b, st, s);
    MadeClaims(r, st.book, s);
    var other :| other in st.held && Catches(r, b, s, other);
    AlignedIsPlaced(r, b[other]);
    OneLeast(r, b, id, other, s.index);
  }

  lemma OneLeast(r: Reader, b: Book, id: string, other: string, index: int)
    requires Least(r, b, id, index) && Least(r, b, other, index) && HasStale(r, b[id], index) && HasStale(r, b[other], index)
    ensures id == other
  {
    hide HasStale, TextLess;
    TextIsOrdered();
    assert TextLess(id, other) && TextLess(other, id) ==> TextLess(id, id);
    assert !TextLess(id, id);
  }

  lemma HeldIsHeldBy(r: Reader, b: Book, st: Scan)
    requires DistinctSlots(r.slots) && Aligned(r, b) && BookInv(r, b, st, |r.slots|)
    requires HeldInv(r, b, DormantIds(r, b), st, |r.slots|)
    ensures st.held == HeldBy(r, b)
  {
    forall id | id in st.held ensures id in HeldBy(r, b) {
      if id !in DormantIds(r, b) {
        var i :| 0 <= i < |r.slots| && Catches(r, b, r.slots[i], id);
        assert r.slots[i] in r.slots;
      }
    }
    forall id | id in HeldBy(r, b) ensures id in st.held {
      if id !in DormantIds(r, b) {
        var s :| s in r.slots && Catches(r, b, s, id);
        CaughtIsHeld(r, b, st, s, id);
      }
    }
  }

  lemma CalmRecordsNothing(r: Reader, b: Book, st: Scan)
    requires Calm(r, b) && BookInv(r, b, st, |r.slots|)
    ensures st.book == b
  {
    forall id | id in st.book ensures id in b {
      CalmMakesNone(r, b, st, id);
    }
    assert Aligned(r, b);
    hide Calm;
    OldPassesStay(r, b, st);
  }

  lemma OldPassesStay(r: Reader, b: Book, st: Scan)
    requires Aligned(r, b) && BookInv(r, b, st, |r.slots|)
    ensures forall id <- b :: id in st.book && st.book[id] == b[id]
  {
  }

  lemma CalmWelcomesNone(r: Reader)
    requires Calm(r, map[])
    ensures !AnyWelcome(r, |r.slots|)
  {
    forall i | 0 <= i < |r.slots| && IsTrigger(r, r.slots[i])
      ensures Mismatched(r, r.slots[i].card) || !HasRoom(r)
    {
      assert r.slots[i] in r.slots;
    }
  }

  lemma CalmMakesNone(r: Reader, b: Book, st: Scan, id: string)
    requires Calm(r, b) && BookInv(r, b, st, |r.slots|) && id in st.book
    ensures id in b
  {
    if b == map[] {
      CalmWelcomesNone(r);
    } else {
      forall i | 0 <= i < |r.slots|
        ensures !MadeFrom(r, b, r.slots[i], st.book[id])
      {
        assert r.slots[i] in r.slots;
      }
    }
  }

  /** A calm ledger is read without change. */
  lemma CalmIsLeftAlone(r: Reader, b: Book)
    requires DistinctSlots(r.slots) && Calm(r, b)
    ensures Read(r, b != map[], b) == Reading(b, Reports(r, SortedSet(TextLess, b.Keys), b, HeldBy(r, b)))
  {
    GoodIsApart(b);
    var st := WalkOf(r, b);
    CalmRecordsNothing(r, b, st);
    HeldIsHeldBy(r, b, st);
    KeptWhole(r, b, HeldBy(r, b));
  }

  lemma KeptWhole(r: Reader, b: Book, held: set<string>)
    requires forall id <- b :: SlotSorted(b[id]) && !Forgotten(r, id, b[id], id in held)
    ensures Kept(r, b, held) == b
  {
    forall id | id in b ensures SortBySlot(b[id]) == b[id] {
      SortedStays(b[id]);
    }
  }

  // ---- the second read ----

  /** Passes recorded in a walk change nothing about which record is in the way. */
  lemma NewPassesCatchNothing(r: Reader, b: Book, st: Scan, s: Slot, id: string)
    requires DistinctSlots(r.slots) && Aligned(r, b) && BookInv(r, b, st, |r.slots|) && s in r.slots
    requires forall x <- b :: st.book[x] == b[x]
    ensures Catches(r, st.book, s, id) <==> Catches(r, b, s, id)
    ensures StaleAnywhere(r, st.book, s.index) <==> StaleAnywhere(r, b, s.index)
  {
    forall x | x in st.book && x !in b
      ensures !HasStale(r, st.book[x], s.index) && !Misplaced(r, st.book[x])
    {
      var t := MadeFromOne(r, b, st, x);
      NewPassIsQuiet(r, b, t, x, st.book[x]);
    }
    assert forall x <- b :: HasStale(r, st.book[x], s.index) <==> HasStale(r, b[x], s.index);
    if id in b {
      AlignedIsPlaced(r, b[id]);
      assert Least(r, st.book, id, s.index) <==> Least(r, b, id, s.index);
      if IsTrigger(r, s) && HasStale(r, b[id], s.index) && !Claimed(b, s.card) {
        NotMadeWhereStale(r, b, st, s);
      }
      assert Claimed(b, s.card) ==> Claimed(st.book, s.card);
    }
  }

  lemma SameHeld(r: Reader, b: Book, st: Scan)
    requires DistinctSlots(r.slots) && Aligned(r, b) && BookInv(r, b, st, |r.slots|)
    requires forall x <- b :: st.book[x] == b[x]
    ensures HeldBy(r, st.book) == HeldBy(r, b)
  {
    forall x | x in st.book && x !in b ensures !AnyDormant(r, st.book[x]) {
      var t := MadeFromOne(r, b, st, x);
      NewPassIsQuiet(r, b, t, x, st.book[x]);
    }
    forall id ensures id in HeldBy(r, st.book) <==> id in HeldBy(r, b) {
      forall s | s in r.slots ensures Catches(r, st.book, s, id) <==> Catches(r, b, s, id) {
        NewPassesCatchNothing(r, b, st, s, id);
      }
    }
  }

  lemma WalkedBookIsGood(r: Reader, b: Book, st: Scan)
    requires DistinctSlots(r.slots) && GoodBook(b) && BookInv(r, b, st, |r.slots|)
    requires forall x <- b :: st.book[x] == b[x]
    ensures GoodBook(st.book)
  {
    forall id | id in st.book
      ensures WellKept(st.book[id]) && forall e <- st.book[id] :: e.card.number != ""
    {
      if id !in b {
        var s := MadeFromOne(r, b, st, id);
        NewPassIsQuiet(r, b, s, id, st.book[id]);
      }
    }
  }

  lemma LevelPass(r: Reader, b: Book, id: string)
    requires Level(r, b) && id in b
    ensures Refreshed(r, b[id]) == b[id] && Shifted(r, b[id], |r.slots|) == b[id]
    ensures !Forgotten(r, id, b[id], id in HeldBy(r, b))
    ensures r.seos && !AnyTrigger(r) ==> AnyPresent(r, b[id])
  {
    assert RefreshedBook(r, b)[id] == b[id];
    if r.seos && !AnyTrigger(r) {
      assert id in Prepared(r, b != map[], b);
    }
  }

  lemma MadePass(r: Reader, b: Book, st: Scan, id: string, held: bool)
    requires DistinctSlots(r.slots) && BookInv(r, b, st, |r.slots|) && id in st.book && id !in b
    ensures Refreshed(r, st.book[id]) == st.book[id] && Shifted(r, st.book[id], |r.slots|) == st.book[id]
    ensures !Forgotten(r, id, st.book[id], held)
    ensures AnyPresent(r, st.book[id])
  {
    var s := MadeFromOne(r, b, st, id);
    NewPassIsQuiet(r, b, s, id, st.book[id]);
  }

  /** A ledger is level as soon as each of its passes is. */
  lemma LevelByPass(r: Reader, c: Book)
    requires GoodBook(c) && c != map[]
    requires forall id <- c :: Refreshed(r, c[id]) == c[id] && Shifted(r, c[id], |r.slots|) == c[id]
    requires forall id <- c :: !Forgotten(r, id, c[id], id in HeldBy(r, c))
    requires r.seos && !AnyTrigger(r) ==> forall id <- c :: AnyPresent(r, c[id])
    ensures Level(r, c)
  {
    hide Shifted, Refreshed, Forgotten, HeldBy, AnyPresent;
    assert RefreshedBook(r, c) == c;
    assert Prepared(r, true, c) == c;
  }

  lemma WalkedBookIsLevel(r: Reader, b: Book, st: Scan)
    requires DistinctSlots(r.slots) && Level(r, b) && b != map[]
    requires BookInv(r, b, st, |r.slots|)
    ensures forall x <- b :: st.book[x] == b[x]
    ensures Level(r, st.book) && HeldBy(r, st.book) == HeldBy(r, b)
  {
    forall x | x in b ensures st.book[x] == b[x] { }
    SameHeld(r, b, st);
    WalkedBookIsGood(r, b, st);
    forall id | id in st.book
      ensures Refreshed(r, st.book[id]) == st.book[id] && Shifted(r, st.book[id], |r.slots|) == st.book[id]
      ensures !Forgotten(r, id, st.book[id], id in HeldBy(r, st.book))
      ensures r.seos && !AnyTrigger(r) ==> AnyPresent(r, st.book[id])
    {
      if id in b {
        LevelPass(r, b, id);
      } else {
        MadePass(r, b, st, id, id in HeldBy(r, st.book));
      }
    }
    var id :| id in b;
    assert id in st.book;
    LevelByPass(r, st.book);
  }

  lemma WalkedBookIsAnswered(r: Reader, b: Book, st: Scan, s: Slot)
    requires DistinctSlots(r.slots) && Aligned(r, b) && b != map[]
    requires BookInv(r, b, st, |r.slots|) && HeldInv(r, b, DormantIds(r, b), st, |r.slots|)
    requires forall x <- b :: st.book[x] == b[x]
    requires s in r.slots && IsTrigger(r, s)
    ensures Claimed(st.book, s.card) || StaleAnywhere(r, st.book, s.index) || Refused(r, st.book, s)
  {
    OutcomeOf(r, b, st, s);
    NewPassesCatchNothing(r, b, st, s, "");
    if id :| id in b && Holds(b[id], s.card) {
      assert Holds(st.book[id], s.card);
    } else if id :| id in st.held && Catches(r, b, s, id) {
      AlignedIsPlaced(r, b[id]);
    } else if id :| id in st.book && id !in b && st.book[id] == [NewEntry(r, s)] {
      assert st.book[id][0] in st.book[id];
      assert Holds(st.book[id], s.card);
    }
  }

  /** The second read: what it leaves is calm, and it returns what reading that would. */
  lemma SecondReadIsCalm(r: Reader, b: Book)
    requires DistinctSlots(r.slots) && Level(r, b) && b != map[]
    ensures var two := Read(r, true, b);
            two.book != map[] && Calm(r, two.book)
            && two.credentials == Reports(r, SortedSet(TextLess, two.book.Keys), two.book, HeldBy(r, two.book))
  {
    GoodIsApart(b);
    var st := WalkOf(r, b);
    WalkedBookIsLevel(r, b, st);
    HeldIsHeldBy(r, b, st);
    KeptWhole(r, st.book, st.held);
    forall s | s in r.slots && IsTrigger(r, s)
      ensures Claimed(st.book, s.card) || StaleAnywhere(r, st.book, s.index) || Refused(r, st.book, s)
    {
      WalkedBookIsAnswered(r, b, st, s);
    }
    var id :| id in b;
    assert id in st.book;
  }

  // ---- the first read ----

  lemma AdoptedIsGood(r: Reader)
    requires DistinctSlots(r.slots)
    ensures GoodBook(Adopted(r))
    ensures Adopted(r) != map[] ==> AnyTrigger(r)
  {
    var a := Adopted(r);
    forall i, j | i in a && j in a && i != j
      ensures Cards(a[i]) !! Cards(a[j])
    {
      var s, t := SlotNamed(r, i, 0).value, SlotNamed(r, j, 0).value;
      assert s.card != t.card;
    }
    if id :| id in a {
      assert SlotNamed(r, id, 0).value in r.slots;
    }
  }

  lemma PreparedIsGood(r: Reader, ours: bool, b: Book)
    requires DistinctSlots(r.slots) && GoodBook(b)
    ensures GoodBook(Prepared(r, ours, b))
  {
    AdoptedIsGood(r);
  }

  lemma SameCardsEach(a: seq<Entry>, b: seq<Entry>)
    requires |a| == |b| && forall i | 0 <= i < |a| :: a[i].card == b[i].card
    ensures Cards(a) == Cards(b) && Distinct(a) == Distinct(b)
  {
    forall c ensures c in Cards(a) <==> c in Cards(b) {
      if e :| e in a && e.card == c { var i :| 0 <= i < |a| && a[i] == e; assert b[i] in b; }
      if e :| e in b && e.card == c { var i :| 0 <= i < |b| && b[i] == e; assert a[i] in a; }
    }
  }

  /** What a read asks of a pass's cards does not depend on how they are listed. */
  lemma ByCards(r: Reader, a: seq<Entry>, b: seq<Entry>)
    requires Cards(a) == Cards(b)
    ensures AnyDormant(r, a) == AnyDormant(r, b) && AnyPresent(r, a) == AnyPresent(r, b)
    ensures Numbered(a) == Numbered(b) && (forall c :: Holds(a, c) == Holds(b, c))
  {
    forall c ensures Holds(a, c) == Holds(b, c) {
      assert Holds(a, c) <==> c in Cards(a);
      assert Holds(b, c) <==> c in Cards(b);
    }
    forall e | e in a ensures exists x <- b :: x.card == e.card { assert Holds(a, e.card); }
    forall e | e in b ensures exists x <- a :: x.card == e.card { assert Holds(b, e.card); }
  }

  lemma RefreshedPass(r: Reader, es: seq<Entry>)
    requires WellKept(es) && Numbered(es)
    ensures WellKept(Refreshed(r, es)) && Numbered(Refreshed(r, es))
    ensures Cards(Refreshed(r, es)) == Cards(es)
    ensures AnyDormant(r, Refreshed(r, es)) == AnyDormant(r, es) && AnyPresent(r, Refreshed(r, es)) == AnyPresent(r, es)
    ensures Refreshed(r, Refreshed(r, es)) == Refreshed(r, es)
  {
    SameCardsEach(Refreshed(r, es), es);
    ByCards(r, Refreshed(r, es), es);
  }

  lemma RefreshedIsGood(r: Reader, p: Book)
    requires GoodBook(p)
    ensures GoodBook(RefreshedBook(r, p)) && RefreshedBook(r, RefreshedBook(r, p)) == RefreshedBook(r, p)
    ensures Scanned(r, p) == Scanned(r, RefreshedBook(r, p))
  {
    var b := RefreshedBook(r, p);
    forall id | id in p
      ensures WellKept(b[id]) && Numbered(b[id]) && Cards(b[id]) == Cards(p[id])
      ensures Refreshed(r, b[id]) == b[id] && AnyDormant(r, b[id]) == AnyDormant(r, p[id])
    {
      RefreshedPass(r, p[id]);
    }
    assert b.Keys == p.Keys && RefreshedBook(r, b) == b;
    assert DormantIds(r, b) == DormantIds(r, p);
  }

  /** Sorting a pass's rows by slot changes nothing a read looks at. */
  lemma SortedPass(r: Reader, id: string, es: seq<Entry>)
    ensures var f := SortBySlot(es);
            && Cards(f) == Cards(es) && (forall c :: Holds(f, c) <==> Holds(es, c))
            && (forall index :: HasStale(r, f, index) <==> HasStale(r, es, index))
            && AnyPresent(r, f) == AnyPresent(r, es) && Waits(r, id, f) == Waits(r, id, es)
            && (Build(r, id, f).None? <==> Build(r, id, es).None?)
            && (Distinct(es) ==> Distinct(f)) && SlotSorted(f) && |f| == |es|
  {
    SortBySlotKeeps(es);
  }

  lemma ShiftedEntryStays(r: Reader, e: Entry)
    requires DistinctSlots(r.slots)
    ensures ShiftedEntry(r, ShiftedEntry(r, e, |r.slots|), |r.slots|) == ShiftedEntry(r, e, |r.slots|)
  {
  }

  lemma ShiftedSorted(r: Reader, es: seq<Entry>)
    requires DistinctSlots(r.slots) && Refreshed(r, es) == es
    ensures var f := SortBySlot(Shifted(r, es, |r.slots|));
            Refreshed(r, f) == f && Shifted(r, f, |r.slots|) == f
  {
    var m := Shifted(r, es, |r.slots|);
    var f := SortBySlot(m);
    SortBySlotKeeps(m);
    forall i | 0 <= i < |f|
      ensures f[i].dormant == IsDormant(r, f[i].card) && ShiftedEntry(r, f[i], |r.slots|) == f[i]
    {
      assert f[i] in m;
      var j :| 0 <= j < |m| && m[j] == f[i];
      assert Refreshed(r, es)[j] == es[j];
      ShiftedEntryStays(r, es[j]);
    }
  }

  lemma ShiftedPass(r: Reader, es: seq<Entry>)
    requires DistinctSlots(r.slots) && es != [] && Distinct(es) && Refreshed(r, es) == es && Numbered(es)
    ensures var f := SortBySlot(Shifted(r, es, |r.slots|));
            && WellKept(f) && Numbered(f) && Cards(f) == Cards(es)
            && Refreshed(r, f) == f && Shifted(r, f, |r.slots|) == f
            && (forall index :: HasStale(r, f, index) <==> HasStale(r, es, index))
            && AnyPresent(r, f) == AnyPresent(r, es)
  {
    var m := Shifted(r, es, |r.slots|);
    SameCardsEach(m, es);
    SortedPass(r, "", m);
    ByCards(r, SortBySlot(m), es);
    ShiftedSorted(r, es);
    forall index ensures HasStale(r, SortBySlot(m), index) <==> HasStale(r, es, index) {
      StaleStays(r, es, |r.slots|, index);
    }
  }

  /** One pass after the first read's walk. */
  lemma WalkedPass(r: Reader, b: Book, st: Scan, id: string)
    requires DistinctSlots(r.slots) && GoodBook(b) && RefreshedBook(r, b) == b
    requires BookInv(r, b, st, |r.slots|) && id in st.book
    ensures var f := SortBySlot(st.book[id]);
            && WellKept(f) && Numbered(f) && Cards(f) == Cards(st.book[id])
            && Refreshed(r, f) == f && Shifted(r, f, |r.slots|) == f
            && (id in b ==> Cards(f) == Cards(b[id]) && AnyPresent(r, f) == AnyPresent(r, b[id]))
            && (id in b ==> forall index :: HasStale(r, f, index) <==> HasStale(r, b[id], index))
            && (id !in b ==> AnyPresent(r, f) && forall index :: !HasStale(r, f, index))
  {
    if id in b {
      assert WellKept(b[id]) && Numbered(b[id]) && st.book[id] == Shifted(r, b[id], |r.slots|);
      WalkedOldPass(r, b, st, id);
    } else {
      WalkedNewPass(r, b, st, id);
    }
  }

  lemma WalkedNewPass(r: Reader, b: Book, st: Scan, id: string)
    requires DistinctSlots(r.slots) && BookInv(r, b, st, |r.slots|) && id in st.book && id !in b
    ensures var f := SortBySlot(st.book[id]);
            && f == st.book[id] && WellKept(f) && Numbered(f)
            && Refreshed(r, f) == f && Shifted(r, f, |r.slots|) == f
            && AnyPresent(r, f) && forall index :: !HasStale(r, f, index)
  {
    var s := MadeFromOne(r, b, st, id);
    NewPassIsQuiet(r, b, s, id, st.book[id]);
  }

  lemma WalkedOldPass(r: Reader, b: Book, st: Scan, id: string)
    requires DistinctSlots(r.slots) && RefreshedBook(r, b) == b && id in b && WellKept(b[id]) && Numbered(b[id])
    requires id in st.book && st.book[id] == Shifted(r, b[id], |r.slots|)
    ensures var f := SortBySlot(st.book[id]);
            && WellKept(f) && Numbered(f) && Cards(f) == Cards(st.book[id]) && Cards(f) == Cards(b[id])
            && Refreshed(r, f) == f && Shifted(r, f, |r.slots|) == f && AnyPresent(r, f) == AnyPresent(r, b[id])
            && forall index :: HasStale(r, f, index) <==> HasStale(r, b[id], index)
  {
    assert RefreshedBook(r, b)[id] == b[id];
    ShiftedPass(r, b[id]);
    SortedPass(r, id, st.book[id]);
  }

  /** A pass whose cards are all gone can only be held by a slot's unrecorded card. */
  lemma AbsentPassIsCaught(r: Reader, b: Book, st: Scan, id: string)
    requires DistinctSlots(r.slots) && !r.seos && GoodBook(b)
    requires BookInv(r, b, st, |r.slots|) && HeldInv(r, b, DormantIds(r, b), st, |r.slots|)
    requires id in st.held && id in st.book && Build(r, id, st.book[id]).None?
    ensures id in b && exists s <- r.slots :: Catches(r, b, s, id) && HasStale(r, b[id], s.index)
  {
    assert forall s <- r.slots :: !Holds(st.book[id], s.card);
    if id in b {
      ShiftedHolds(r, b[id], |r.slots|);
      assert forall s <- r.slots :: !Holds(b[id], s.card);
      forall c | c in Present(r.slots) ensures !Holds(b[id], c) {
        assert Present(r.slots)[c] in r.slots;
      }
      forall e | e in b[id] ensures !IsDormant(r, e.card) {
        assert Holds(b[id], e.card);
      }
    }
    assert id !in DormantIds(r, b);
    var i :| 0 <= i < |r.slots| && Catches(r, b, r.slots[i], id);
    assert r.slots[i] in r.slots;
    forall e, s | e in b[id] && s in r.slots && IsTrigger(r, s) ensures s.card != e.card {
      assert Holds(b[id], e.card);
    }
    assert !Misplaced(r, b[id]);
  }

  /** What was held for a pass with no card left is still in its way at the next read. */
  lemma StillCaught(r: Reader, b: Book, st: Scan, one: Book, s: Slot, id: string)
    requires DistinctSlots(r.slots) && GoodBook(b) && RefreshedBook(r, b) == b
    requires BookInv(r, b, st, |r.slots|)
    requires one == Kept(r, st.book, st.held) && id in one && id in b && s in r.slots
    requires Catches(r, b, s, id) && HasStale(r, b[id], s.index)
    ensures Catches(r, one, s, id)
  {
    NotMadeWhereStale(r, b, st, s);
    forall x | x in one
      ensures !Holds(one[x], s.card) && (HasStale(r, one[x], s.index) ==> x in b && HasStale(r, b[x], s.index))
    {
      WalkedPass(r, b, st, x);
      SortedPass(r, x, st.book[x]);
      assert !Holds(st.book[x], s.card);
    }
    WalkedPass(r, b, st, id);
  }

  lemma FirstReadForgetsNoMore(r: Reader, b: Book, st: Scan, one: Book, id: string)
    requires DistinctSlots(r.slots) && GoodBook(b) && RefreshedBook(r, b) == b
    requires BookInv(r, b, st, |r.slots|) && HeldInv(r, b, DormantIds(r, b), st, |r.slots|)
    requires one == Kept(r, st.book, st.held) && id in one
    ensures !Forgotten(r, id, one[id], id in HeldBy(r, one))
  {
    SortedPass(r, id, st.book[id]);
    if !Waits(r, id, st.book[id]) && Build(r, id, st.book[id]).None? {
      AbsentPassIsCaught(r, b, st, id);
      var s :| s in r.slots && Catches(r, b, s, id) && HasStale(r, b[id], s.index);
      StillCaught(r, b, st, one, s, id);
    }
  }

  lemma FirstReadIsLevel(r: Reader, ours: bool, b0: Book)
    requires DistinctSlots(r.slots) && GoodBook(b0) && (b0 != map[] ==> ours)
    requires Read(r, ours, b0).book != map[]
    ensures Level(r, Read(r, ours, b0).book)
  {
    var p := Prepared(r, ours, b0);
    PreparedIsGood(r, ours, b0);
    RefreshedIsGood(r, p);
    var b := RefreshedBook(r, p);
    GoodIsApart(b);
    var st := WalkOf(r, b);
    var one := Kept(r, st.book, st.held);
    assert one == Read(r, ours, b0).book;
    if r.seos && !AnyTrigger(r) {
      forall id | id in b ensures AnyPresent(r, b[id]) {
        RefreshedPass(r, p[id]);
      }
    }
    hide Prepared, RefreshedBook, BookInv, HeldInv, OrderInv;
    FirstWalkIsLevel(r, b, st, one);
  }

  lemma FirstWalkIsLevel(r: Reader, b: Book, st: Scan, one: Book)
    requires DistinctSlots(r.slots) && GoodBook(b) && RefreshedBook(r, b) == b
    requires BookInv(r, b, st, |r.slots|) && HeldInv(r, b, DormantIds(r, b), st, |r.slots|)
    requires one == Kept(r, st.book, st.held) && one != map[]
    requires r.seos && !AnyTrigger(r) ==> forall id <- b :: AnyPresent(r, b[id])
    ensures Level(r, one)
  {
    hide HeldInv, Shifted, Forgotten, HeldBy, AnyPresent, RefreshedBook;
    assert CardsApart(st.book);
    forall id | id in one
      ensures WellKept(one[id]) && Numbered(one[id]) && Cards(one[id]) == Cards(st.book[id])
      ensures Refreshed(r, one[id]) == one[id] && Shifted(r, one[id], |r.slots|) == one[id]
      ensures !Forgotten(r, id, one[id], id in HeldBy(r, one))
      ensures r.seos && !AnyTrigger(r) ==> AnyPresent(r, one[id])
    {
      WalkedPass(r, b, st, id);
      FirstReadForgetsNoMore(r, b, st, one, id);
    }
    LevelByPass(r, one);
  }

  /** A DESFire walk that met a trigger card leaves a pass to keep. */
  lemma TriggerLeavesAPass(r: Reader, b: Book, st: Scan, s: Slot)
    requires DistinctSlots(r.slots) && !r.seos && s in r.slots && IsTrigger(r, s) && st.book != map[]
    requires BookInv(r, b, st, |r.slots|) && HeldInv(r, b, DormantIds(r, b), st, |r.slots|)
    ensures Kept(r, st.book, st.held) != map[]
  {
    hide HeldInv, BookInv, Kept, Claimed;
    OutcomeOf(r, b, st, s);
    var any :| any in st.book;
    if id :| id in st.book && id !in b {
      MadeIsKept(r, b, st, id);
    } else if Claimed(b, s.card) {
      HolderIsKept(r, b, st, s);
    } else if id :| id in st.held && Catches(r, b, s, id) {
      CaughtIsKept(r, b, st, id);
    }
  }

  lemma MadeIsKept(r: Reader, b: Book, st: Scan, id: string)
    requires DistinctSlots(r.slots) && BookInv(r, b, st, |r.slots|) && id in st.book && id !in b
    ensures id in Kept(r, st.book, st.held)
  {
    var s := MadeFromOne(r, b, st, id);
    NewPassIsQuiet(r, b, s, id, st.book[id]);
  }

  lemma HolderIsKept(r: Reader, b: Book, st: Scan, s: Slot)
    requires !r.seos && s in r.slots && BookInv(r, b, st, |r.slots|) && Claimed(b, s.card)
    ensures Kept(r, st.book, st.held) != map[]
  {
    var id :| id in b && Holds(b[id], s.card);
    ShiftedHolds(r, b[id], |r.slots|);
    assert Holds(st.book[id], s.card) && id in Kept(r, st.book, st.held);
  }

  lemma CaughtIsKept(r: Reader, b: Book, st: Scan, id: string)
    requires BookInv(r, b, st, |r.slots|) && id in b && id in st.held
    ensures id in Kept(r, st.book, st.held)
  {
  }

  lemma SeosKeepsAll(r: Reader, book: Book, held: set<string>)
    requires r.seos
    ensures Kept(r, book, held).Keys == book.Keys
  {
  }

  lemma EmptyIsCalm(r: Reader)
    requires !r.seos ==> Adopted(r) == map[]
    requires forall s <- r.slots :: IsTrigger(r, s) ==> !HasRoom(r) || Mismatched(r, s.card)
    ensures Calm(r, map[])
  {
    var e: Book := map[];
    assert RefreshedBook(r, e) == e && Prepared(r, false, e) == e;
  }

  lemma NothingLeftIsCalm(r: Reader, ours: bool, b0: Book)
    requires DistinctSlots(r.slots) && GoodBook(b0) && (b0 != map[] ==> ours)
    requires Read(r, ours, b0).book == map[]
    ensures Calm(r, map[])
  {
    var p := Prepared(r, ours, b0);
    PreparedIsGood(r, ours, b0);
    RefreshedIsGood(r, p);
    var b := RefreshedBook(r, p);
    GoodIsApart(b);
    var st := WalkOf(r, b);
    assert Kept(r, st.book, st.held) == map[];
    if r.seos {
      SeosKeepsAll(r, st.book, st.held);
    }
    AdoptedIsGood(r);
    if st.book == map[] {
      assert b == map[] by { assert forall id :: id in b ==> id in st.book; }
      assert p == map[] by { assert p.Keys == b.Keys; }
      forall s | s in r.slots && IsTrigger(r, s) ensures !HasRoom(r) || Mismatched(r, s.card) {
        OutcomeOf(r, b, st, s);
        assert forall id :: !Catches(r, b, s, id);
      }
    } else {
      forall s | s in r.slots ensures !IsTrigger(r, s) {
        if IsTrigger(r, s) { TriggerLeavesAPass(r, b, st, s); }
      }
    }
    EmptyIsCalm(r);
  }

  // ---- the theorem ----

  /** A read in a cycle of its own: the cycle knows whether the ledger holds cards of theirs. */
  ghost function ReadNow(r: Reader, b: Book): Reading {
    Read(r, b != map[], b)
  }

  ghost function ReadTimes(r: Reader, b: Book, n: nat): Reading
    requires n >= 1
  {
    if n == 1 then ReadNow(r, b) else ReadNow(r, ReadTimes(r, b, n - 1).book)
  }

  lemma TwoReadsAreCalm(r: Reader, b: Book)
    requires DistinctSlots(r.slots) && GoodBook(b)
    ensures Calm(r, ReadTimes(r, b, 2).book)
    ensures ReadNow(r, ReadTimes(r, b, 2).book) == ReadTimes(r, b, 2)
  {
    var one := ReadNow(r, b).book;
    assert ReadTimes(r, b, 1) == ReadNow(r, b);
    if one == map[] {
      NothingLeftIsCalm(r, b != map[], b);
      CalmIsLeftAlone(r, map[]);
    } else {
      FirstReadIsLevel(r, b != map[], b);
      SecondReadIsCalm(r, one);
      CalmIsLeftAlone(r, ReadTimes(r, b, 2).book);
    }
  }

  /** Reading an unchanged cardholder stabilises: every read from the third on
      leaves the ledger unchanged and returns what the second returned. */
  lemma {:induction false} ReadingStabilises(r: Reader, b: Book, n: nat)
    requires DistinctSlots(r.slots) && GoodBook(b) && n >= 2
    ensures ReadTimes(r, b, n) == ReadTimes(r, b, 2)
  {
    if n > 2 {
      ReadingStabilises(r, b, n - 1);
      TwoReadsAreCalm(r, b);
    }
  }
}

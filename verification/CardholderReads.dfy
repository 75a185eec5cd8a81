/** list_credentials as the adapter runs it: the ledger is written as the slots are walked. */
module CardholderReads {
  import opened Base
  import opened Order
  import opened Export
  import opened Pacs
  import opened Ledger
  import opened SeosStatus
  import opened PersonLedger
  import opened Reading

  /** The passes held in memory are what the table holds, but for the order of a pass's rows. */
  ghost predicate SameRows(t: Table, person: string, b: Book) {
    && (forall id :: Key(person, id) in t <==> id in b)
    && forall id <- b :: Distinct(b[id]) && b[id] != [] && t[Key(person, id)] == SortBySlot(b[id])
  }

  ghost predicate InStep(t: Table, person: string, others: Table, b: Book) {
    WellKeptTable(t) && OthersOf(t, person) == others && SameRows(t, person, b)
  }

  predicate ForgetsNoBox(before: seq<Entry>, after: seq<Entry>) {
    forall e <- after, b <- before :: e.card == b.card && e.active.None? ==> b.active.None?
  }

  lemma RecordedRows(t: Table, k: Key, es: seq<Entry>)
    requires WellKeptTable(t) && Distinct(es) && es != [] && ForgetsNoBox(Entries(t, k), es)
    ensures Recorded(t, k, es) == t[k := SortBySlot(es)] && WellKeptTable(t[k := SortBySlot(es)])
  {
    NothingToFill(Entries(t, k), es);
    SortBySlotKeeps(es);
  }

  lemma RowsForgetNoBox(t: Table, person: string, b: Book, id: string, es: seq<Entry>)
    requires SameRows(t, person, b)
    requires id in b ==> ForgetsNoBox(b[id], es)
    ensures ForgetsNoBox(Entries(t, Key(person, id)), es)
  {
    if id in b {
      SortBySlotKeeps(b[id]);
    }
  }

  lemma RecordInStep(t: Table, person: string, others: Table, b: Book, id: string, es: seq<Entry>)
    requires InStep(t, person, others, b) && Distinct(es) && es != []
    requires id in b ==> ForgetsNoBox(b[id], es)
    ensures InStep(Recorded(t, Key(person, id), es), person, others, b[id := es])
  {
    hide WellKeptTable, OthersOf, Recorded, SortBySlot, SameRows, ForgetsNoBox;
    RowsForgetNoBox(t, person, b, id, es);
    RecordedRows(t, Key(person, id), es);
    OneRecorded(t, person, id, SortBySlot(es));
    OneRowChanged(t, person, b, id, es);
  }

  lemma OneRowChanged(t: Table, person: string, b: Book, id: string, es: seq<Entry>)
    requires SameRows(t, person, b) && Distinct(es) && es != []
    ensures SameRows(t[Key(person, id) := SortBySlot(es)], person, b[id := es])
  {
    hide SortBySlot, Distinct;
  }

  lemma InStepPass(t: Table, person: string, others: Table, b: Book, id: string)
    requires InStep(t, person, others, b) && id in b
    ensures Distinct(b[id]) && b[id] != [] && Entries(t, Key(person, id)) == SortBySlot(b[id])
  {
  }

  lemma ForgetInStep(t: Table, person: string, others: Table, b: Book, id: string)
    requires InStep(t, person, others, b)
    ensures InStep(t - {Key(person, id)}, person, others, b - {id})
  {
    OneForgotten(t, person, id);
    hide OthersOf, SortBySlot, Distinct;
  }

  lemma StartsInStep(t: Table, person: string)
    requires WellKeptTable(t)
    ensures InStep(t, person, OthersOf(t, person), PersonBook(t, person))
  {
    hide OthersOf, SortBySlot;
    var b := PersonBook(t, person);
    forall id | id in b ensures SortBySlot(b[id]) == b[id] && Distinct(b[id]) && b[id] != [] {
      assert WellKept(t[Key(person, id)]);
      SortedStays(b[id]);
    }
  }

  lemma InStepKeeps(t: Table, person: string, others: Table, b: Book)
    requires InStep(t, person, others, b)
    ensures OthersOf(t, person) == others && WellKeptTable(t)
  {
  }

  /** What the table holds for the person, once the passes in memory are in slot order. */
  lemma InStepBook(t: Table, person: string, others: Table, b: Book, sorted: Book)
    requires InStep(t, person, others, b)
    requires sorted.Keys == b.Keys && forall id <- b :: sorted[id] == SortBySlot(b[id])
    ensures PersonBook(t, person) == sorted
  {
    hide OthersOf, SortBySlot, WellKeptTable, Distinct;
    assert PassIds(t, person) == b.Keys;
  }

  lemma MovedForgetsNoBox(es: seq<Entry>, card: Card, index: nat)
    requires Distinct(es)
    ensures Distinct(Moved(es, card, index)) && ForgetsNoBox(es, Moved(es, card, index))
  {
    var m := Moved(es, card, index);
    SameBoxes(es, m);
  }

  lemma RefreshedForgetsNoBox(r: Reader, es: seq<Entry>)
    requires Distinct(es)
    ensures Distinct(Refreshed(r, es)) && ForgetsNoBox(es, Refreshed(r, es))
  {
    SameBoxes(es, Refreshed(r, es));
  }

  lemma SameBoxes(es: seq<Entry>, m: seq<Entry>)
    requires Distinct(es) && |m| == |es|
    requires forall i | 0 <= i < |es| :: m[i].card == es[i].card && m[i].active == es[i].active
    ensures Distinct(m) && ForgetsNoBox(es, m)
  {
    forall e, b | e in m && b in es && e.card == b.card
      ensures e.active == b.active
    {
      var i :| 0 <= i < |m| && m[i] == e;
      var j :| 0 <= j < |es| && es[j] == b;
      assert es[i].card == es[j].card;
    }
  }

  // ---- the phases of one read ----

  /** Adopting slot-named passes, or forgetting passes none of whose cards remain. */
  method Prepare(cards: PacsCards, person: string, r: Reader, ours: bool)
    requires WellKeptTable(cards.table)
    modifies cards
    ensures InStep(cards.table, person, old(OthersOf(cards.table, person)), Prepared(r, ours, old(PersonBook(cards.table, person))))
  {
    ghost var b0, others := PersonBook(cards.table, person), OthersOf(cards.table, person);
    StartsInStep(cards.table, person);
    var ids := PassIds(cards.table, person);
    if !r.seos {
      if ids == {} {
        assert b0 == map[];
        Adopt(cards, person, r, others);
      } else {
        assert b0 != map[] by { var id :| id in ids; assert id in b0; }
      }
    } else if ours && !AnyTrigger(r) {
      Forget(cards, person, r, b0, others);
    }
  }

  /** Adopted so far: all but those still to look at. */
  ghost predicate AdoptedBut(r: Reader, todo: set<string>, b: Book) {
    && (forall id :: id in b <==> id in Adopted(r) && id !in todo)
    && (forall id <- b :: b[id] == Adopted(r)[id])
  }

  lemma OneMoreAdopted(r: Reader, todo: set<string>, b: Book, id: string)
    requires AdoptedBut(r, todo, b) && todo <= r.slotIds && id in todo
    ensures id !in b
    ensures var slot := SlotNamed(r, id, 0);
            AdoptedBut(r, todo - {id}, if slot.Some? then b[id := [Entry(slot.value.index, slot.value.card, None, Settled, false)]] else b)
  {
    hide SlotNamed;
  }

  lemma AllAdopted(r: Reader, b: Book)
    requires AdoptedBut(r, {}, b)
    ensures b == Adopted(r)
  {
    hide Adopted;
    assert b.Keys == Adopted(r).Keys;
  }

  lemma NoneAdopted(r: Reader)
    ensures AdoptedBut(r, r.slotIds, map[])
  {
    hide SlotNamed;
  }

  method Adopt(cards: PacsCards, person: string, r: Reader, ghost others: Table)
    requires InStep(cards.table, person, others, map[])
    modifies cards
    ensures InStep(cards.table, person, others, Adopted(r))
  {
    hide InStep, Recorded, AdoptedBut, Adopted, SlotNamed;
    var todo := r.slotIds;
    ghost var b: Book := map[];
    NoneAdopted(r);
    while todo != {}
      invariant todo <= r.slotIds && AdoptedBut(r, todo, b)
      invariant InStep(cards.table, person, others, b)
      decreases todo
    {
      var id :| id in todo;
      OneMoreAdopted(r, todo, b, id);
      todo := todo - {id};
      var slot := SlotNamed(r, id, 0);
      if slot.Some? {
        var es := [Entry(slot.value.index, slot.value.card, None, Settled, false)];
        RecordInStep(cards.table, person, others, b, id, es);
        cards.Record(Key(person, id), es);
        b := b[id := es];
      }
    }
    AllAdopted(r, b);
  }

  method Forget(cards: PacsCards, person: string, r: Reader, ghost b0: Book, ghost others: Table)
    requires InStep(cards.table, person, others, b0)
    modifies cards
    ensures InStep(cards.table, person, others, map id | id in b0 && AnyPresent(r, b0[id]) :: b0[id])
  {
    hide InStep, SortBySlot;
    PassesInStep(cards.table, person, others, b0);
    var todo := PassIds(cards.table, person);
    ghost var b := b0;
    while todo != {}
      invariant todo <= b0.Keys
      invariant forall id :: id in b <==> id in b0 && (id in todo || AnyPresent(r, b0[id]))
      invariant forall id <- b :: b[id] == b0[id]
      invariant InStep(cards.table, person, others, b)
      decreases todo
    {
      var id :| id in todo;
      todo := todo - {id};
      var entries := cards.Get(Key(person, id));
      InStepPass(cards.table, person, others, b, id);
      SortBySlotKeeps(b[id]);
      if !(exists e <- entries :: e.card in Present(r.slots)) {
        assert !AnyPresent(r, b0[id]);
        ForgetInStep(cards.table, person, others, b, id);
        cards.Forget(Key(person, id));
        b := b - {id};
      }
    }
    assert b == map id | id in b0 && AnyPresent(r, b0[id]) :: b0[id];
  }

  lemma PassesInStep(t: Table, person: string, others: Table, b: Book)
    requires InStep(t, person, others, b)
    ensures PassIds(t, person) == b.Keys
  {
  }

  method Refresh(cards: PacsCards, person: string, r: Reader, ghost p: Book, ghost others: Table) returns (st: Scan)
    requires InStep(cards.table, person, others, p) && PersonBook(cards.table, person) == p
    modifies cards
    ensures st == Start(r, p)
    ensures InStep(cards.table, person, others, st.book)
  {
    hide InStep, TextLess, IsRefreshed, Refreshed, AnyDormant, StrictTotal;
    var mine := PersonBook(cards.table, person);
    var held: set<string> := {};
    var todo := mine.Keys;
    NoneRefreshed(r, p);
    while todo != {}
      invariant todo <= mine.Keys && IsRefreshed(r, p, todo, mine, held)
      invariant InStep(cards.table, person, others, mine)
      decreases todo
    {
      var id :| id in todo;
      ghost var mine0, held0 := mine, held;
      var dormant;
      mine, dormant := RefreshPass(cards, person, r, mine, id, others);
      if dormant {
        held := held + {id};
      }
      OneRefreshed(r, p, todo, mine0, held0, id);
      todo := todo - {id};
    }
    AllRefreshed(r, p, mine, held);
    TextIsOrdered();
    var order := SortSet(TextLess, mine.Keys);
    st := Scan(order, mine, held);
  }

  /** The passes outside `todo` have been looked at. */
  ghost predicate IsRefreshed(r: Reader, p: Book, todo: set<string>, mine: Book, held: set<string>) {
    && todo <= mine.Keys == p.Keys
    && (forall id <- p :: mine[id] == if id in todo then p[id] else Refreshed(r, p[id]))
    && (forall id :: id in held <==> id in p && id !in todo && AnyDormant(r, p[id]))
  }

  lemma NoneRefreshed(r: Reader, p: Book)
    ensures IsRefreshed(r, p, p.Keys, p, {})
  {
  }

  lemma OneRefreshed(r: Reader, p: Book, todo: set<string>, mine: Book, held: set<string>, id: string)
    requires IsRefreshed(r, p, todo, mine, held) && id in todo
    ensures IsRefreshed(r, p, todo - {id}, mine[id := Refreshed(r, mine[id])],
                        if AnyDormant(r, mine[id]) then held + {id} else held)
  {
    hide Refreshed, AnyDormant;
  }

  lemma AllRefreshed(r: Reader, p: Book, mine: Book, held: set<string>)
    requires IsRefreshed(r, p, {}, mine, held)
    ensures mine == RefreshedBook(r, p) && held == DormantIds(r, p)
  {
    hide Refreshed, AnyDormant;
  }

  method RefreshPass(cards: PacsCards, person: string, r: Reader, mine: Book, id: string, ghost others: Table)
    returns (after: Book, dormant: bool)
    requires InStep(cards.table, person, others, mine) && id in mine
    modifies cards
    ensures after == mine[id := Refreshed(r, mine[id])]
    ensures dormant == AnyDormant(r, mine[id])
    ensures InStep(cards.table, person, others, after)
  {
    hide InStep, Recorded;
    InStepPass(cards.table, person, others, mine, id);
    DormantShows(r, mine[id]);
    var refreshed := Refreshed(r, mine[id]);
    dormant := exists e <- refreshed :: e.dormant;
    after := mine[id := refreshed];
    if refreshed != mine[id] {
      RefreshedForgetsNoBox(r, mine[id]);
      RecordInStep(cards.table, person, others, mine, id, refreshed);
      cards.Record(Key(person, id), refreshed);
    } else {
      assert after == mine;
    }
  }

  lemma DormantShows(r: Reader, es: seq<Entry>)
    ensures (exists e <- Refreshed(r, es) :: e.dormant) <==> AnyDormant(r, es)
  {
    var f := Refreshed(r, es);
    if e :| e in f && e.dormant {
      var i :| 0 <= i < |f| && f[i] == e;
      assert es[i] in es;
    }
    if e :| e in es && IsDormant(r, e.card) {
      var i :| 0 <= i < |es| && es[i] == e;
      assert f[i] in f;
    }
  }

  /** One slot: follow its card's record, hold what is in the way, or record a new pass. */
  method WalkSlot(cards: PacsCards, person: string, r: Reader, st: Scan, slot: Slot, ghost others: Table) returns (after: Scan)
    requires InStep(cards.table, person, others, st.book)
    modifies cards
    ensures after == ScanSlot(r, st, slot)
    ensures InStep(cards.table, person, others, after.book)
  {
    after := st;
    if !IsTrigger(r, slot) {
      return;
    }
    var owner := OwnerOf(st.order, st.book, slot.card);
    if owner.Some? {
      var moved := Moved(st.book[owner.value], slot.card, slot.index);
      MovedForgetsNoBox(st.book[owner.value], slot.card, slot.index);
      if moved != st.book[owner.value] {
        RecordInStep(cards.table, person, others, st.book, owner.value, moved);
        cards.Record(Key(person, owner.value), moved);
      }
      after := st.(book := st.book[owner.value := moved]);
      assert moved == st.book[owner.value] ==> after.book == st.book;
      return;
    }
    var recorded := FirstAt(st.order, st.book, slot.index);
    if recorded.Some? {
      after := st.(held := st.held + set id | id in st.book && recorded.value in st.book[id]);
      return;
    }
    if st.book == map[] && (slot.card in r.elsewhere || r.tracked != {}) {
      return;
    }
    if !HasRoom(r) {
      return;
    }
    var id := NameNewPass(st.book.Keys);
    var es := [NewEntry(r, slot)];
    RecordInStep(cards.table, person, others, st.book, id, es);
    cards.Record(Key(person, id), es);
    after := st.(order := st.order + [id], book := st.book[id := es]);
  }

  method Walk(cards: PacsCards, person: string, r: Reader, start: Scan, ghost others: Table) returns (st: Scan)
    requires InStep(cards.table, person, others, start.book)
    modifies cards
    ensures st == ScanSlots(r, start, |r.slots|)
    ensures InStep(cards.table, person, others, st.book)
  {
    st := start;
    for n := 0 to |r.slots|
      invariant st == ScanSlots(r, start, n)
      invariant InStep(cards.table, person, others, st.book)
    {
      st := WalkSlot(cards, person, r, st, r.slots[n], others);
    }
  }

  method BuildCredential(r: Reader, id: string, es: seq<Entry>) returns (c: Option<Credential>)
    ensures c == Build(r, id, es)
  {
    if r.seos {
      var seos := ReadSeosCredential(id, es, r.slots, r.now);
      c := Some(seos);
    } else {
      c := DesfireCredential(id, es, r.slots);
    }
  }

  method ReportOne(r: Reader, id: string, es: seq<Entry>, held: bool) returns (c: Option<Credential>, gone: bool)
    requires es != []
    ensures c == Report(r, id, es, held)
    ensures gone == Forgotten(r, id, es, held)
  {
    if Waits(r, id, es) {
      return None, false;
    }
    c := BuildCredential(r, id, es);
    gone := false;
    if c.None? && held {
      c := Some(Credential(id, es[0].card.facility, es[0].card.number, false, false, Unknown, None, None, true));
    } else if c.None? {
      gone := true;
    }
    if c.Some? {
      c := Some(c.value.(hold := held));
    }
  }

  /** Reports what is left, forgetting the DESFire passes whose card is gone. */
  method ReportAll(cards: PacsCards, person: string, r: Reader, st: Scan, ghost others: Table) returns (out: seq<Credential>)
    requires InStep(cards.table, person, others, st.book)
    modifies cards
    ensures out == Reports(r, SortedSet(TextLess, st.book.Keys), st.book, st.held)
    ensures PersonBook(cards.table, person) == Kept(r, st.book, st.held)
    ensures OthersOf(cards.table, person) == others && WellKeptTable(cards.table)
  {
    hide InStep, TextLess, Kept, Reports, StrictTotal, Sorted;
    TextIsOrdered();
    var ids := SortSet(TextLess, st.book.Keys);
    forall i | 0 <= i < |ids| ensures ids[i] !in ids[..i] { NotBefore(ids, i); }
    ghost var left;
    out, left := ReportEach(cards, person, r, st, ids, others);
    InStepBook(cards.table, person, others, left, Kept(r, st.book, st.held));
    InStepKeeps(cards.table, person, others, left);
  }

  method ReportEach(cards: PacsCards, person: string, r: Reader, st: Scan, ids: seq<string>, ghost others: Table)
    returns (out: seq<Credential>, ghost left: Book)
    requires InStep(cards.table, person, others, st.book)
    requires (forall id :: id in ids <==> id in st.book) && forall i | 0 <= i < |ids| :: ids[i] !in ids[..i]
    modifies cards
    ensures out == Reports(r, ids, st.book, st.held) && InStep(cards.table, person, others, left)
    ensures left.Keys == Kept(r, st.book, st.held).Keys && forall id <- left :: Kept(r, st.book, st.held)[id] == SortBySlot(left[id])
  {
    hide InStep, Kept, Report, Forgotten, IsLeft, Reports;
    ReportsNothing(r, st);
    out := [];
    left := st.book;
    AllLeft(r, st);
    for i := 0 to |ids|
      invariant out == Reports(r, ids[..i], st.book, st.held)
      invariant IsLeft(r, st, ids[..i], left)
      invariant InStep(cards.table, person, others, left)
    {
      var id := ids[i];
      assert ids[..i + 1] == ids[..i] + [id];
      ReportsStep(r, ids[..i], id, st);
      var c;
      c, left := ReportPass(cards, person, r, st, ids[..i], id, left, others);
      if c.Some? {
        out := out + [c.value];
      }
    }
    assert ids[..|ids|] == ids;
    KeptIsLeft(r, st, ids, left);
  }

  method ReportPass(cards: PacsCards, person: string, r: Reader, st: Scan, ghost ids: seq<string>, id: string,
                    ghost left: Book, ghost others: Table)
    returns (c: Option<Credential>, ghost after: Book)
    requires InStep(cards.table, person, others, left) && IsLeft(r, st, ids, left)
    requires id in st.book && id !in ids
    modifies cards
    ensures c == Report(r, id, st.book[id], id in st.held)
    ensures InStep(cards.table, person, others, after) && IsLeft(r, st, ids + [id], after)
  {
    hide InStep, IsLeft, Report, Forgotten;
    OneReported(r, st, ids, left, id);
    InStepPass(cards.table, person, others, left, id);
    var gone;
    c, gone := ReportOne(r, id, st.book[id], id in st.held);
    after := left;
    if gone {
      ForgetInStep(cards.table, person, others, left, id);
      cards.Forget(Key(person, id));
      after := left - {id};
    }
  }

  lemma ReportsNothing(r: Reader, st: Scan)
    ensures Reports(r, [], st.book, st.held) == []
  {
  }

  lemma ReportsStep(r: Reader, ids: seq<string>, id: string, st: Scan)
    requires id in st.book
    ensures var c := Report(r, id, st.book[id], id in st.held);
            Reports(r, ids + [id], st.book, st.held) ==
            Reports(r, ids, st.book, st.held) + if c.Some? then [c.value] else []
  {
    assert (ids + [id])[..|ids|] == ids;
  }

  /** The passes not forgotten once those in `ids` have been reported. */
  ghost predicate IsLeft(r: Reader, st: Scan, ids: seq<string>, left: Book) {
    && (forall id :: id in left <==> id in st.book && !(id in ids && Forgotten(r, id, st.book[id], id in st.held)))
    && (forall id <- left :: left[id] == st.book[id])
  }

  lemma NotBefore(ids: seq<string>, i: nat)
    requires StrictTotal(TextLess) && Sorted(TextLess, ids) && i < |ids|
    ensures ids[i] !in ids[..i]
  {
    hide TextLess;
    forall j | 0 <= j < i ensures ids[j] != ids[i] { assert TextLess(ids[j], ids[i]); }
  }

  lemma AllLeft(r: Reader, st: Scan)
    ensures IsLeft(r, st, [], st.book)
  {
  }

  lemma OneReported(r: Reader, st: Scan, ids: seq<string>, left: Book, id: string)
    requires IsLeft(r, st, ids, left) && id in st.book && id !in ids
    ensures id in left && left[id] == st.book[id]
    ensures IsLeft(r, st, ids + [id], if Forgotten(r, id, st.book[id], id in st.held) then left - {id} else left)
  {
    hide Forgotten;
  }

  lemma KeptIsLeft(r: Reader, st: Scan, ids: seq<string>, left: Book)
    requires IsLeft(r, st, ids, left) && forall id <- st.book :: id in ids
    ensures var kept := Kept(r, st.book, st.held);
            kept.Keys == left.Keys && forall id <- left :: kept[id] == SortBySlot(left[id])
  {
  }

  /** One read of a cardholder: the ledger it leaves and what it returns are those of `Read`. */
  method ReadCardholder(cards: PacsCards, person: string, r: Reader, ours: bool) returns (out: seq<Credential>)
    requires WellKeptTable(cards.table)
    modifies cards
    ensures var reading := Read(r, ours, old(PersonBook(cards.table, person)));
            out == reading.credentials && PersonBook(cards.table, person) == reading.book
    ensures OthersOf(cards.table, person) == old(OthersOf(cards.table, person)) && WellKeptTable(cards.table)
  {
    ghost var others, b := OthersOf(cards.table, person), PersonBook(cards.table, person);
    Prepare(cards, person, r, ours);
    ghost var p := Prepared(r, ours, b);
    PreparedIsSorted(r, ours, b, cards.table, person, old(cards.table));
    var st := Refresh(cards, person, r, p, others);
    st := Walk(cards, person, r, st, others);
    out := ReportAll(cards, person, r, st, others);
  }

  lemma PreparedIsSorted(r: Reader, ours: bool, b: Book, t: Table, person: string, t0: Table)
    requires WellKeptTable(t0) && b == PersonBook(t0, person)
    requires InStep(t, person, OthersOf(t0, person), Prepared(r, ours, b))
    ensures PersonBook(t, person) == Prepared(r, ours, b)
  {
    var p := Prepared(r, ours, b);
    forall id | id in p ensures SortBySlot(p[id]) == p[id] {
      if id in b {
        assert WellKept(t0[Key(person, id)]);
      }
      assert SlotSorted(p[id]);
      SortedStays(p[id]);
    }
    InStepBook(t, person, OthersOf(t0, person), p, p);
  }
}

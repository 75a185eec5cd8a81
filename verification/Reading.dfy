/** list_credentials: reading a cardholder against the ledger, which follows what it reads. */
module Reading {
  import opened Base
  import opened Order
  import opened Export
  import opened Pacs
  import opened Ledger
  import opened SeosStatus

  /** A person's ledger: the recorded cards of each of their passes. */
  type Book = map<string, seq<Entry>>

  /** Everything a read depends on besides the person's own ledger. */
  datatype Reader = Reader(
    trigger: string,           // the trigger format's display name
    seos: bool, pair: bool,
    slots: seq<Slot>,          // the cardholder in this cycle's export
    tracked: set<string>,      // their passes we track in AccessGrid
    slotIds: set<string>,      // their undeleted tracking rows, by credential id
    elsewhere: set<Card>,      // cards recorded on other people
    now: int)

  predicate IsTrigger(r: Reader, s: Slot) {
    r.trigger != "" && s.format == r.trigger && !s.Empty()
  }

  function EmptyCount(slots: seq<Slot>): nat {
    if slots == [] then 0 else EmptyCount(slots[..|slots| - 1]) + if slots[|slots| - 1].Empty() then 1 else 0
  }

  /** A new Seos pair pass needs an empty slot for its second card. */
  predicate HasRoom(r: Reader) {
    EmptyCount(r.slots) >= if r.seos && r.pair then 1 else 0
  }

  // ---- a fresh credential id ----

  function Candidate(n: nat): string {
    if n < 2 then "card" else "card-" + Decimal(n)
  }

  lemma CandidatesDiffer(a: nat, b: nat)
    requires 1 <= a < b
    ensures Candidate(a) != Candidate(b)
  {
    assert Candidate(b)[5..] == Decimal(b);
    if a == 1 {
      assert |Candidate(1)| == 4;
    } else {
      assert Candidate(a)[5..] == Decimal(a);
      if Candidate(a) == Candidate(b) {
        DecimalInjective(a, b);
      }
    }
  }

  /** The ids the naming loop has gone through before its nth. */
  ghost function Tried(n: nat): (r: set<string>)
    ensures n <= 1 ==> r == {}
  {
    if n <= 1 then {} else Tried(n - 1) + {Candidate(n - 1)}
  }

  lemma {:induction false} NotTriedYet(n: nat, m: nat)
    requires 1 <= n <= m
    ensures Candidate(m) !in Tried(n)
  {
    if n > 1 {
      NotTriedYet(n - 1, m);
      CandidatesDiffer(n - 1, m);
    }
  }

  /** The first of "card", "card-2", "card-3"... from the nth on that is not in `left`. */
  function FirstFree(left: set<string>, n: nat): string
    decreases |left|
  {
    if Candidate(n) in left then FirstFree(left - {Candidate(n)}, n + 1) else Candidate(n)
  }

  function FreshId(used: set<string>): string {
    FirstFree(used, 1)
  }

  lemma {:induction false} FirstFreeIsFree(used: set<string>, left: set<string>, n: nat)
    requires n >= 1 && left == used - Tried(n)
    ensures FirstFree(left, n) !in used
    decreases |left|
  {
    NotTriedYet(n, n);
    if Candidate(n) in left {
      FirstFreeIsFree(used, left - {Candidate(n)}, n + 1);
    }
  }

  lemma FreshIdIsFree(used: set<string>)
    ensures FreshId(used) !in used
  {
    FirstFreeIsFree(used, used, 1);
  }

  /** The naming loop ends, and with an id not in use. */
  method NameNewPass(used: set<string>) returns (id: string)
    ensures id == FreshId(used) && id !in used
  {
    var n := 2;
    id := "card";
    ghost var left := used;
    while id in used
      invariant n >= 2 && id == Candidate(n - 1)
      invariant left == used - Tried(n - 1)
      invariant FreshId(used) == FirstFree(left, n - 1)
      decreases |left|
    {
      NotTriedYet(n - 1, n - 1);
      left := left - {id};
      id, n := Candidate(n), n + 1;
    }
    NotTriedYet(n - 1, n - 1);
  }

  // ---- before the slots are walked ----

  function NewEntry(r: Reader, s: Slot): Entry {
    Entry(s.index, s.card, None, if r.seos then Write else Settled, false)
  }

  /** The trigger slot a slot-keyed DESFire pass was tracked by. */
  function SlotNamed(r: Reader, id: string, n: nat): (s: Option<Slot>)
    requires n <= |r.slots|
    ensures s.Some? ==> s.value in r.slots && IsTrigger(r, s.value) && "slot" + Decimal(s.value.index) == id
    ensures s.None? ==> forall i | n <= i < |r.slots| :: !(IsTrigger(r, r.slots[i]) && "slot" + Decimal(r.slots[i].index) == id)
    decreases |r.slots| - n
  {
    if n == |r.slots| then None
    else if "slot" + Decimal(r.slots[n].index) == id && IsTrigger(r, r.slots[n]) then Some(r.slots[n])
    else SlotNamed(r, id, n + 1)
  }

  /** Passes tracked by slot from before the ledger are recorded once, against the card now in that slot. */
  function Adopted(r: Reader): Book {
    map id | id in r.slotIds && SlotNamed(r, id, 0).Some? ::
      var s := SlotNamed(r, id, 0).value; [Entry(s.index, s.card, None, Settled, false)]
  }

  predicate AnyTrigger(r: Reader) {
    exists s <- r.slots :: IsTrigger(r, s)
  }

  predicate AnyPresent(r: Reader, es: seq<Entry>) {
    exists e <- es :: e.card in Present(r.slots)
  }

  /** The ledger a read starts from: DESFire adopts, Seos drops passes none of
      whose cards remain. `ours`: the ledger held cards of theirs when the cycle began. */
  function Prepared(r: Reader, ours: bool, b: Book): Book {
    if !r.seos then (if b == map[] then Adopted(r) else b)
    else if ours && !AnyTrigger(r) then map id | id in b && AnyPresent(r, b[id]) :: b[id]
    else b
  }

  /** Present in another format. */
  predicate IsDormant(r: Reader, card: Card) {
    card in Present(r.slots) && !IsTrigger(r, Present(r.slots)[card])
  }

  function Refreshed(r: Reader, es: seq<Entry>): (f: seq<Entry>)
    ensures |f| == |es| && forall i | 0 <= i < |f| :: f[i] == es[i].(dormant := IsDormant(r, es[i].card))
  {
    seq(|es|, i requires 0 <= i < |es| => es[i].(dormant := IsDormant(r, es[i].card)))
  }

  function RefreshedBook(r: Reader, b: Book): Book {
    map id | id in b :: Refreshed(r, b[id])
  }

  predicate AnyDormant(r: Reader, es: seq<Entry>) {
    exists e <- es :: IsDormant(r, e.card)
  }

  function DormantIds(r: Reader, b: Book): set<string> {
    set id | id in b && AnyDormant(r, b[id])
  }

  // ---- walking the slots ----

  /** `order` is the order the passes are looked through in; `held` the passes put on hold. */
  datatype Scan = Scan(order: seq<string>, book: Book, held: set<string>)

  predicate Holds(es: seq<Entry>, card: Card) {
    exists e <- es :: e.card == card
  }

  function OwnerOf(order: seq<string>, book: Book, card: Card): (o: Option<string>)
    ensures o.Some? ==> o.value in order && o.value in book && Holds(book[o.value], card)
    ensures o.None? ==> forall id <- order :: id in book ==> !Holds(book[id], card)
  {
    if order == [] then None
    else if order[0] in book && Holds(book[order[0]], card) then Some(order[0])
    else OwnerOf(order[1..], book, card)
  }

  predicate At(e: Entry, index: int) {
    e.slot == index && e.pending != Insert
  }

  function FirstIn(es: seq<Entry>, index: int): (f: Option<Entry>)
    ensures f.Some? ==> f.value in es && At(f.value, index)
    ensures f.None? ==> forall e <- es :: !At(e, index)
  {
    if es == [] then None
    else if At(es[0], index) then Some(es[0])
    else FirstIn(es[1..], index)
  }

  /** The first recorded card, in the order passes are looked through, for a slot. */
  function FirstAt(order: seq<string>, book: Book, index: int): Option<Entry> {
    if order == [] then None
    else if order[0] in book && FirstIn(book[order[0]], index).Some? then FirstIn(book[order[0]], index)
    else FirstAt(order[1..], book, index)
  }

  function Moved(es: seq<Entry>, card: Card, index: nat): (m: seq<Entry>)
    ensures |m| == |es|
    ensures forall i | 0 <= i < |m| :: m[i] == if es[i].card == card then es[i].(slot := index) else es[i]
  {
    seq(|es|, i requires 0 <= i < |es| => if es[i].card == card then es[i].(slot := index) else es[i])
  }

  /** Nothing recorded for the person, and the card or a pass of theirs is spoken for. */
  predicate Mismatched(r: Reader, card: Card) {
    card in r.elsewhere || r.tracked != {}
  }

  function ScanSlot(r: Reader, st: Scan, s: Slot): Scan {
    if !IsTrigger(r, s) then st
    else
      match OwnerOf(st.order, st.book, s.card)
      case Some(id) => st.(book := st.book[id := Moved(st.book[id], s.card, s.index)])
      case None =>
        match FirstAt(st.order, st.book, s.index)
        case Some(e) => st.(held := st.held + set id | id in st.book && e in st.book[id])
        case None =>
          if st.book == map[] && Mismatched(r, s.card) then st
          else if !HasRoom(r) then st
          else
            var id := FreshId(st.book.Keys);
            st.(order := st.order + [id], book := st.book[id := [NewEntry(r, s)]])
  }

  function ScanSlots(r: Reader, st: Scan, n: nat): Scan
    requires n <= |r.slots|
  {
    if n == 0 then st else ScanSlot(r, ScanSlots(r, st, n - 1), r.slots[n - 1])
  }

  ghost function Start(r: Reader, b: Book): Scan {
    Scan(SortedSet(TextLess, b.Keys), RefreshedBook(r, b), DormantIds(r, b))
  }

  ghost function Scanned(r: Reader, b: Book): Scan {
    ScanSlots(r, Start(r, b), |r.slots|)
  }

  // ---- what is reported ----

  function FirstSlotOf(slots: seq<Slot>, es: seq<Entry>): (f: Option<Slot>)
    ensures f.Some? ==> f.value in slots && Holds(es, f.value.card)
    ensures f.None? ==> forall s <- slots :: !Holds(es, s.card)
  {
    if slots == [] then None
    else if Holds(es, slots[0].card) then Some(slots[0])
    else FirstSlotOf(slots[1..], es)
  }

  /** A pass carrying the Millennium card's own identity and state. */
  function DesfireCredential(id: string, es: seq<Entry>, slots: seq<Slot>): Option<Credential> {
    match FirstSlotOf(slots, es)
    case None => None
    case Some(s) => Some(Credential(id, s.card.facility, s.card.number, false, false,
                                    if s.active then Active else Suspended, s.activation, s.expiration, true))
  }

  function Build(r: Reader, id: string, es: seq<Entry>): Option<Credential> {
    if r.seos then Some(SeosCredential(id, es, Present(r.slots), r.now)) else DesfireCredential(id, es, r.slots)
  }

  /** Recorded but not issued yet, and the room it was recorded with is gone. */
  predicate Waits(r: Reader, id: string, es: seq<Entry>) {
    (forall e <- es :: e.pending == Write) && id !in r.tracked && !HasRoom(r)
  }

  function Report(r: Reader, id: string, es: seq<Entry>, held: bool): Option<Credential> {
    if Waits(r, id, es) then None
    else
      match Build(r, id, es)
      case Some(c) => Some(c.(hold := held))
      case None =>
        if held && es != []
        then Some(Credential(id, es[0].card.facility, es[0].card.number, false, true, Unknown, None, None, true))
        else None
  }

  /** A pass goes unreported only while it waits for room, or when its DESFire card is gone and
      nothing holds it; a report names the pass and carries its hold, and a DESFire pass mirrors
      its Millennium card. */
  lemma ReportSays(r: Reader, id: string, es: seq<Entry>, held: bool)
    requires es != []
    ensures Report(r, id, es, held).None? <==> Waits(r, id, es) || (!r.seos && !held && forall s <- r.slots :: !Holds(es, s.card))
    ensures Report(r, id, es, held).Some? ==> Report(r, id, es, held).value.id == id && Report(r, id, es, held).value.hold == held
    ensures r.seos && Report(r, id, es, held).Some? ==>
              var c := Report(r, id, es, held).value; c.allocateIdentity && c.triggerActive && c.siteCode == "" && c.cardNumber == ""
    ensures !r.seos && Report(r, id, es, held).Some? ==>
              var c := Report(r, id, es, held).value;
              && !c.allocateIdentity && c.triggerActive
              && ( || (c.status == Unknown && forall s <- r.slots :: !Holds(es, s.card))
                   || exists s <- r.slots :: Holds(es, s.card) && c.siteCode == s.card.facility && c.cardNumber == s.card.number
                                             && (c.status == Active <==> s.active) && c.activate == s.activation && c.deactivate == s.expiration)
  {
    hide SeosCredential;
    if r.seos {
      SeosNamesPass(id, es, Present(r.slots), r.now);
    }
  }

  lemma SeosNamesPass(id: string, es: seq<Entry>, live: map<Card, Slot>, now: int)
    ensures var c := SeosCredential(id, es, live, now);
            c.id == id && c.allocateIdentity && !c.hold && c.triggerActive && c.siteCode == "" && c.cardNumber == ""
  {
  }

  /** A DESFire card that is gone, on a pass nothing holds. */
  predicate Forgotten(r: Reader, id: string, es: seq<Entry>, held: bool) {
    !Waits(r, id, es) && Build(r, id, es).None? && !held
  }

  function Reports(r: Reader, ids: seq<string>, book: Book, held: set<string>): seq<Credential> {
    if ids == [] then []
    else
      var last := ids[|ids| - 1];
      Reports(r, ids[..|ids| - 1], book, held) +
      if last in book && Report(r, last, book[last], last in held).Some?
      then [Report(r, last, book[last], last in held).value] else []
  }

  function Kept(r: Reader, book: Book, held: set<string>): Book {
    map id | id in book && !Forgotten(r, id, book[id], id in held) :: SortBySlot(book[id])
  }

  datatype Reading = Reading(book: Book, credentials: seq<Credential>)

  /** One list_credentials call: the ledger it leaves and what it returns. */
  ghost function Read(r: Reader, ours: bool, b: Book): Reading {
    var st := Scanned(r, Prepared(r, ours, b));
    Reading(Kept(r, st.book, st.held), Reports(r, SortedSet(TextLess, st.book.Keys), st.book, st.held))
  }

  lemma ReportNames(r: Reader, id: string, es: seq<Entry>, held: bool)
    ensures Report(r, id, es, held).Some? ==> Report(r, id, es, held).value.id == id
  {
    hide SeosCredential;
    SeosNamesPass(id, es, Present(r.slots), r.now);
  }

  predicate NoneTwice(ids: seq<string>) {
    forall i, j | 0 <= i < j < |ids| :: ids[i] != ids[j]
  }

  predicate NamedOnce(reports: seq<Credential>) {
    forall i, j | 0 <= i < j < |reports| :: reports[i].id != reports[j].id
  }

  lemma OneMoreNamed(reports: seq<Credential>, c: Credential)
    requires NamedOnce(reports) && forall x <- reports :: x.id != c.id
    ensures NamedOnce(reports + [c])
  {
    forall i | 0 <= i < |reports| ensures reports[i].id != c.id { assert reports[i] in reports; }
  }

  lemma {:induction false} ReportsNamed(r: Reader, ids: seq<string>, book: Book, held: set<string>)
    requires NoneTwice(ids)
    ensures NamedOnce(Reports(r, ids, book, held)) && forall c <- Reports(r, ids, book, held) :: c.id in ids
  {
    if ids != [] {
      hide Report, NamedOnce;
      var front, last := ids[..|ids| - 1], ids[|ids| - 1];
      assert ids == front + [last] && last !in front;
      ReportsNamed(r, front, book, held);
      var before := Reports(r, front, book, held);
      if last in book && Report(r, last, book[last], last in held).Some? {
        ReportNames(r, last, book[last], last in held);
        OneMoreNamed(before, Report(r, last, book[last], last in held).value);
      } else {
        assert Reports(r, ids, book, held) == before;
      }
    } else {
      assert Reports(r, ids, book, held) == [];
    }
  }

  /** Whatever is read, each pass is reported once. */
  lemma ReportedOnce(r: Reader, ours: bool, b: Book)
    ensures NamedOnce(Read(r, ours, b).credentials)
  {
    hide TextLess, Scanned, Prepared, Reports, NamedOnce, SortedSet, Sorted;
    TextIsOrdered();
    var st := Scanned(r, Prepared(r, ours, b));
    SortedSetIs(TextLess, st.book.Keys);
    SortedDiffer(TextLess, SortedSet(TextLess, st.book.Keys));
    ReportsNamed(r, SortedSet(TextLess, st.book.Keys), st.book, st.held);
  }

  // ---- shape ----

  /** Each of the person's cards recorded once, as the table keeps them. */
  ghost predicate GoodBook(b: Book) {
    && (forall id <- b :: WellKept(b[id]) && forall e <- b[id] :: e.card.number != "")
    && (forall i, j | i in b && j in b && i != j :: Cards(b[i]) !! Cards(b[j]))
  }
}

/** What AccessGrid says about a pass, and which identities it backs. */
module AgCards {
  import opened Base
  import opened Export
  import opened Pacs

  /** One device or per-platform entry of a pass. */
  datatype AgEntry = AgEntry(site: string, number: string, state: string, status: string, deviceType: string) {
    function CardOf(): Card { Card(site, number) }
  }

  datatype AgCard = AgCard(
    id: string, site: string, number: string, state: string, status: string,
    employeeId: string, syncRef: string, token: string, siteTag: Option<string>, cardTag: Option<string>,
    details: seq<AgEntry>, deviceCredentials: seq<AgEntry>, devices: seq<AgEntry>, credentials: seq<AgEntry>)
  {
    function CardOf(): Card { Card(site, number) }

    function Entries(): seq<AgEntry> { details + deviceCredentials + devices + credentials }

    /** As the phases read it off a listing. */
    function ListedState(): string { Lower(state) }
  }

  function StateText(state: string, status: string): string {
    Lower(Strip(if state != "" then state else status))
  }

  const DEAD_STATES: set<string> := {"deleted", "unlink", "unlinked"}
  const INSTALLED_STATES: set<string> := {"installed", "active"}

  predicate EntryDead(e: AgEntry) { StateText(e.state, e.status) in DEAD_STATES }

  predicate CardDead(c: AgCard) { StateText(c.state, c.status) in DEAD_STATES }

  /** On at least one real device. */
  predicate Installed(cards: seq<AgCard>) {
    exists c <- cards, d <- c.devices :: StateText(d.state, d.status) in INSTALLED_STATES
  }

  // ---- what is offered, what is retired ----

  /** A numbered place an identity appears: an entry of a card, or the card itself. */
  datatype Occurrence = Occurrence(card: Card, deviceType: string, dead: bool)

  function EntryAt(e: AgEntry): Occurrence { Occurrence(e.CardOf(), e.deviceType, EntryDead(e)) }

  function CardAt(c: AgCard): Occurrence { Occurrence(c.CardOf(), "", CardDead(c)) }

  function Listed(entries: seq<AgEntry>): (r: seq<Occurrence>)
    ensures |r| == |entries| && forall i | 0 <= i < |r| :: r[i] == EntryAt(entries[i])
  {
    seq(|entries|, i requires 0 <= i < |entries| => EntryAt(entries[i]))
  }

  /** A card's entries in the order they are looked through, then the card's own. */
  function Occurrences(c: AgCard): seq<Occurrence> {
    Listed(c.Entries()) + [CardAt(c)]
  }

  predicate Numbered(o: Occurrence) { o.card.number != "" }

  predicate InIdentities(out: seq<Identity>, card: Card) {
    exists i <- out :: i.card == card
  }

  predicate NoneTwice(out: seq<Identity>) {
    forall i, j | 0 <= i < j < |out| :: out[i].card != out[j].card
  }

  /** Keep an identity the first time it is met. */
  function Add(out: seq<Identity>, i: Identity): seq<Identity> {
    if InIdentities(out, i.card) then out else out + [i]
  }

  function Offer(out: seq<Identity>, occ: seq<Occurrence>): seq<Identity> {
    if occ == [] then out
    else
      var before := Offer(out, occ[..|occ| - 1]);
      var o := occ[|occ| - 1];
      if !Numbered(o) || o.dead then before else Add(before, Identity(o.card, o.deviceType))
  }

  function OfferedOf(c: AgCard): seq<Identity> {
    Offer([], Occurrences(c))
  }

  function Offered(cards: seq<AgCard>): seq<Identity> {
    if cards == [] then [] else Union(Offered(cards[..|cards| - 1]), OfferedOf(cards[|cards| - 1]))
  }

  function Union(out: seq<Identity>, more: seq<Identity>): seq<Identity> {
    if more == [] then out else Add(Union(out, more[..|more| - 1]), more[|more| - 1])
  }

  /** A card deleted whole takes its entries with it. */
  function Release(out: seq<Identity>, occ: seq<Occurrence>, parentDead: bool): seq<Identity> {
    if occ == [] then out
    else
      var before := Release(out, occ[..|occ| - 1], parentDead);
      var o := occ[|occ| - 1];
      if !Numbered(o) || !(parentDead || o.dead) then before else Add(before, Identity(o.card, ""))
  }

  function Released(cards: seq<AgCard>): seq<Identity> {
    if cards == [] then []
    else
      var c := cards[|cards| - 1];
      Release(Released(cards[..|cards| - 1]), Occurrences(c), CardDead(c))
  }

  // ---- exactly which those are ----

  predicate LiveIn(c: AgCard, card: Card) {
    exists o <- Occurrences(c) :: Numbered(o) && !o.dead && o.card == card
  }

  predicate DeadIn(c: AgCard, card: Card) {
    exists o <- Occurrences(c) :: Numbered(o) && (CardDead(c) || o.dead) && o.card == card
  }

  predicate LiveSomewhere(cards: seq<AgCard>, card: Card) {
    exists c <- cards :: LiveIn(c, card)
  }

  predicate DeadSomewhere(cards: seq<AgCard>, card: Card) {
    exists c <- cards :: DeadIn(c, card)
  }

  predicate Appears(cards: seq<AgCard>, card: Card) {
    exists c <- cards, o <- Occurrences(c) :: Numbered(o) && o.card == card
  }

  lemma AddIs(out: seq<Identity>, i: Identity)
    requires NoneTwice(out)
    ensures NoneTwice(Add(out, i))
    ensures forall card :: InIdentities(Add(out, i), card) <==> InIdentities(out, card) || card == i.card
  {
    if !InIdentities(out, i.card) {
      assert (out + [i])[|out|] == i;
      forall k | 0 <= k < |out| ensures out[k].card != i.card { assert out[k] in out; }
    }
  }

  lemma {:induction false} OfferIs(out: seq<Identity>, occ: seq<Occurrence>)
    requires NoneTwice(out)
    ensures NoneTwice(Offer(out, occ))
    ensures forall card :: InIdentities(Offer(out, occ), card) <==>
              InIdentities(out, card) || exists o <- occ :: Numbered(o) && !o.dead && o.card == card
  {
    hide InIdentities, NoneTwice, Add;
    if occ != [] {
      var front, o := occ[..|occ| - 1], occ[|occ| - 1];
      assert occ == front + [o];
      OfferIs(out, front);
      AddIs(Offer(out, front), Identity(o.card, o.deviceType));
    }
  }

  lemma {:induction false} UnionIs(out: seq<Identity>, more: seq<Identity>)
    requires NoneTwice(out)
    ensures NoneTwice(Union(out, more))
    ensures forall card :: InIdentities(Union(out, more), card) <==> InIdentities(out, card) || InIdentities(more, card)
  {
    if more != [] {
      var front, i := more[..|more| - 1], more[|more| - 1];
      assert more == front + [i];
      UnionIs(out, front);
      AddIs(Union(out, front), i);
      forall card ensures InIdentities(more, card) <==> InIdentities(front, card) || card == i.card {
        assert i in more;
      }
    }
  }

  lemma {:induction false} ReleaseIs(out: seq<Identity>, occ: seq<Occurrence>, parentDead: bool)
    requires NoneTwice(out)
    ensures NoneTwice(Release(out, occ, parentDead))
    ensures forall card :: InIdentities(Release(out, occ, parentDead), card) <==>
              InIdentities(out, card) || exists o <- occ :: Numbered(o) && (parentDead || o.dead) && o.card == card
  {
    hide InIdentities, NoneTwice, Add;
    if occ != [] {
      var front, o := occ[..|occ| - 1], occ[|occ| - 1];
      assert occ == front + [o];
      ReleaseIs(out, front, parentDead);
      AddIs(Release(out, front, parentDead), Identity(o.card, ""));
    }
  }

  /** Offered: the identities with some live occurrence, each once. */
  lemma {:induction false} OfferedExactly(cards: seq<AgCard>)
    ensures NoneTwice(Offered(cards))
    ensures forall card :: InIdentities(Offered(cards), card) <==> LiveSomewhere(cards, card)
  {
    if cards != [] {
      var front, c := cards[..|cards| - 1], cards[|cards| - 1];
      assert cards == front + [c];
      OfferedExactly(front);
      OfferIs([], Occurrences(c));
      UnionIs(Offered(front), OfferedOf(c));
      assert forall card :: InIdentities(OfferedOf(c), card) <==> LiveIn(c, card);
      hide InIdentities, NoneTwice, LiveIn;
    }
  }

  /** Retired: the identities with some dead occurrence, or any under a dead card, each once. */
  lemma {:induction false} ReleasedExactly(cards: seq<AgCard>)
    ensures NoneTwice(Released(cards))
    ensures forall card :: InIdentities(Released(cards), card) <==> DeadSomewhere(cards, card)
  {
    if cards != [] {
      var front, c := cards[..|cards| - 1], cards[|cards| - 1];
      assert cards == front + [c];
      ReleasedExactly(front);
      ReleaseIs(Released(front), Occurrences(c), CardDead(c));
      assert forall card :: InIdentities(Released(cards), card) <==> InIdentities(Released(front), card) || DeadIn(c, card);
      hide InIdentities, NoneTwice, DeadIn;
    }
  }

  /** The state of a card or an entry, or its status where it states none, is that of a deletion. */
  predicate ReadsDeleted(state: string, status: string) {
    Lower(Strip(if state == "" then status else state)) in {"deleted", "unlink", "unlinked"}
  }

  /** The card, or one of its four lists of entries, carries the identity, and not as deleted. */
  ghost predicate CarriesAlive(c: AgCard, card: Card) {
    || (c.site == card.facility && c.number == card.number && !ReadsDeleted(c.state, c.status))
    || exists e | e in c.details || e in c.deviceCredentials || e in c.devices || e in c.credentials ::
         e.site == card.facility && e.number == card.number && !ReadsDeleted(e.state, e.status)
  }

  /** Or as deleted, or under a deleted card. */
  ghost predicate CarriesDeleted(c: AgCard, card: Card) {
    || (c.site == card.facility && c.number == card.number && ReadsDeleted(c.state, c.status))
    || exists e | e in c.details || e in c.deviceCredentials || e in c.devices || e in c.credentials ::
         e.site == card.facility && e.number == card.number && (ReadsDeleted(c.state, c.status) || ReadsDeleted(e.state, e.status))
  }

  /** Said of the cards themselves: which identities are offered, and which are retired. */
  lemma OfferedSays(cards: seq<AgCard>, card: Card)
    ensures (exists i <- Offered(cards) :: i.card == card) <==> card.number != "" && exists c <- cards :: CarriesAlive(c, card)
    ensures (exists i <- Released(cards) :: i.card == card) <==> card.number != "" && exists c <- cards :: CarriesDeleted(c, card)
  {
    hide Lower, Strip, Offered, Released, LiveIn, DeadIn, CarriesAlive, CarriesDeleted;
    OfferedExactly(cards);
    ReleasedExactly(cards);
    assert InIdentities(Offered(cards), card) <==> LiveSomewhere(cards, card);
    assert InIdentities(Released(cards), card) <==> DeadSomewhere(cards, card);
    forall c | c in cards
      ensures LiveIn(c, card) <==> card.number != "" && CarriesAlive(c, card)
      ensures DeadIn(c, card) <==> card.number != "" && CarriesDeleted(c, card)
    {
      LiveInSays(c, card);
      DeadInSays(c, card);
    }
  }

  /** An identity is offered under the device type of an entry carrying it, and under none where it is the
      card's own. */
  lemma {:induction false} OfferedUnder(cards: seq<AgCard>)
    ensures forall i <- Offered(cards) :: exists c <- cards ::
              || (c.CardOf() == i.card && i.deviceType == "")
              || exists e <- c.Entries() :: e.CardOf() == i.card && i.deviceType == e.deviceType
  {
    hide Occurrences, AgCard.Entries;
    if cards != [] {
      var front, c := cards[..|cards| - 1], cards[|cards| - 1];
      assert cards == front + [c];
      OfferedUnder(front);
      OfferOccurs([], Occurrences(c));
      UnionOf(Offered(front), OfferedOf(c));
      forall i | i in OfferedOf(c)
        ensures (c.CardOf() == i.card && i.deviceType == "") || exists e <- c.Entries() :: e.CardOf() == i.card && i.deviceType == e.deviceType
      {
        var o :| o in Occurrences(c) && i == Identity(o.card, o.deviceType);
        OccurrenceIs(c, o);
      }
      hide Offered, OfferedOf, Union, AgCard.CardOf;
    }
  }

  lemma {:induction false} OfferOccurs(out: seq<Identity>, occ: seq<Occurrence>)
    ensures forall i <- Offer(out, occ) :: i in out || exists o <- occ :: i == Identity(o.card, o.deviceType)
  {
    if occ != [] {
      assert occ == occ[..|occ| - 1] + [occ[|occ| - 1]];
      OfferOccurs(out, occ[..|occ| - 1]);
    }
  }

  lemma {:induction false} UnionOf(out: seq<Identity>, more: seq<Identity>)
    ensures forall i <- Union(out, more) :: i in out || i in more
  {
    if more != [] {
      UnionOf(out, more[..|more| - 1]);
    }
  }

  lemma ReadsDeletedIs(state: string, status: string)
    ensures ReadsDeleted(state, status) <==> StateText(state, status) in DEAD_STATES
  {
    hide Lower, Strip;
  }

  lemma LiveInSays(c: AgCard, card: Card)
    ensures LiveIn(c, card) <==> card.number != "" && CarriesAlive(c, card)
  {
    hide ReadsDeleted, StateText, Occurrences;
    CardsOccur(c);
    EntriesOccur(c);
    ReadsDeletedIs(c.state, c.status);
    forall e | e in c.Entries() ensures ReadsDeleted(e.state, e.status) <==> EntryDead(e) {
      ReadsDeletedIs(e.state, e.status);
    }
    if o :| o in Occurrences(c) && Numbered(o) && !o.dead && o.card == card {
      OccurrenceIs(c, o);
    }
    if card.number != "" && CarriesAlive(c, card) && !(c.CardOf() == card && !CardDead(c)) {
      var e :| (e in c.details || e in c.deviceCredentials || e in c.devices || e in c.credentials)
               && e.site == card.facility && e.number == card.number && !ReadsDeleted(e.state, e.status);
      assert e in c.Entries() && EntryAt(e) in Occurrences(c);
    }
  }

  lemma CardsOccur(c: AgCard)
    ensures CardAt(c) in Occurrences(c)
  {
    assert Occurrences(c)[|c.Entries()|] == CardAt(c);
  }

  lemma EntriesOccur(c: AgCard)
    ensures forall e <- c.Entries() :: EntryAt(e) in Occurrences(c)
  {
    hide AgCard.Entries, EntryAt;
    forall e | e in c.Entries() ensures EntryAt(e) in Occurrences(c) {
      var i :| 0 <= i < |c.Entries()| && c.Entries()[i] == e;
      assert Occurrences(c)[i] == EntryAt(e);
    }
  }

  lemma OccurrenceIs(c: AgCard, o: Occurrence)
    requires o in Occurrences(c)
    ensures o == CardAt(c) || exists e <- c.Entries() :: o == EntryAt(e)
  {
    hide AgCard.Entries, EntryAt, CardAt;
    var i :| 0 <= i < |Occurrences(c)| && Occurrences(c)[i] == o;
    if i < |c.Entries()| {
      assert c.Entries()[i] in c.Entries();
    }
  }

  lemma DeadInSays(c: AgCard, card: Card)
    ensures DeadIn(c, card) <==> card.number != "" && CarriesDeleted(c, card)
  {
    hide ReadsDeleted, StateText, Occurrences;
    CardsOccur(c);
    EntriesOccur(c);
    ReadsDeletedIs(c.state, c.status);
    forall e | e in c.Entries() ensures ReadsDeleted(e.state, e.status) <==> EntryDead(e) {
      ReadsDeletedIs(e.state, e.status);
    }
    if o :| o in Occurrences(c) && Numbered(o) && (CardDead(c) || o.dead) && o.card == card {
      OccurrenceIs(c, o);
    }
    if card.number != "" && CarriesDeleted(c, card) && !(c.CardOf() == card && CardDead(c)) {
      var e :| (e in c.details || e in c.deviceCredentials || e in c.devices || e in c.credentials)
               && e.site == card.facility && e.number == card.number && (ReadsDeleted(c.state, c.status) || ReadsDeleted(e.state, e.status));
      assert e in c.Entries() && EntryAt(e) in Occurrences(c);
    }
  }

  /** Together they cover every numbered occurrence. */
  lemma OfferedOrReleased(cards: seq<AgCard>, card: Card)
    ensures Appears(cards, card) <==> InIdentities(Offered(cards), card) || InIdentities(Released(cards), card)
  {
    OfferedExactly(cards);
    ReleasedExactly(cards);
  }

  /** When they overlap, and only then: an identity that is live somewhere and also dead
      somewhere, or live under a dead card. */
  lemma OfferedAndReleased(cards: seq<AgCard>)
    ensures (forall card :: !(InIdentities(Offered(cards), card) && InIdentities(Released(cards), card))) <==>
              forall c <- cards, d <- cards, card | LiveIn(c, card) :: !DeadIn(d, card)
  {
    OfferedExactly(cards);
    ReleasedExactly(cards);
    hide InIdentities, NoneTwice, LiveIn, DeadIn, Offered, Released;
    forall c, d, card | c in cards && d in cards && LiveIn(c, card) && DeadIn(d, card)
      ensures InIdentities(Offered(cards), card) && InIdentities(Released(cards), card)
    {
    }
  }

  /** Each identity in one state, and no dead card with a live entry: nothing is both
      offered and retired. */
  lemma OneStateEach(cards: seq<AgCard>, card: Card)
    requires forall c, d, o, p | c in cards && d in cards && o in Occurrences(c) && p in Occurrences(d) && o.card == p.card :: o.dead == p.dead
    requires forall c <- cards, o <- Occurrences(c) | CardDead(c) :: o.dead
    ensures !(InIdentities(Offered(cards), card) && InIdentities(Released(cards), card))
  {
    OfferedExactly(cards);
    ReleasedExactly(cards);
  }

  /** A pair as provisioning hands it back, and as two cards of a later listing. */
  predicate HalvesOf(pass: AgCard, halves: seq<AgCard>) {
    && pass.number == "" && pass.deviceCredentials == [] && pass.devices == [] && pass.credentials == []
    && |halves| == |pass.details|
    && forall i | 0 <= i < |halves| ::
         && halves[i].Entries() == []
         && halves[i].CardOf() == pass.details[i].CardOf()
         && CardDead(halves[i]) == EntryDead(pass.details[i])
  }

  /** Both shapes of a pair offer the same identities. */
  lemma PairOffersTheSame(pass: AgCard, halves: seq<AgCard>, card: Card)
    requires HalvesOf(pass, halves)
    ensures InIdentities(Offered([pass]), card) <==> InIdentities(Offered(halves), card)
  {
    hide InIdentities, NoneTwice, LiveIn, Occurrences, LiveEntry, Offered, CardDead, EntryDead;
    OfferedExactly([pass]);
    OfferedExactly(halves);
    LiveInPass(pass, card);
    assert LiveSomewhere([pass], card) <==> LiveIn(pass, card) by { assert pass in [pass]; }
    if LiveIn(pass, card) {
      var i :| 0 <= i < |pass.details| && LiveEntry(pass.details[i], card);
      LiveInHalf(pass, halves, i, card);
      assert halves[i] in halves;
    }
    if LiveSomewhere(halves, card) {
      var h :| h in halves && LiveIn(h, card);
      var i :| 0 <= i < |halves| && halves[i] == h;
      LiveInHalf(pass, halves, i, card);
    }
  }

  predicate LiveEntry(e: AgEntry, card: Card) {
    !EntryDead(e) && e.number != "" && e.CardOf() == card
  }

  lemma LiveInPass(pass: AgCard, card: Card)
    requires pass.number == "" && pass.deviceCredentials == [] && pass.devices == [] && pass.credentials == []
    ensures LiveIn(pass, card) <==> exists i | 0 <= i < |pass.details| :: LiveEntry(pass.details[i], card)
  {
    hide EntryDead;
    var occ := Occurrences(pass);
    assert pass.Entries() == pass.details;
    forall i | 0 <= i < |pass.details| ensures occ[i] == EntryAt(pass.details[i]) && occ[i] in occ { }
  }

  lemma LiveInHalf(pass: AgCard, halves: seq<AgCard>, i: nat, card: Card)
    requires HalvesOf(pass, halves) && i < |halves|
    ensures LiveIn(halves[i], card) <==> LiveEntry(pass.details[i], card)
  {
    hide EntryDead, CardDead;
    assert Occurrences(halves[i]) == [CardAt(halves[i])];
    assert CardAt(halves[i]) in Occurrences(halves[i]);
  }

  // ---- as the loops compute them ----

  lemma OfferStep(out: seq<Identity>, occ: seq<Occurrence>, i: nat)
    requires i < |occ|
    ensures Offer(out, occ[..i + 1]) ==
            (if !Numbered(occ[i]) || occ[i].dead then Offer(out, occ[..i])
             else Add(Offer(out, occ[..i]), Identity(occ[i].card, occ[i].deviceType)))
  {
    assert occ[..i + 1][..i] == occ[..i];
  }

  lemma ReleaseStep(out: seq<Identity>, occ: seq<Occurrence>, i: nat, parentDead: bool)
    requires i < |occ|
    ensures Release(out, occ[..i + 1], parentDead) ==
            (if !Numbered(occ[i]) || !(parentDead || occ[i].dead) then Release(out, occ[..i], parentDead)
             else Add(Release(out, occ[..i], parentDead), Identity(occ[i].card, "")))
  {
    assert occ[..i + 1][..i] == occ[..i];
  }

  lemma SeenStep(out: seq<Identity>, more: Identity, seen: set<Card>)
    requires forall card :: card in seen <==> InIdentities(out, card)
    ensures forall card :: card in seen + {more.card} <==> InIdentities(out + [more], card)
  {
    assert (out + [more])[|out|] == more;
    forall card | InIdentities(out, card) ensures InIdentities(out + [more], card) {
      var i :| i in out && i.card == card;
      assert i in out + [more];
    }
  }

  method IdentitiesFromCard(c: AgCard) returns (out: seq<Identity>)
    ensures out == OfferedOf(c)
  {
    hide Offer, Occurrences, InIdentities;
    out := [];
    var occ, seen: set<Card> := Occurrences(c), {};
    NoOccurrences(out, false);
    for i := 0 to |occ|
      invariant out == Offer([], occ[..i])
      invariant forall card :: card in seen <==> InIdentities(out, card)
    {
      OfferStep([], occ, i);
      var o := occ[i];
      if Numbered(o) && o.card !in seen && !o.dead {
        SeenStep(out, Identity(o.card, o.deviceType), seen);
        out, seen := out + [Identity(o.card, o.deviceType)], seen + {o.card};
      }
    }
    assert occ[..|occ|] == occ;
  }

  lemma NoOccurrences(out: seq<Identity>, parentDead: bool)
    ensures Offer(out, []) == out && Release(out, [], parentDead) == out
    ensures forall card :: !InIdentities([], card)
  {
  }

  method Unite(before: seq<Identity>, more: seq<Identity>) returns (out: seq<Identity>)
    ensures out == Union(before, more)
  {
    out := before;
    for i := 0 to |more|
      invariant out == Union(before, more[..i])
    {
      assert more[..i + 1][..i] == more[..i];
      if !InIdentities(out, more[i].card) {
        out := out + [more[i]];
      }
    }
    assert more[..|more|] == more;
  }

  method IdentitiesFromCards(cards: seq<AgCard>) returns (out: seq<Identity>)
    ensures out == Offered(cards)
  {
    hide Union, OfferedOf;
    out := [];
    for k := 0 to |cards|
      invariant out == Offered(cards[..k])
    {
      assert cards[..k + 1][..k] == cards[..k];
      var more := IdentitiesFromCard(cards[k]);
      out := Unite(out, more);
    }
    assert cards[..|cards|] == cards;
  }

  method ReleaseCard(before: seq<Identity>, c: AgCard) returns (out: seq<Identity>)
    ensures out == Release(before, Occurrences(c), CardDead(c))
  {
    hide Release, Occurrences, InIdentities, CardDead;
    out := before;
    var occ, parentDead := Occurrences(c), CardDead(c);
    NoOccurrences(out, parentDead);
    for i := 0 to |occ|
      invariant out == Release(before, occ[..i], parentDead)
    {
      ReleaseStep(before, occ, i, parentDead);
      var o := occ[i];
      if Numbered(o) && !InIdentities(out, o.card) && (parentDead || o.dead) {
        out := out + [Identity(o.card, "")];
      }
    }
    assert occ[..|occ|] == occ;
  }

  method DeletedIdentitiesFromCards(cards: seq<AgCard>) returns (out: seq<Identity>)
    ensures out == Released(cards)
  {
    hide Release, Occurrences, CardDead;
    out := [];
    for k := 0 to |cards|
      invariant out == Released(cards[..k])
    {
      assert cards[..k + 1][..k] == cards[..k];
      out := ReleaseCard(out, cards[k]);
    }
    assert cards[..|cards|] == cards;
  }
}

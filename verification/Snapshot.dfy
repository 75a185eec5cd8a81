/** One cycle's view of AccessGrid: indexes over its listing, and the cards re-read from it. */
module Snapshot {
  import opened Base
  import opened Order
  import opened AgCards

  // ---- a linear scan ----

  function WithRef(cards: seq<AgCard>, ref: string): seq<AgCard> {
    Filter((c: AgCard) => c.syncRef == ref, cards)
  }

  function WithEmployee(cards: seq<AgCard>, person: string): seq<AgCard> {
    Filter((c: AgCard) => c.employeeId == person, cards)
  }

  function WithToken(cards: seq<AgCard>, person: string, token: string): seq<AgCard> {
    Filter((c: AgCard) => c.employeeId == person && c.token == token, cards)
  }

  function LastWithId(cards: seq<AgCard>, id: string): Option<AgCard> {
    if cards == [] then None
    else if cards[|cards| - 1].id == id then Some(cards[|cards| - 1])
    else LastWithId(cards[..|cards| - 1], id)
  }

  function LastTagged(cards: seq<AgCard>, site: string, number: string): Option<AgCard> {
    if cards == [] then None
    else if cards[|cards| - 1].siteTag == Some(site) && cards[|cards| - 1].cardTag == Some(number) then Some(cards[|cards| - 1])
    else LastTagged(cards[..|cards| - 1], site, number)
  }

  // ---- the indexes ----

  datatype Index = Index(
    byId: map<string, AgCard>,
    byRef: map<string, seq<AgCard>>,
    byEmployee: map<string, seq<AgCard>>,
    byToken: map<(string, string), seq<AgCard>>,
    bySiteCard: map<(string, string), AgCard>)

  function AtKey<K(==)>(m: map<K, seq<AgCard>>, k: K): seq<AgCard> {
    if k in m then m[k] else []
  }

  function CardAtKey<K(==)>(m: map<K, AgCard>, k: K): Option<AgCard> {
    if k in m then Some(m[k]) else None
  }

  /** Every index answers as a scan of the listing would. */
  ghost predicate Refines(index: Index, cards: seq<AgCard>) {
    && (forall id :: CardAtKey(index.byId, id) == LastWithId(cards, id))
    && (forall ref | ref != "" :: AtKey(index.byRef, ref) == WithRef(cards, ref))
    && (forall person | person != "" :: AtKey(index.byEmployee, person) == WithEmployee(cards, person))
    && (forall person, token | person != "" && token != "" ::
          AtKey(index.byToken, (person, token)) == WithToken(cards, person, token))
    && (forall site, number :: CardAtKey(index.bySiteCard, (site, number)) == LastTagged(cards, site, number))
  }

  function AppendAt<K(==)>(m: map<K, seq<AgCard>>, k: K, c: AgCard): map<K, seq<AgCard>> {
    m[k := AtKey(m, k) + [c]]
  }

  function Indexed(index: Index, c: AgCard): Index {
    Index(
      index.byId[c.id := c],
      if c.syncRef != "" then AppendAt(index.byRef, c.syncRef, c) else index.byRef,
      if c.employeeId != "" then AppendAt(index.byEmployee, c.employeeId, c) else index.byEmployee,
      if c.employeeId != "" && c.token != "" then AppendAt(index.byToken, (c.employeeId, c.token), c) else index.byToken,
      if c.siteTag.Some? && c.cardTag.Some? then index.bySiteCard[(c.siteTag.value, c.cardTag.value) := c] else index.bySiteCard)
  }

  lemma ScansStep(cards: seq<AgCard>, c: AgCard, ref: string, person: string, token: string)
    ensures WithRef(cards + [c], ref) == WithRef(cards, ref) + if c.syncRef == ref then [c] else []
    ensures WithEmployee(cards + [c], person) == WithEmployee(cards, person) + if c.employeeId == person then [c] else []
    ensures WithToken(cards + [c], person, token) ==
            WithToken(cards, person, token) + if c.employeeId == person && c.token == token then [c] else []
  {
    assert (cards + [c])[..|cards|] == cards;
  }

  lemma LastStep(cards: seq<AgCard>, c: AgCard, id: string, site: string, number: string)
    ensures LastWithId(cards + [c], id) == if c.id == id then Some(c) else LastWithId(cards, id)
    ensures LastTagged(cards + [c], site, number) ==
            if c.siteTag == Some(site) && c.cardTag == Some(number) then Some(c) else LastTagged(cards, site, number)
  {
    assert (cards + [c])[..|cards|] == cards;
  }

  /** Every index still answers as a scan would, at these keys. */
  lemma ListsRefine(index: Index, cards: seq<AgCard>, c: AgCard, ref: string, person: string, token: string)
    requires ref != "" ==> AtKey(index.byRef, ref) == WithRef(cards, ref)
    requires person != "" ==> AtKey(index.byEmployee, person) == WithEmployee(cards, person)
    requires person != "" && token != "" ==> AtKey(index.byToken, (person, token)) == WithToken(cards, person, token)
    ensures ref != "" ==> AtKey(Indexed(index, c).byRef, ref) == WithRef(cards + [c], ref)
    ensures person != "" ==> AtKey(Indexed(index, c).byEmployee, person) == WithEmployee(cards + [c], person)
    ensures person != "" && token != "" ==>
              AtKey(Indexed(index, c).byToken, (person, token)) == WithToken(cards + [c], person, token)
  {
    hide WithRef, WithEmployee, WithToken, LastWithId, LastTagged;
    ScansStep(cards, c, ref, person, token);
  }

  lemma LastsRefine(index: Index, cards: seq<AgCard>, c: AgCard, id: string, site: string, number: string)
    requires CardAtKey(index.byId, id) == LastWithId(cards, id)
    requires CardAtKey(index.bySiteCard, (site, number)) == LastTagged(cards, site, number)
    ensures CardAtKey(Indexed(index, c).byId, id) == LastWithId(cards + [c], id)
    ensures CardAtKey(Indexed(index, c).bySiteCard, (site, number)) == LastTagged(cards + [c], site, number)
  {
    hide WithRef, WithEmployee, WithToken, LastWithId, LastTagged;
    LastStep(cards, c, id, site, number);
  }

  lemma IndexedRefines(index: Index, cards: seq<AgCard>, c: AgCard)
    requires Refines(index, cards)
    ensures Refines(Indexed(index, c), cards + [c])
  {
    hide WithRef, WithEmployee, WithToken, LastWithId, LastTagged, Indexed, AtKey, CardAtKey;
    var after, more := Indexed(index, c), cards + [c];
    forall id ensures CardAtKey(after.byId, id) == LastWithId(more, id) {
      LastsRefine(index, cards, c, id, "", "");
    }
    forall ref | ref != "" ensures AtKey(after.byRef, ref) == WithRef(more, ref) {
      ListsRefine(index, cards, c, ref, "", "");
    }
    forall person | person != "" ensures AtKey(after.byEmployee, person) == WithEmployee(more, person) {
      ListsRefine(index, cards, c, "", person, "");
    }
    forall person, token | person != "" && token != ""
      ensures AtKey(after.byToken, (person, token)) == WithToken(more, person, token)
    {
      ListsRefine(index, cards, c, "", person, token);
    }
    forall site, number ensures CardAtKey(after.bySiteCard, (site, number)) == LastTagged(more, site, number) {
      LastsRefine(index, cards, c, "", site, number);
    }
  }

  method BuildIndex(cards: seq<AgCard>) returns (index: Index)
    ensures Refines(index, cards)
  {
    index := Index(map[], map[], map[], map[], map[]);
    for i := 0 to |cards|
      invariant Refines(index, cards[..i])
    {
      IndexedRefines(index, cards[..i], cards[i]);
      assert cards[..i + 1] == cards[..i] + [cards[i]];
      index := Indexed(index, cards[i]);
    }
    assert cards[..|cards|] == cards;
  }

  // ---- resolving an issue ----

  /** Every card of one tracked issue, best index first; "" stands for a key not given. */
  function Resolve(index: Index, id: string, person: string, token: string, ref: string): seq<AgCard> {
    if ref != "" && AtKey(index.byRef, ref) != [] then AtKey(index.byRef, ref)
    else if id != "" && id in index.byId then [index.byId[id]]
    else if ref != "" then []
    else if person != "" && token != "" then AtKey(index.byToken, (person, token))
    else []
  }

  /** With a listed reference: all and only the cards carrying it. */
  lemma ListedReferenceDecides(index: Index, cards: seq<AgCard>, id: string, person: string, token: string, ref: string)
    requires Refines(index, cards) && ref != "" && exists c <- cards :: c.syncRef == ref
    ensures Resolve(index, id, person, token, ref) == WithRef(cards, ref)
    ensures forall c :: c in Resolve(index, id, person, token, ref) <==> c in cards && c.syncRef == ref
  {
    var c :| c in cards && c.syncRef == ref;
    assert c in WithRef(cards, ref);
  }

  /** With an unlisted reference: the card of that id or nothing, whatever else the person was issued. */
  lemma UnlistedReferenceNeverFallsThrough(index: Index, cards: seq<AgCard>, id: string, person: string, token: string, ref: string)
    requires Refines(index, cards) && ref != "" && forall c <- cards :: c.syncRef != ref
    ensures Resolve(index, id, person, token, ref) ==
            if id != "" && LastWithId(cards, id).Some? then [LastWithId(cards, id).value] else []
    ensures forall c <- Resolve(index, id, person, token, ref) :: c.id == id
  {
    NothingIn(WithRef(cards, ref));
    assert CardAtKey(index.byId, id) == LastWithId(cards, id);
    LastHasId(cards, id);
  }

  /** With no reference: the last card listed under the id, or where there is none all and only the person's
      cards of that credential, in the order listed. */
  lemma NoReferenceGoesById(index: Index, cards: seq<AgCard>, id: string, person: string, token: string)
    requires Refines(index, cards)
    ensures id != "" && (exists c <- cards :: c.id == id) ==>
              exists i | 0 <= i < |cards| :: cards[i].id == id && (forall j | i < j < |cards| :: cards[j].id != id)
                                             && Resolve(index, id, person, token, "") == [cards[i]]
    ensures (id == "" || forall c <- cards :: c.id != id) ==>
              Resolve(index, id, person, token, "") ==
              if person == "" || token == "" then [] else Filter((c: AgCard) => c.employeeId == person && c.token == token, cards)
  {
    assert CardAtKey(index.byId, id) == LastWithId(cards, id);
    LastIsLast(cards, id);
  }

  lemma {:induction false} LastIsLast(cards: seq<AgCard>, id: string)
    ensures LastWithId(cards, id).None? <==> forall c <- cards :: c.id != id
    ensures LastWithId(cards, id).Some? ==>
              exists i | 0 <= i < |cards| :: cards[i].id == id && (forall j | i < j < |cards| :: cards[j].id != id) && LastWithId(cards, id) == Some(cards[i])
  {
    if cards != [] && cards[|cards| - 1].id != id {
      var front := cards[..|cards| - 1];
      assert cards == front + [cards[|cards| - 1]];
      LastIsLast(front, id);
      if LastWithId(front, id).Some? {
        var i :| 0 <= i < |front| && front[i].id == id && (forall j | i < j < |front| :: front[j].id != id) && LastWithId(front, id) == Some(front[i]);
        assert cards[i] == front[i] && forall j | i < j < |cards| :: cards[j].id != id;
      }
    }
  }

  lemma {:induction false} LastHasId(cards: seq<AgCard>, id: string)
    ensures LastWithId(cards, id).Some? ==> LastWithId(cards, id).value.id == id && LastWithId(cards, id).value in cards
  {
    if cards != [] {
      LastHasId(cards[..|cards| - 1], id);
    }
  }

  // ---- cards re-read once a cycle ----

  /** A listed card asked for by its id, and what came back; None when the read failed. */
  datatype Read = Read(listed: AgCard, answer: Option<AgCard>)

  class AgReads {
    var asked: seq<Read>

    constructor ()
      ensures asked == []
    {
      asked := [];
    }

    method Get(listed: AgCard) returns (card: Option<AgCard>)
      modifies this
      ensures asked == old(asked) + [Read(listed, card)]
    {
      card := *;
      asked := asked + [Read(listed, card)];
    }
  }

  predicate NoRepeats(s: seq<Read>) {
    forall i, j | 0 <= i < j < |s| :: s[i].listed.id != s[j].listed.id
  }

  /** What is remembered for a card, or the card as listed. */
  function Detailed(detail: map<string, AgCard>, c: AgCard): AgCard {
    if c.id != "" && c.id in detail then detail[c.id] else c
  }

  function DetailedAll(detail: map<string, AgCard>, cards: seq<AgCard>): (r: seq<AgCard>)
    ensures |r| == |cards| && forall i | 0 <= i < |r| :: r[i] == Detailed(detail, cards[i])
  {
    seq(|cards|, i requires 0 <= i < |cards| => Detailed(detail, cards[i]))
  }

  predicate AllRead(detail: map<string, AgCard>, cards: seq<AgCard>) {
    forall c <- cards :: c.id != "" ==> c.id in detail
  }

  /** Nothing remembered is forgotten or changed within a cycle. */
  predicate Grown(before: map<string, AgCard>, after: map<string, AgCard>) {
    forall id <- before :: id in after && after[id] == before[id]
  }

  lemma GrownFurther(a: map<string, AgCard>, b: map<string, AgCard>, c: map<string, AgCard>)
    requires Grown(a, b) && Grown(b, c)
    ensures Grown(a, c)
  {
  }

  /** Cards once read stay as they were read. */
  lemma ReadCardsStay(before: map<string, AgCard>, after: map<string, AgCard>, cards: seq<AgCard>)
    requires AllRead(before, cards) && Grown(before, after)
    ensures DetailedAll(after, cards) == DetailedAll(before, cards) && AllRead(after, cards)
  {
    forall i | 0 <= i < |cards| ensures Detailed(after, cards[i]) == Detailed(before, cards[i]) {
      assert cards[i] in cards;
    }
  }

  lemma OneMoreDetailed(before: map<string, AgCard>, after: map<string, AgCard>, cards: seq<AgCard>, i: nat)
    requires i < |cards| && AllRead(before, cards[..i]) && Grown(before, after)
    requires cards[i].id != "" ==> cards[i].id in after
    ensures DetailedAll(after, cards[..i + 1]) == DetailedAll(before, cards[..i]) + [Detailed(after, cards[i])]
    ensures AllRead(after, cards[..i + 1])
  {
    ReadCardsStay(before, after, cards[..i]);
    assert cards[..i + 1] == cards[..i] + [cards[i]];
  }

  /** Each card was read at most once this cycle; what is remembered is what was read, or
      the card as listed when the read failed. */
  predicate Remembered(detail: map<string, AgCard>, asked: seq<Read>) {
    && NoRepeats(asked)
    && (forall id <- detail :: exists r <- asked :: r.listed.id == id)
    && (forall r <- asked :: r.listed.id in detail && detail[r.listed.id] == r.answer.GetOr(r.listed))
  }

  /** Some issue resolves to the card. */
  ghost predicate FromIndex(index: Index, c: AgCard) {
    exists id, person, token, ref :: c in Resolve(index, id, person, token, ref)
  }

  /** So it is a card of the listing: a card never listed is never read, nor remembered. */
  lemma FromIndexIsListed(index: Index, cards: seq<AgCard>, c: AgCard)
    requires Refines(index, cards) && FromIndex(index, c)
    ensures c in cards
  {
    hide WithRef, WithEmployee, WithToken, LastWithId, LastTagged;
    var id, person, token, ref :| c in Resolve(index, id, person, token, ref);
    assert ref != "" ==> AtKey(index.byRef, ref) == WithRef(cards, ref);
    assert person != "" && token != "" ==> AtKey(index.byToken, (person, token)) == WithToken(cards, person, token);
    assert CardAtKey(index.byId, id) == LastWithId(cards, id);
    ScansAreListed(cards, id, person, token, ref);
  }

  lemma ScansAreListed(cards: seq<AgCard>, id: string, person: string, token: string, ref: string)
    ensures forall c <- WithRef(cards, ref) :: c in cards
    ensures forall c <- WithToken(cards, person, token) :: c in cards
    ensures LastWithId(cards, id).Some? ==> LastWithId(cards, id).value in cards
  {
    LastHasId(cards, id);
  }

  lemma OneMoreRead(detail: map<string, AgCard>, asked: seq<Read>, c: AgCard, answer: Option<AgCard>)
    requires Remembered(detail, asked) && c.id !in detail
    ensures Remembered(detail[c.id := answer.GetOr(c)], asked + [Read(c, answer)])
  {
    var after, now := detail[c.id := answer.GetOr(c)], asked + [Read(c, answer)];
    forall id | id in after ensures exists r <- now :: r.listed.id == id {
      if id == c.id {
        assert now[|asked|].listed.id == id;
      } else {
        var r :| r in asked && r.listed.id == id;
        assert r in now;
      }
    }
    forall i | 0 <= i < |asked| ensures asked[i].listed.id != c.id { assert asked[i] in asked; }
  }

  /** So each card of an issue comes as it was read, or as it is listed where the read failed or it has no id. */
  predicate AsRead(asked: seq<Read>, listed: AgCard, out: AgCard) {
    if listed.id == "" then out == listed
    else exists r <- asked :: r.listed.id == listed.id && out == (if r.answer.None? then r.listed else r.answer.value)
  }

  lemma DetailsAreRead(detail: map<string, AgCard>, asked: seq<Read>, cards: seq<AgCard>)
    requires Remembered(detail, asked) && AllRead(detail, cards)
    ensures forall i | 0 <= i < |cards| :: AsRead(asked, cards[i], DetailedAll(detail, cards)[i])
  {
    forall i | 0 <= i < |cards| ensures AsRead(asked, cards[i], DetailedAll(detail, cards)[i]) {
      assert cards[i] in cards;
      if cards[i].id != "" {
        var r :| r in asked && r.listed.id == cards[i].id;
      }
    }
  }

  class Details {
    const index: Index
    const ag: AgReads
    var detail: map<string, AgCard>

    constructor (index: Index, ag: AgReads)
      requires ag.asked == []
      ensures this.index == index && this.ag == ag && detail == map[] && Valid()
    {
      this.index, this.ag, detail := index, ag, map[];
    }

    /** What is remembered is what was read of the listing's cards. */
    ghost predicate Valid()
      reads this, ag
    {
      Remembered(detail, ag.asked) && forall r <- ag.asked :: FromIndex(index, r.listed)
    }

    /** One card's detail: read unless it was read before; the listed card if the read fails. */
    method Detail(c: AgCard) returns (out: AgCard)
      requires Valid() && FromIndex(index, c)
      modifies this, ag
      ensures Valid()
      ensures out == Detailed(detail, c) && (c.id != "" ==> c.id in detail) && Grown(old(detail), detail)
      ensures old(ag.asked) <= ag.asked
    {
      hide FromIndex;
      if c.id != "" && c.id !in detail {
        ghost var before, asked := detail, ag.asked;
        var read := ag.Get(c);
        detail := detail[c.id := read.GetOr(c)];
        OneMoreRead(before, asked, c, read);
      }
      out := Detailed(detail, c);
    }

    /** The cards of an issue, in the order they resolve, each with its own detail. */
    method DetailedCards(id: string, person: string, token: string, ref: string) returns (out: seq<AgCard>)
      requires Valid()
      modifies this, ag
      ensures Valid()
      ensures out == DetailedAll(detail, Resolve(index, id, person, token, ref))
      ensures AllRead(detail, Resolve(index, id, person, token, ref)) && Grown(old(detail), detail)
      ensures old(ag.asked) <= ag.asked
      ensures var cards := Resolve(index, id, person, token, ref);
              |out| == |cards| && forall i | 0 <= i < |cards| :: AsRead(ag.asked, cards[i], out[i])
    {
      hide AsRead, Remembered, Resolve, FromIndex, DetailedAll, Detailed, AllRead, Grown;
      var cards := Resolve(index, id, person, token, ref);
      out := [];
      NoneDetailed(detail);
      for i := 0 to |cards|
        invariant Valid() && out == DetailedAll(detail, cards[..i])
        invariant AllRead(detail, cards[..i]) && Grown(old(detail), detail) && old(ag.asked) <= ag.asked
      {
        ghost var before := detail;
        ResolvedIsFromIndex(index, id, person, token, ref, i);
        var one := Detail(cards[i]);
        GrownFurther(old(detail), before, detail);
        OneMoreDetailed(before, detail, cards, i);
        out := out + [one];
      }
      assert cards[..|cards|] == cards;
      DetailsAreRead(detail, ag.asked, cards);
    }
  }

  lemma NoneDetailed(detail: map<string, AgCard>)
    ensures DetailedAll(detail, []) == [] && AllRead(detail, []) && Grown(detail, detail)
  {
  }

  lemma ResolvedIsFromIndex(index: Index, id: string, person: string, token: string, ref: string, i: nat)
    requires i < |Resolve(index, id, person, token, ref)|
    ensures FromIndex(index, Resolve(index, id, person, token, ref)[i])
  {
    hide Resolve;
    assert Resolve(index, id, person, token, ref)[i] in Resolve(index, id, person, token, ref);
  }
}

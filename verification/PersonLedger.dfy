/** One person's part of the ledger. */
module PersonLedger {
  import opened Base
  import opened Export
  import opened Ledger
  import opened Reading

  function PassIds(t: Table, person: string): (ids: set<string>)
    ensures forall id :: id in ids <==> Key(person, id) in t
  {
    set k | k in t && k.person == person :: k.credential
  }

  function PersonBook(t: Table, person: string): (b: Book)
    ensures b.Keys == PassIds(t, person)
  {
    map id | id in PassIds(t, person) :: t[Key(person, id)]
  }

  function OthersOf(t: Table, person: string): Table {
    map k | k in t && k.person != person :: t[k]
  }

  lemma OneRecorded(t: Table, person: string, id: string, es: seq<Entry>)
    ensures PersonBook(t[Key(person, id) := es], person) == PersonBook(t, person)[id := es]
    ensures OthersOf(t[Key(person, id) := es], person) == OthersOf(t, person)
  {
    var u := t[Key(person, id) := es];
    assert PassIds(u, person) == PassIds(t, person) + {id};
  }

  lemma OneForgotten(t: Table, person: string, id: string)
    ensures PersonBook(t - {Key(person, id)}, person) == PersonBook(t, person) - {id}
    ensures OthersOf(t - {Key(person, id)}, person) == OthersOf(t, person)
  {
    assert PassIds(t - {Key(person, id)}, person) == PassIds(t, person) - {id};
  }

  /** Slots recorded for any pass of a person. */
  function TakenSlots(t: Table, person: string): set<nat> {
    set k, e | k in t && k.person == person && e in t[k] :: e.slot
  }

  function CardsElsewhere(t: Table, person: string): set<Card> {
    set k, e | k in t && k.person != person && e in t[k] :: e.card
  }

  function RecordedPeople(t: Table): set<string> {
    set k | k in t :: k.person
  }

  function CardsOn(holders: map<string, Cardholder>): set<Card> {
    set p, s | p in holders && s in holders[p].slots && !s.Empty() :: s.card
  }
}

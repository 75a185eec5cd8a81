/** One cycle's cardholder export: the only thing the Millennium adapter reads. */
module Export {
  import opened Base

  /** A card as Millennium identifies it. */
  datatype Card = Card(facility: string, number: string)

  /** One of a card's access levels, kept as printed. */
  datatype AccessLevel = AccessLevel(position: nat, name: string, activation: string, expiration: string)

  /** One of a cardholder's card slots; dates are instants. */
  datatype Slot = Slot(
    index: nat, card: Card, format: string, active: bool,
    activation: Option<int>, expiration: Option<int>, levels: seq<AccessLevel>)
  {
    predicate Empty() {
      card.number == ""
    }
  }

  datatype Cardholder = Cardholder(firstName: string, lastName: string, slots: seq<Slot>)

  /** The cards on a cardholder, by identity; of two slots naming the same card the later one counts. */
  function Present(slots: seq<Slot>): (m: map<Card, Slot>)
    ensures forall c <- m :: m[c] in slots && m[c].card == c && !m[c].Empty()
    ensures forall s <- slots | !s.Empty() :: s.card in m
  {
    if slots == [] then map[]
    else
      var last := slots[|slots| - 1];
      var m := Present(slots[..|slots| - 1]);
      if last.Empty() then m else m[last.card := last]
  }

  /** What a cardholder can be: each slot listed once, each card in one slot. */
  predicate DistinctSlots(slots: seq<Slot>) {
    && (forall i, j | 0 <= i < j < |slots| :: slots[i].index != slots[j].index)
    && (forall i, j | 0 <= i < j < |slots| :: !slots[i].Empty() && !slots[j].Empty() ==> slots[i].card != slots[j].card)
  }

  lemma PresentIs(slots: seq<Slot>, s: Slot)
    requires DistinctSlots(slots) && s in slots && !s.Empty()
    ensures s.card in Present(slots) && Present(slots)[s.card] == s
  {
  }
}

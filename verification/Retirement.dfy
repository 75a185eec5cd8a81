/** What phase 3 releases in the PACS: the cards of an expired pass it deleted, and the
    identities AccessGrid says it has deleted itself. */
module Retirement {
  import opened Base
  import opened Pacs
  import opened Ledger
  import opened AgCards
  import opened Snapshot
  import opened Tracking
  import opened Passes
  import opened Decisions

  // ---- the cards of an expired pass ----

  /** What a deletion was answered, and then, when cards were retired, what the PACS answered. */
  datatype Told = Told(answer: Answer, count: Option<nat>)

  function ToldAt(told: map<Key, Told>, k: Key): Option<Told> {
    if k in told then Some(told[k]) else None
  }

  /** A pass deleted, or found to be gone already, releases its row. */
  function AfterTold(rows: Rows, k: Key, told: Option<Told>): Rows {
    if told.None? then rows
    else match told.value.answer
      case Done => Deleted(rows, k)
      case NotFound => rows - {k}
      case _ => rows
  }

  /** The pass has run out, and its cards are looked up before it is deleted. */
  predicate CardsWanted(v: View, cfg: Config, k: Key) {
    cfg.supportsRetirement && CredOf(v, k).Some? && Expired(CredOf(v, k).value, v.now)
  }

  /** After an answered deletion only, and only of the pass's own live identities. */
  function ExpiredCalls(v: View, cfg: Config, index: Index, detail: map<string, AgCard>, k: Key, row: Row, told: Option<Told>): seq<PacsCall> {
    var cards := CardsOf(index, detail, k, row);
    if told.Some? && told.value.answer.Done? && CardsWanted(v, cfg, k) && cards != []
    then [PacsCall.Retire(k, Offered(cards), told.value.count)] else []
  }

  function ExpiredAll(v: View, cfg: Config, index: Index, detail: map<string, AgCard>, rows: Rows, listing: seq<Key>,
                      told: map<Key, Told>): seq<PacsCall>
    requires forall k <- listing :: k in rows
  {
    if listing == [] then []
    else
      var k := listing[|listing| - 1];
      ExpiredAll(v, cfg, index, detail, rows, listing[..|listing| - 1], told) + ExpiredCalls(v, cfg, index, detail, k, rows[k], ToldAt(told, k))
  }

  predicate ExpiredKnown(v: View, cfg: Config, index: Index, detail: map<string, AgCard>, rows: Rows, listing: seq<Key>, told: map<Key, Told>)
    requires forall k <- listing :: k in rows
  {
    forall k <- listing :: k in told && CardsWanted(v, cfg, k) ==> KnownIn(index, detail, k, rows[k])
  }

  /** Cards once read, and answers once given, stay. */
  lemma {:induction false} ExpiredStay(v: View, cfg: Config, index: Index, before: map<string, AgCard>, after: map<string, AgCard>,
                                       rows: Rows, listing: seq<Key>, told: map<Key, Told>, more: map<Key, Told>)
    requires (forall k <- listing :: k in rows && ToldAt(more, k) == ToldAt(told, k)) && Grown(before, after)
    requires ExpiredKnown(v, cfg, index, before, rows, listing, told)
    ensures ExpiredAll(v, cfg, index, after, rows, listing, more) == ExpiredAll(v, cfg, index, before, rows, listing, told)
    ensures ExpiredKnown(v, cfg, index, after, rows, listing, more)
  {
    hide CardsOf, KnownIn, Grown, CardsWanted, Offered;
    if listing != [] {
      var k, front := listing[|listing| - 1], listing[..|listing| - 1];
      assert listing == front + [k];
      ExpiredStay(v, cfg, index, before, after, rows, front, told, more);
      assert ToldAt(more, k) == ToldAt(told, k);
      if k in told && CardsWanted(v, cfg, k) {
        CardsStay(index, before, after, k, rows[k]);
      }
    }
  }

  lemma ExpiredStep(v: View, cfg: Config, index: Index, detail: map<string, AgCard>, rows: Rows, listing: seq<Key>, i: nat, told: map<Key, Told>)
    requires i < |listing| && forall k <- listing :: k in rows
    ensures ExpiredAll(v, cfg, index, detail, rows, listing[..i + 1], told) ==
            ExpiredAll(v, cfg, index, detail, rows, listing[..i], told)
            + ExpiredCalls(v, cfg, index, detail, listing[i], rows[listing[i]], ToldAt(told, listing[i]))
  {
    assert listing[..i + 1][..i] == listing[..i];
  }

  /** Whatever is retired for an expired pass: its deletion was answered, its credential has
      run out, and what goes is exactly what its cards still carry alive. */
  lemma {:induction false} ExpiredOnAnswer(v: View, cfg: Config, index: Index, detail: map<string, AgCard>,
                                           rows: Rows, listing: seq<Key>, told: map<Key, Told>, call: PacsCall)
    requires (forall k <- listing :: k in rows) && call in ExpiredAll(v, cfg, index, detail, rows, listing, told)
    ensures call.Retire? && call.key in listing && call.key in told && told[call.key].answer == Done && cfg.supportsRetirement
    ensures CredOf(v, call.key).Some? && Expired(CredOf(v, call.key).value, v.now)
    ensures forall card :: InIdentities(call.identities, card) <==> LiveSomewhere(CardsOf(index, detail, call.key, rows[call.key]), card)
  {
    hide Offered, InIdentities, LiveSomewhere, CardsOf;
    var k, front := listing[|listing| - 1], listing[..|listing| - 1];
    if call in ExpiredAll(v, cfg, index, detail, rows, front, told) {
      ExpiredOnAnswer(v, cfg, index, detail, rows, front, told, call);
    } else {
      OfferedExactly(CardsOf(index, detail, k, rows[k]));
    }
  }

  // ---- what AccessGrid has deleted ----

  function Total(calls: seq<PacsCall>): nat {
    if calls == [] then 0
    else
      var c := calls[|calls| - 1];
      Total(calls[..|calls| - 1]) + if c.Retire? then c.count.GetOr(0) else 0
  }

  /** A row with a pass of ours, for which the PACS holds cards the sync wrote. */
  predicate Releasable(written: set<Key>, k: Key, row: Row) {
    OwnPass(row) && k in written
  }

  /** Row by row: the identities its cards say are deleted, until enough have been retired. */
  function Retirements(index: Index, detail: map<string, AgCard>, rows: Rows, written: set<Key>, listing: seq<Key>,
                       counts: map<Key, Option<nat>>): seq<PacsCall>
    requires forall k <- listing :: k in rows
  {
    if listing == [] then []
    else
      var k := listing[|listing| - 1];
      var before := Retirements(index, detail, rows, written, listing[..|listing| - 1], counts);
      before + if Total(before) >= MAX_RETIREMENTS then []
               else ReleasedCalls(index, detail, written, k, rows[k], if k in counts then counts[k] else None)
  }

  function ReleasedCalls(index: Index, detail: map<string, AgCard>, written: set<Key>, k: Key, row: Row, count: Option<nat>): seq<PacsCall> {
    var gone := Released(CardsOf(index, detail, k, row));
    if Releasable(written, k, row) && gone != [] then [PacsCall.Retire(k, gone, count)] else []
  }

  lemma RetirementsStep(index: Index, detail: map<string, AgCard>, rows: Rows, written: set<Key>, listing: seq<Key>, i: nat,
                        counts: map<Key, Option<nat>>)
    requires i < |listing| && forall k <- listing :: k in rows
    ensures var before, k := Retirements(index, detail, rows, written, listing[..i], counts), listing[i];
            Retirements(index, detail, rows, written, listing[..i + 1], counts) ==
            before + (if Total(before) >= MAX_RETIREMENTS then []
                      else ReleasedCalls(index, detail, written, k, rows[k], if k in counts then counts[k] else None))
  {
    assert listing[..i + 1][..i] == listing[..i];
  }

  predicate ReleasedKnown(index: Index, detail: map<string, AgCard>, rows: Rows, written: set<Key>, listing: seq<Key>)
    requires forall k <- listing :: k in rows
  {
    forall k <- listing :: Releasable(written, k, rows[k]) ==> KnownIn(index, detail, k, rows[k])
  }

  /** Every row something is retired for has had its cards read. */
  predicate CallsKnown(index: Index, detail: map<string, AgCard>, rows: Rows, calls: seq<PacsCall>) {
    forall c <- calls :: c.key in rows && KnownIn(index, detail, c.key, rows[c.key])
  }

  lemma {:induction false} ReleasedCallsKnown(index: Index, detail: map<string, AgCard>, rows: Rows, written: set<Key>, listing: seq<Key>,
                                              counts: map<Key, Option<nat>>)
    requires (forall k <- listing :: k in rows) && ReleasedKnown(index, detail, rows, written, listing)
    ensures CallsKnown(index, detail, rows, Retirements(index, detail, rows, written, listing, counts))
  {
    hide CardsOf, KnownIn, Releasable, Released, Total;
    if listing != [] {
      var k, front := listing[|listing| - 1], listing[..|listing| - 1];
      assert listing == front + [k];
      ReleasedCallsKnown(index, detail, rows, written, front, counts);
    }
  }

  lemma {:induction false} RetirementsStay(index: Index, before: map<string, AgCard>, after: map<string, AgCard>, rows: Rows, written: set<Key>,
                                           listing: seq<Key>, counts: map<Key, Option<nat>>, more: map<Key, Option<nat>>)
    requires (forall k <- listing :: k in rows && (k in more <==> k in counts) && (k in counts ==> more[k] == counts[k])) && Grown(before, after)
    requires ReleasedKnown(index, before, rows, written, listing)
    ensures Retirements(index, after, rows, written, listing, more) == Retirements(index, before, rows, written, listing, counts)
    ensures ReleasedKnown(index, after, rows, written, listing)
  {
    hide CardsOf, KnownIn, Grown, Releasable, Released, Total;
    if listing != [] {
      var k, front := listing[|listing| - 1], listing[..|listing| - 1];
      assert listing == front + [k];
      RetirementsStay(index, before, after, rows, written, front, counts, more);
      if Releasable(written, k, rows[k]) {
        CardsStay(index, before, after, k, rows[k]);
      }
    }
  }

  /** Once enough have been retired nothing more is, whatever rows are left. */
  lemma {:induction false} EnoughRetired(index: Index, detail: map<string, AgCard>, rows: Rows, written: set<Key>, listing: seq<Key>, i: nat,
                                         counts: map<Key, Option<nat>>)
    requires i <= |listing| && forall k <- listing :: k in rows
    requires Total(Retirements(index, detail, rows, written, listing[..i], counts)) >= MAX_RETIREMENTS
    ensures Retirements(index, detail, rows, written, listing, counts) == Retirements(index, detail, rows, written, listing[..i], counts)
  {
    hide ReleasedCalls, Total;
    if i == |listing| {
      assert listing[..i] == listing;
    } else {
      var front := listing[..|listing| - 1];
      assert front[..i] == listing[..i];
      EnoughRetired(index, detail, rows, written, front, i, counts);
    }
  }

  /** Whatever is retired is retired for a row the sync wrote cards for, before enough
      had been retired, and exactly what its cards say is deleted. */
  lemma {:induction false} RetiredOnEvidence(index: Index, detail: map<string, AgCard>, rows: Rows, written: set<Key>, listing: seq<Key>,
                                             counts: map<Key, Option<nat>>, n: nat)
    requires (forall k <- listing :: k in rows) && n < |Retirements(index, detail, rows, written, listing, counts)|
    ensures var calls := Retirements(index, detail, rows, written, listing, counts);
            var call := calls[n];
            && call.Retire? && call.key in listing && Releasable(written, call.key, rows[call.key]) && call.identities != []
            && (forall card :: InIdentities(call.identities, card) <==> DeadSomewhere(CardsOf(index, detail, call.key, rows[call.key]), card))
            && Total(calls[..n]) < MAX_RETIREMENTS
  {
    hide Released, InIdentities, DeadSomewhere, CardsOf, Total;
    var calls := Retirements(index, detail, rows, written, listing, counts);
    var k, front := listing[|listing| - 1], listing[..|listing| - 1];
    var before := Retirements(index, detail, rows, written, front, counts);
    if n < |before| {
      RetiredOnEvidence(index, detail, rows, written, front, counts, n);
      assert calls[..n] == before[..n];
    } else {
      assert calls[..n] == before;
      ReleasedExactly(CardsOf(index, detail, k, rows[k]));
    }
  }
}

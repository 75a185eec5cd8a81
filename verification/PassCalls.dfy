/** Of all a cycle asks and tells, what concerns one pass. */
module PassCalls {
  import opened Base
  import opened Order
  import opened Pacs
  import opened Ledger
  import opened AgCards
  import opened Snapshot
  import opened Tracking
  import opened Passes
  import opened Decisions
  import opened Retirement
  import opened Asks
  import opened PhaseRecords

  function CallsFor(k: Key, calls: seq<Call>): seq<Call> {
    Filter((c: Call) => c.key == k, calls)
  }

  function ToldAbout(k: Key, calls: seq<PacsCall>): seq<PacsCall> {
    Filter((c: PacsCall) => c.key == k, calls)
  }

  lemma NoneKept<T(!new)>(keep: T -> bool, a: seq<T>)
    requires forall x <- a :: !keep(x)
    ensures Filter(keep, a) == []
  {
    NothingIn(Filter(keep, a));
  }

  lemma JoinCalls(k: Key, a: seq<Call>, b: seq<Call>)
    ensures CallsFor(k, a + b) == CallsFor(k, a) + CallsFor(k, b)
  {
    FilterJoins((c: Call) => c.key == k, a, b);
  }

  lemma JoinTold(k: Key, a: seq<PacsCall>, b: seq<PacsCall>)
    ensures ToldAbout(k, a + b) == ToldAbout(k, a) + ToldAbout(k, b)
  {
    FilterJoins((c: PacsCall) => c.key == k, a, b);
  }

  lemma CallsAbout(k: Key, x: Key, calls: seq<Call>)
    requires forall c <- calls :: c.key == x
    ensures CallsFor(k, calls) == if x == k then calls else []
  {
    if x == k {
      FilterAll((c: Call) => c.key == k, calls);
    } else {
      NoneKept((c: Call) => c.key == k, calls);
    }
  }

  lemma ToldOf(k: Key, x: Key, calls: seq<PacsCall>)
    requires forall c <- calls :: c.key == x
    ensures ToldAbout(k, calls) == if x == k then calls else []
  {
    if x == k {
      FilterAll((c: PacsCall) => c.key == k, calls);
    } else {
      NoneKept((c: PacsCall) => c.key == k, calls);
    }
  }

  predicate Once(listing: seq<Key>) {
    forall i, j | 0 <= i < j < |listing| :: listing[i] != listing[j]
  }

  lemma OnceBefore(listing: seq<Key>, k: Key)
    requires Once(listing) && listing != []
    ensures var front, last := listing[..|listing| - 1], listing[|listing| - 1];
            && Once(front) && last !in front && (k in listing <==> k in front || k == last)
            && (forall x <- front :: x in listing) && listing[..|listing| - 1 + 1] == listing
  {
    assert listing == listing[..|listing| - 1] + [listing[|listing| - 1]];
  }

  lemma NothingCalled(k: Key)
    ensures CallsFor(k, []) == []
  {
  }

  lemma {:induction false} Phase2For(v: View, cfg: Config, rows: Rows, listing: seq<Key>, k: Key)
    requires (forall x <- listing :: x in rows) && Once(listing)
    ensures CallsFor(k, Phase2All(v, cfg, rows, listing)) == if k in listing then Phase2Asks(v, cfg, k, rows[k]) else []
  {
    hide Phase2Asks, CallsFor, Once;
    if listing == [] {
      NothingCalled(k);
    } else {
      hide Phase2All;
      var n := |listing| - 1;
      var x, front := listing[n], listing[..n];
      OnceBefore(listing, k);
      Phase2For(v, cfg, rows, front, k);
      Phase2Step(v, cfg, rows, listing, n);
      AsksAbout(v, cfg, x, rows[x]);
      CallsAbout(k, x, Phase2Asks(v, cfg, x, rows[x]));
      JoinCalls(k, Phase2All(v, cfg, rows, front), Phase2Asks(v, cfg, x, rows[x]));
    }
  }

  lemma {:induction false} Phase3For(v: View, cfg: Config, complete: bool, rows: Rows, listing: seq<Key>, k: Key)
    requires forall x <- listing :: x in rows
    requires k in listing ==> forall expired: nat :: Phase3Asks(v, cfg, complete, k, rows[k], expired) == []
    ensures CallsFor(k, Phase3All(v, cfg, complete, rows, listing)) == []
  {
    if listing == [] {
      CallsAbout(k, k, []);
    } else {
      hide CallsFor, Phase3Reason, ExpiredIn, Phase3All, RunsOut;
      var n := |listing| - 1;
      var x, front := listing[n], listing[..n];
      assert listing == front + [x] && listing[..n + 1] == listing;
      Phase3For(v, cfg, complete, rows, front, k);
      Phase3Step(v, cfg, complete, rows, listing, n);
      var asks := Phase3Asks(v, cfg, complete, x, rows[x], ExpiredIn(v, complete, rows, front));
      CallsAbout(k, x, asks);
      JoinCalls(k, Phase3All(v, cfg, complete, rows, front), asks);
    }
  }

  lemma {:induction false} Phase4For(v: View, cfg: Config, index: Index, detail: map<string, AgCard>, walk: Walk, rows: Rows,
                                     listing: seq<Key>, k: Key)
    requires (forall x <- listing :: x in rows) && Once(listing)
    ensures ToldAbout(k, Phase4All(v, cfg, index, detail, walk, rows, listing)) ==
            if k in listing then Phase4Asks(v, cfg, index, detail, walk, k, rows[k]) else []
  {
    if listing == [] {
      NothingAsked(v, cfg, index, detail, walk, rows);
      ToldOf(k, k, []);
    } else {
      hide ToldAbout, Phase4Asks, Phase4All, Once;
      var n := |listing| - 1;
      var x, front := listing[n], listing[..n];
      OnceBefore(listing, k);
      Phase4For(v, cfg, index, detail, walk, rows, front, k);
      Phase4Step(v, cfg, index, detail, walk, rows, listing, n);
      var asks := Phase4Asks(v, cfg, index, detail, walk, x, rows[x]);
      Phase4About(v, cfg, index, detail, walk, x, rows[x]);
      ToldOf(k, x, asks);
      JoinTold(k, Phase4All(v, cfg, index, detail, walk, rows, front), asks);
    }
  }

  lemma Phase4About(v: View, cfg: Config, index: Index, detail: map<string, AgCard>, walk: Walk, k: Key, row: Row)
    ensures forall c <- Phase4Asks(v, cfg, index, detail, walk, k, row) :: c.key == k
  {
    hide CardsOf, AgState, DesiredStatus, Offered, CredOf, Minted;
  }

  lemma {:induction false} ExpiredFor(v: View, cfg: Config, index: Index, detail: map<string, AgCard>, rows: Rows,
                                      listing: seq<Key>, told: map<Key, Told>, k: Key)
    requires (forall x <- listing :: x in rows) && k !in told
    ensures ToldAbout(k, ExpiredAll(v, cfg, index, detail, rows, listing, told)) == []
  {
    if listing == [] {
      ToldOf(k, k, []);
    } else {
      hide ToldAbout, CardsOf, Offered, CardsWanted, ExpiredAll;
      var n := |listing| - 1;
      var x, front := listing[n], listing[..n];
      assert listing[..n + 1] == listing;
      ExpiredFor(v, cfg, index, detail, rows, front, told, k);
      ExpiredStep(v, cfg, index, detail, rows, listing, n, told);
      var asks := ExpiredCalls(v, cfg, index, detail, x, rows[x], ToldAt(told, x));
      ToldOf(k, x, asks);
      JoinTold(k, ExpiredAll(v, cfg, index, detail, rows, front, told), asks);
    }
  }

  lemma ReleasedAbout(index: Index, detail: map<string, AgCard>, written: set<Key>, k: Key, row: Row, count: Option<nat>)
    ensures var calls := ReleasedCalls(index, detail, written, k, row, count);
            |calls| <= 1 && forall c <- calls :: c.key == k && c.Retire? && c.identities == Released(CardsOf(index, detail, k, row))
  {
    hide CardsOf, Released;
  }

  lemma {:induction false} ReleasedFor(index: Index, detail: map<string, AgCard>, rows: Rows, written: set<Key>, listing: seq<Key>,
                                       counts: map<Key, Option<nat>>, k: Key)
    requires (forall x <- listing :: x in rows) && Once(listing)
    ensures var own := ToldAbout(k, Retirements(index, detail, rows, written, listing, counts));
            |own| <= (if k in listing then 1 else 0) && forall c <- own :: c.Retire? && c.identities == Released(CardsOf(index, detail, k, rows[k]))
  {
    hide ToldAbout, CardsOf, Released, Total, Retirements, ReleasedCalls, Once;
    if listing == [] {
      NothingReleased(index, detail, rows, written, counts);
      ToldOf(k, k, []);
    } else {
      var n := |listing| - 1;
      var x, front := listing[n], listing[..n];
      OnceBefore(listing, k);
      ReleasedFor(index, detail, rows, written, front, counts, k);
      var before := Retirements(index, detail, rows, written, front, counts);
      var count := if x in counts then counts[x] else None;
      RetirementsStep(index, detail, rows, written, listing, n, counts);
      ReleasedAbout(index, detail, written, x, rows[x], count);
      var more := if Total(before) >= MAX_RETIREMENTS then [] else ReleasedCalls(index, detail, written, x, rows[x], count);
      ToldOf(k, x, more);
      JoinTold(k, before, more);
    }
  }

  /** And exactly what its row is owed, unless enough had been retired before its turn. */
  lemma {:induction false} ReleasedInTurn(index: Index, detail: map<string, AgCard>, rows: Rows, written: set<Key>, listing: seq<Key>,
                                          counts: map<Key, Option<nat>>, i: nat)
    requires (forall x <- listing :: x in rows) && Once(listing) && i < |listing|
    ensures var k := listing[i];
            ToldAbout(k, Retirements(index, detail, rows, written, listing, counts)) ==
            if Total(Retirements(index, detail, rows, written, listing[..i], counts)) >= MAX_RETIREMENTS then []
            else ReleasedCalls(index, detail, written, k, rows[k], if k in counts then counts[k] else None)
  {
    hide ToldAbout, Total, Retirements, ReleasedCalls, Once;
    var n, k := |listing| - 1, listing[i];
    var x, front := listing[n], listing[..n];
    OnceBefore(listing, k);
    var before := Retirements(index, detail, rows, written, front, counts);
    var count := if x in counts then counts[x] else None;
    RetirementsStep(index, detail, rows, written, listing, n, counts);
    ReleasedAbout(index, detail, written, x, rows[x], count);
    var more := if Total(before) >= MAX_RETIREMENTS then [] else ReleasedCalls(index, detail, written, x, rows[x], count);
    ToldOf(k, x, more);
    JoinTold(k, before, more);
    if i == n {
      ReleasedFor(index, detail, rows, written, front, counts, k);
    } else {
      assert front[i] == k && front[..i] == listing[..i] && x != k;
      ReleasedInTurn(index, detail, rows, written, front, counts, i);
    }
  }

  lemma NotToldOf(k: Key, calls: seq<Call>)
    requires CallsFor(k, calls) == []
    ensures forall c <- calls :: c.key != k
  {
    forall c | c in calls ensures c.key != k {
      assert c in CallsFor(k, calls) <==> c.key == k;
    }
  }

  lemma NoCallsFor(k: Key, calls: seq<Call>)
    requires forall c <- calls :: c.key != k
    ensures CallsFor(k, calls) == []
  {
    NoneKept((c: Call) => c.key == k, calls);
  }
}

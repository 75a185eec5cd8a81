/** What phases 2, 3 and 4 did: the rows they came to, what they were answered, and the calls they made. */
module PhaseRecords {
  import opened Base
  import opened Pacs
  import opened Ledger
  import opened AgCards
  import opened Snapshot
  import opened Tracking
  import opened Passes
  import opened Decisions
  import opened Asks
  import opened Retirement

  // ---- a walk over the table ----

  /** The rows from the ith of a listing on are as they were. */
  ghost predicate Untouched(before: Rows, after: Rows, listing: seq<Key>, i: nat)
    requires i <= |listing|
  {
    forall j | i <= j < |listing| :: listing[j] in before && listing[j] in after && after[listing[j]] == before[listing[j]]
  }

  lemma ListedUntouched(rows: Rows, listing: seq<Key>)
    requires ListsAll(listing, rows)
    ensures Untouched(rows, rows, listing, 0) && forall k <- listing :: k in rows
  {
  }

  lemma StillUntouched(before: Rows, mid: Rows, after: Rows, listing: seq<Key>, i: nat)
    requires i < |listing| && Untouched(before, mid, listing, i) && OnlyAt(mid, after, listing[i])
    requires forall a, b | 0 <= a < b < |listing| :: listing[a] != listing[b]
    ensures Untouched(before, after, listing, i + 1)
  {
    forall j | i + 1 <= j < |listing| ensures listing[j] in after && after[listing[j]] == before[listing[j]] {
      assert listing[j] != listing[i];
    }
  }

  lemma SameAlong(before: Rows, mid: Rows, after: Rows, k: Key, x: Key)
    requires SameAt(before, mid, x) && OnlyAt(mid, after, k) && x != k
    ensures SameAt(before, after, x)
  {
    assert x in mid <==> x in after;
  }

  // ---- phase 2 ----

  /** The rows it came to, what each call was answered, and the calls it made. */
  datatype Statuses = Statuses(listing: seq<Key>, answers: map<Key, Answer>, calls: seq<Call>)

  function AfterAnswered(rows: Rows, asks: seq<Call>, answer: Option<Answer>): Rows {
    if asks != [] && answer == Some(Done) then AfterDone(rows, asks[0]) else rows
  }

  function AnswerAt(answers: map<Key, Answer>, k: Key): Option<Answer> {
    if k in answers then Some(answers[k]) else None
  }

  /** Every call phase 2 owes these rows and no other; each row as its call was answered. */
  ghost predicate AreStatuses(v: View, cfg: Config, before: Rows, after: Rows, r: Statuses) {
    && (forall k <- r.listing :: k in before)
    && r.calls == Phase2All(v, cfg, before, r.listing)
    && RowsAsAnswered(v, cfg, before, after, r.listing, r.answers)
  }

  ghost predicate RowsAsAnswered(v: View, cfg: Config, before: Rows, after: Rows, listing: seq<Key>, answers: map<Key, Answer>)
    requires forall k <- listing :: k in before
  {
    && (forall k: Key :: k in answers <==> k in listing && Phase2Asks(v, cfg, k, before[k]) != [])
    && (forall k <- listing :: SameAt(AfterAnswered(before, Phase2Asks(v, cfg, k, before[k]), AnswerAt(answers, k)), after, k))
    && (forall k: Key :: k !in listing ==> SameAt(before, after, k))
  }

  lemma NoStatuses(v: View, cfg: Config, rows: Rows)
    ensures AreStatuses(v, cfg, rows, rows, Statuses([], map[], []))
  {
  }

  ghost function AndStatus(v: View, cfg: Config, rows: Rows, r: Statuses, k: Key, answer: Option<Answer>): Statuses
    requires k in rows
  {
    Statuses(r.listing + [k], if answer.Some? then r.answers[k := answer.value] else r.answers, r.calls + Phase2Asks(v, cfg, k, rows[k]))
  }

  lemma AnsweredAt(rows: Rows, mid: Rows, asks: seq<Call>, answer: Option<Answer>, k: Key)
    requires k in rows && k in mid && mid[k] == rows[k] && forall c <- asks :: c.key == k
    ensures SameAt(AfterAnswered(rows, asks, answer), AfterAnswered(mid, asks, answer), k)
    ensures OnlyAt(mid, AfterAnswered(mid, asks, answer), k)
  {
  }

  lemma OneMoreAnswered(v: View, cfg: Config, rows: Rows, mid: Rows, after: Rows, listing: seq<Key>, k: Key,
                        answers: map<Key, Answer>, answer: Option<Answer>)
    requires (forall x <- listing :: x in rows) && k in rows && k !in listing && RowsAsAnswered(v, cfg, rows, mid, listing, answers)
    requires k in mid && mid[k] == rows[k] && after == AfterAnswered(mid, Phase2Asks(v, cfg, k, rows[k]), answer)
    requires answer.Some? <==> Phase2Asks(v, cfg, k, rows[k]) != []
    ensures RowsAsAnswered(v, cfg, rows, after, listing + [k], if answer.Some? then answers[k := answer.value] else answers)
  {
    hide Phase2Asks, AfterAnswered, SameAt;
    AsksAbout(v, cfg, k, rows[k]);
    AnsweredAt(rows, mid, Phase2Asks(v, cfg, k, rows[k]), answer, k);
    var now := if answer.Some? then answers[k := answer.value] else answers;
    forall x | x in listing + [k]
      ensures SameAt(AfterAnswered(rows, Phase2Asks(v, cfg, x, rows[x]), AnswerAt(now, x)), after, x)
    {
      if x in listing {
        assert SameAt(AfterAnswered(rows, Phase2Asks(v, cfg, x, rows[x]), AnswerAt(answers, x)), mid, x);
        SameAlong(AfterAnswered(rows, Phase2Asks(v, cfg, x, rows[x]), AnswerAt(answers, x)), mid, after, k, x);
      }
    }
    forall x: Key | x !in listing + [k] ensures SameAt(rows, after, x) {
      SameAlong(rows, mid, after, k, x);
    }
  }

  lemma OneMoreStatus(v: View, cfg: Config, rows: Rows, mid: Rows, after: Rows, all: seq<Key>, i: nat, r: Statuses, answer: Option<Answer>)
    requires i < |all| && (forall k <- all :: k in rows) && (forall a, b | 0 <= a < b < |all| :: all[a] != all[b])
    requires r.listing == all[..i] && AreStatuses(v, cfg, rows, mid, r)
    requires all[i] in mid && mid[all[i]] == rows[all[i]]
    requires answer.Some? <==> Phase2Asks(v, cfg, all[i], rows[all[i]]) != []
    requires after == AfterAnswered(mid, Phase2Asks(v, cfg, all[i], rows[all[i]]), answer)
    ensures AreStatuses(v, cfg, rows, after, AndStatus(v, cfg, rows, r, all[i], answer))
    ensures AndStatus(v, cfg, rows, r, all[i], answer).listing == all[..i + 1]
  {
    hide Phase2All, Phase2Asks, AfterAnswered, RowsAsAnswered;
    assert all[..i + 1] == all[..i] + [all[i]];
    Phase2Step(v, cfg, rows, all, i);
    OneMoreAnswered(v, cfg, rows, mid, after, all[..i], all[i], r.answers, answer);
  }

  // ---- phase 3, deleting ----

  /** The rows it came to, what it was told about each deletion, and the calls it made. */
  datatype Revocations = Revocations(listing: seq<Key>, told: map<Key, Told>, calls: seq<Call>, retired: seq<PacsCall>)

  /** Every deletion phase 3 owes these rows and no other; each row released as it was told; and
      for the expired passes deleted, their cards. */
  ghost predicate AreRevocations(v: View, cfg: Config, complete: bool, index: Index, detail: map<string, AgCard>,
                                 before: Rows, after: Rows, r: Revocations) {
    && (forall k <- r.listing :: k in before)
    && r.calls == Phase3All(v, cfg, complete, before, r.listing)
    && RowsAsTold(before, after, r)
    && r.retired == ExpiredAll(v, cfg, index, detail, before, r.listing, r.told)
    && ExpiredKnown(v, cfg, index, detail, before, r.listing, r.told)
  }

  ghost predicate RowsAsTold(before: Rows, after: Rows, r: Revocations) {
    && (forall k: Key :: k in r.told <==> exists c <- r.calls :: c.key == k)
    && (forall k <- r.told :: k in r.listing)
    && (forall k: Key :: SameAt(AfterTold(before, k, ToldAt(r.told, k)), after, k))
  }

  lemma NoRevocations(v: View, cfg: Config, complete: bool, index: Index, detail: map<string, AgCard>, rows: Rows)
    ensures AreRevocations(v, cfg, complete, index, detail, rows, rows, Revocations([], map[], [], []))
    ensures CountPresent(v, []) == 0 && ExpiredIn(v, complete, rows, []) == 0 && Grown(detail, detail)
  {
  }

  lemma RevocationsStay(v: View, cfg: Config, complete: bool, index: Index, before: map<string, AgCard>, after: map<string, AgCard>,
                        rows: Rows, now: Rows, r: Revocations)
    requires AreRevocations(v, cfg, complete, index, before, rows, now, r) && Grown(before, after)
    ensures AreRevocations(v, cfg, complete, index, after, rows, now, r)
  {
    hide Grown, AfterTold, Phase3All, ExpiredAll, ExpiredKnown;
    ExpiredStay(v, cfg, index, before, after, rows, r.listing, r.told, r.told);
  }

  /** One row more. */
  ghost function Further(v: View, cfg: Config, complete: bool, index: Index, detail: map<string, AgCard>, rows: Rows, r: Revocations,
                         k: Key, told: Option<Told>, expired: nat): Revocations
    requires k in rows
  {
    Revocations(r.listing + [k], if told.Some? then r.told[k := told.value] else r.told,
                r.calls + Phase3Asks(v, cfg, complete, k, rows[k], expired),
                r.retired + ExpiredCalls(v, cfg, index, detail, k, rows[k], told))
  }

  lemma OneMoreTold(v: View, cfg: Config, complete: bool, rows: Rows, mid: Rows, after: Rows, r: Revocations, next: Revocations,
                    k: Key, told: Option<Told>, expired: nat)
    requires k in rows && k in mid && mid[k] == rows[k] && after == AfterTold(mid, k, told) && k !in r.listing
    requires RowsAsTold(rows, mid, r)
    requires told.Some? <==> Phase3Asks(v, cfg, complete, k, rows[k], expired) != []
    requires next.calls == r.calls + Phase3Asks(v, cfg, complete, k, rows[k], expired)
    requires next.listing == r.listing + [k] && next.told == if told.Some? then r.told[k := told.value] else r.told
    ensures RowsAsTold(rows, after, next) && k !in r.told
  {
    hide Phase3Reason, HasPass;
    forall x: Key ensures x in next.told <==> exists c <- next.calls :: c.key == x {
      if x in r.told {
        var c :| c in r.calls && c.key == x;
        assert c in next.calls;
      }
      if x == k && told.Some? {
        assert next.calls[|r.calls|].key == k;
      }
    }
    forall x: Key ensures SameAt(AfterTold(rows, x, ToldAt(next.told, x)), after, x) {
      assert SameAt(AfterTold(rows, x, ToldAt(r.told, x)), mid, x);
    }
  }

  lemma OneMoreRevoked(v: View, cfg: Config, complete: bool, index: Index, detail: map<string, AgCard>, more: map<string, AgCard>,
                       rows: Rows, mid: Rows, after: Rows, all: seq<Key>, i: nat, r: Revocations, told: Option<Told>)
    requires i < |all| && (forall k <- all :: k in rows) && (forall a, b | 0 <= a < b < |all| :: all[a] != all[b])
    requires r.listing == all[..i] && AreRevocations(v, cfg, complete, index, detail, rows, mid, r) && Grown(detail, more)
    requires all[i] in mid && mid[all[i]] == rows[all[i]] && after == AfterTold(mid, all[i], told)
    requires var expired := ExpiredIn(v, complete, rows, all[..i]);
             told.Some? <==> Phase3Asks(v, cfg, complete, all[i], rows[all[i]], expired) != []
    requires told.Some? && CardsWanted(v, cfg, all[i]) ==> KnownIn(index, more, all[i], rows[all[i]])
    ensures var expired := ExpiredIn(v, complete, rows, all[..i]);
            && AreRevocations(v, cfg, complete, index, more, rows, after, Further(v, cfg, complete, index, more, rows, r, all[i], told, expired))
            && Further(v, cfg, complete, index, more, rows, r, all[i], told, expired).listing == all[..i + 1]
            && ExpiredIn(v, complete, rows, all[..i + 1]) == expired + (if RunsOut(v, complete, all[i], rows[all[i]], expired) then 1 else 0)
  {
    hide ExpiredAll, ExpiredCalls, Phase3All, ExpiredIn, KnownIn, CardsWanted, Grown, RunsOut, AfterTold, Phase3Asks, RowsAsTold;
    var k, expired := all[i], ExpiredIn(v, complete, rows, all[..i]);
    var next := Further(v, cfg, complete, index, more, rows, r, k, told, expired);
    assert all[..i + 1] == all[..i] + [k];
    assert k !in all[..i];
    Phase3Step(v, cfg, complete, rows, all, i);
    OneMoreTold(v, cfg, complete, rows, mid, after, r, next, k, told, expired);
    assert forall x <- r.listing :: ToldAt(next.told, x) == ToldAt(r.told, x);
    ExpiredStay(v, cfg, index, detail, more, rows, all[..i], r.told, next.told);
    ExpiredStep(v, cfg, index, more, rows, all, i, next.told);
    assert ToldAt(next.told, k) == told;
    assert ExpiredKnown(v, cfg, index, more, rows, all[..i + 1], next.told);
  }

  // ---- phase 3, releasing ----

  /** The rows it listed, what the PACS held and answered, and the calls it made. */
  datatype Releases = Releases(listing: seq<Key>, written: set<Key>, counts: map<Key, Option<nat>>, calls: seq<PacsCall>)

  ghost predicate AreReleases(index: Index, detail: map<string, AgCard>, rows: Rows, r: Releases) {
    && (forall k <- r.listing :: k in rows)
    && r.calls == Retirements(index, detail, rows, r.written, r.listing, r.counts) && CallsKnown(index, detail, rows, r.calls)
  }

  lemma NoReleases(index: Index, detail: map<string, AgCard>, rows: Rows)
    ensures AreReleases(index, detail, rows, Releases([], {}, map[], []))
  {
  }

  lemma NothingReleased(index: Index, detail: map<string, AgCard>, rows: Rows, written: set<Key>, counts: map<Key, Option<nat>>)
    ensures Retirements(index, detail, rows, written, [], counts) == [] && ReleasedKnown(index, detail, rows, written, []) && Total([]) == 0
  {
  }

  lemma TotalStep(before: seq<PacsCall>, more: seq<PacsCall>, count: Option<nat>)
    requires (more == [] && count.None?) || (|more| == 1 && more[0].Retire? && more[0].count == count)
    ensures Total(before + more) == Total(before) + count.GetOr(0)
  {
    if more == [] {
      assert before + more == before;
    } else {
      assert (before + more)[..|before|] == before;
    }
  }

  lemma OneMoreReleased(index: Index, detail: map<string, AgCard>, more: map<string, AgCard>, rows: Rows, written: set<Key>,
                        listing: seq<Key>, i: nat, counts: map<Key, Option<nat>>, count: Option<nat>)
    requires i < |listing| && (forall k <- listing :: k in rows) && (forall a, b | 0 <= a < b < |listing| :: listing[a] != listing[b])
    requires ReleasedKnown(index, detail, rows, written, listing[..i]) && Grown(detail, more) && (forall x <- counts :: x in listing[..i])
    requires Releasable(written, listing[i], rows[listing[i]]) ==> KnownIn(index, more, listing[i], rows[listing[i]])
    requires Total(Retirements(index, detail, rows, written, listing[..i], counts)) < MAX_RETIREMENTS
    requires ReleasedCalls(index, more, written, listing[i], rows[listing[i]], count) == [] ==> count.None?
    ensures var before, after, now := Retirements(index, detail, rows, written, listing[..i], counts),
                                      Retirements(index, more, rows, written, listing[..i + 1], counts[listing[i] := count]),
                                      counts[listing[i] := count];
            && after == before + ReleasedCalls(index, more, written, listing[i], rows[listing[i]], count)
            && Total(after) == Total(before) + count.GetOr(0)
            && ReleasedKnown(index, more, rows, written, listing[..i + 1]) && forall x <- now :: x in listing[..i + 1]
  {
    hide CardsOf, KnownIn, Grown, Releasable, Released, Retirements, Total;
    var k, now := listing[i], counts[listing[i] := count];
    assert listing[..i + 1] == listing[..i] + [k];
    assert k !in listing[..i];
    RetirementsStay(index, detail, more, rows, written, listing[..i], counts, now);
    RetirementsStep(index, more, rows, written, listing, i, now);
    TotalStep(Retirements(index, detail, rows, written, listing[..i], counts), ReleasedCalls(index, more, written, k, rows[k], count), count);
  }

  // ---- phase 4 ----

  /** The rows it came to, how the PACS took each state it was told, and the calls it made. */
  datatype States = States(listing: seq<Key>, taken: map<Key, bool>, calls: seq<PacsCall>)

  /** A pass whose state differs from the one remembered, and no hold to say otherwise. */
  predicate Noticed(v: View, k: Key, row: Row) {
    var state := AgState(v, row, k, row.syncRef);
    row.status !in {"deleted", "deduped"} && HasPass(row) && state != "" && state != row.lastKnown && !(state in AG_TO_CRED && Held(v, k))
  }

  function AfterFollowed(v: View, rows: Rows, k: Key, taken: Option<bool>): Rows
    requires k in rows
  {
    if Noticed(v, k, rows[k]) && taken != Some(false) then LastKnownUpdated(rows, k, AgState(v, rows[k], k, rows[k].syncRef)) else rows
  }

  function TakenAt(taken: map<Key, bool>, k: Key): Option<bool> {
    if k in taken then Some(taken[k]) else None
  }

  ghost predicate Followed(v: View, cfg: Config, index: Index, detail: map<string, AgCard>, before: Rows, after: Rows,
                           listing: seq<Key>, taken: map<Key, bool>) {
    && (forall k <- listing :: k in before)
    && (forall k: Key :: k in taken <==> k in listing && Phase4Asks(v, cfg, index, detail, FollowWalk, k, before[k]) != [])
    && (forall k <- listing :: SameAt(AfterFollowed(v, before, k, TakenAt(taken, k)), after, k))
    && (forall k: Key :: k !in listing ==> SameAt(before, after, k))
  }

  lemma NobodyFollowed(v: View, cfg: Config, index: Index, detail: map<string, AgCard>, rows: Rows)
    ensures Followed(v, cfg, index, detail, rows, rows, [], map[])
  {
  }

  function AndTaken(taken: map<Key, bool>, k: Key, one: Option<bool>): map<Key, bool> {
    if one.Some? then taken[k := one.value] else taken
  }

  lemma FollowedAt(v: View, rows: Rows, mid: Rows, k: Key, taken: Option<bool>)
    requires k in rows && k in mid && mid[k] == rows[k]
    ensures SameAt(AfterFollowed(v, rows, k, taken), AfterFollowed(v, mid, k, taken), k)
    ensures OnlyAt(mid, AfterFollowed(v, mid, k, taken), k)
  {
    hide AgState, Noticed;
  }

  lemma OneMoreFollowed(v: View, cfg: Config, index: Index, detail: map<string, AgCard>, rows: Rows, mid: Rows, after: Rows,
                        all: seq<Key>, i: nat, taken: map<Key, bool>, one: Option<bool>)
    requires i < |all| && (forall k <- all :: k in rows) && (forall a, b | 0 <= a < b < |all| :: all[a] != all[b])
    requires Followed(v, cfg, index, detail, rows, mid, all[..i], taken)
    requires all[i] in mid && mid[all[i]] == rows[all[i]] && after == AfterFollowed(v, mid, all[i], one)
    requires one.Some? <==> Phase4Asks(v, cfg, index, detail, FollowWalk, all[i], rows[all[i]]) != []
    ensures Followed(v, cfg, index, detail, rows, after, all[..i + 1], AndTaken(taken, all[i], one))
  {
    hide Phase4Asks, AgState, Noticed, SameAt, AfterFollowed;
    FollowedAt(v, rows, mid, all[i], one);
    var k, next := all[i], AndTaken(taken, all[i], one);
    assert all[..i + 1] == all[..i] + [k];
    assert k !in all[..i];
    forall x | x in all[..i + 1] ensures SameAt(AfterFollowed(v, rows, x, TakenAt(next, x)), after, x) {
      if x != k {
        SameAlong(AfterFollowed(v, rows, x, TakenAt(taken, x)), mid, after, k, x);
      }
    }
    forall x: Key | x !in all[..i + 1] ensures SameAt(rows, after, x) {
      SameAlong(rows, mid, after, k, x);
    }
  }

  /** Exactly the offers, the boxes and the states of these rows; a state remembered as it was taken. */
  ghost predicate AreStates(v: View, cfg: Config, index: Index, detail: map<string, AgCard>, before: Rows, after: Rows, r: States) {
    && (forall k <- r.listing :: k in before)
    && r.calls == (if cfg.supportsWriteback
                   then Phase4All(v, cfg, index, detail, OfferWalk, before, r.listing) + Phase4All(v, cfg, index, detail, GateWalk, before, r.listing)
                   else [])
                  + (if cfg.supportsStatus then Phase4All(v, cfg, index, detail, FollowWalk, before, r.listing) else [])
    && Followed(v, cfg, index, detail, before, after, if cfg.supportsStatus then r.listing else [], r.taken)
  }

  lemma NoStates(v: View, cfg: Config, detail: map<string, AgCard>, rows: Rows)
    ensures AreStates(v, cfg, v.index, detail, rows, rows, States([], map[], []))
  {
    NobodyFollowed(v, cfg, v.index, detail, rows);
    hide Followed, Phase4Asks;
  }
}

/** A cycle over a table of one row: what makes one up, phase by phase. */
module OneRowCycle {
  import opened Base
  import opened Pacs
  import opened Ledger
  import opened AgCards
  import opened Snapshot
  import opened Tracking
  import opened Passes
  import opened Decisions
  import opened Retirement
  import opened Asks
  import opened Issuing
  import opened PhaseRecords
  import opened Traces

  /** One active cardholder, read with this one credential. */
  predicate OneRead(v: View, k: Key, cred: Credential) {
    && v.creds == map[k.person := [cred]] && cred.id == k.credential
    && v.people.Keys == {k.person} && v.people[k.person].active
  }

  lemma OneIsRead(v: View, k: Key, cred: Credential)
    requires OneRead(v, k, cred)
    ensures UniqueIds(v) && CredOf(v, k) == Some(cred) && v.people != map[] && (Held(v, k) <==> cred.hold)
    ensures ItemsOf(v, k.person) == [Item(k, cred)]
  {
  }

  function OneIssues(k: Key, cred: Credential): Issues {
    Issues([k.person], [Step(k, cred, Untried)], [], [])
  }

  lemma PassedOverOnce(v: View, cfg: Config, rows: Rows, k: Key, cred: Credential)
    requires OneRead(v, k, cred) && PassAt(rows, k)
    ensures AreIssues(v, cfg, rows, PassedOver(v, cfg, rows, k, cred), OneIssues(k, cred))
    ensures forall pid <- v.creds :: pid in OneIssues(k, cred).order
  {
    hide PassedOver, MayIssue, DedupeHit, UniqueIds, Held, CredOf, ItemsOf, Walked;
    OneIsRead(v, k, cred);
    NobodyIssuedFor(v, cfg, rows);
    var s := Step(k, cred, Untried);
    OneMoreQueued(v, [], k.person);
    assert [] + [k.person] == [k.person] && [] + [s] == [s] && [] + [Item(k, cred)] == [Item(k, cred)];
    assert Queue(v, []) == [] && StepCalls([]) == [] && StepPushes(cfg, []) == [];
    OneMoreStep(v, cfg, rows, rows, PassedOver(v, cfg, rows, k, cred), [], [], s);
  }

  function OneStatus(v: View, cfg: Config, rows: Rows, k: Key): Statuses
    requires k in rows
  {
    var asks := Phase2Asks(v, cfg, k, rows[k]);
    Statuses([k], if asks == [] then map[] else map[k := Done], asks)
  }

  /** Its call, if any, answered. */
  function AfterStatus(v: View, cfg: Config, rows: Rows, k: Key): Rows
    requires k in rows
  {
    AfterAnswered(rows, Phase2Asks(v, cfg, k, rows[k]), Some(Done))
  }

  lemma AnsweredIf(rows: Rows, asks: seq<Call>)
    ensures AfterAnswered(rows, asks, if asks == [] then None else Some(Done)) == AfterAnswered(rows, asks, Some(Done))
  {
  }

  lemma AnsweredOnce(v: View, cfg: Config, rows: Rows, k: Key)
    requires k in rows
    ensures AreStatuses(v, cfg, rows, AfterStatus(v, cfg, rows, k), OneStatus(v, cfg, rows, k))
  {
    hide Phase2Asks, AreStatuses, AfterAnswered;
    var asks := Phase2Asks(v, cfg, k, rows[k]);
    var answer := if asks == [] then None else Some(Done);
    AnsweredIf(rows, asks);
    NoStatuses(v, cfg, rows);
    assert [k][..0] == [] && [k][..1] == [k];
    OneMoreStatus(v, cfg, rows, rows, AfterStatus(v, cfg, rows, k), [k], 0, Statuses([], map[], []), answer);
    assert [] + [k] == [k] && [] + asks == asks;
  }

  lemma NothingToRevoke(v: View, cfg: Config, complete: bool, detail: map<string, AgCard>, rows: Rows, k: Key)
    requires k in rows && forall expired: nat :: Phase3Asks(v, cfg, complete, k, rows[k], expired) == []
    ensures AreRevocations(v, cfg, complete, v.index, detail, rows, rows, Revocations([k], map[], [], []))
  {
    hide Phase3Asks, AreRevocations, ExpiredIn, CardsWanted, RunsOut, CardsOf, Grown, KnownIn;
    NoRevocations(v, cfg, complete, v.index, detail, rows);
    assert [k][..0] == [];
    var none := Revocations([], map[], [], []);
    OneMoreRevoked(v, cfg, complete, v.index, detail, detail, rows, rows, rows, [k], 0, none, None);
    assert Further(v, cfg, complete, v.index, detail, rows, none, k, None, ExpiredIn(v, complete, rows, [])) == Revocations([k], map[], [], []);
  }

  /** What phase 4 tells, where the status walk tells nothing. */
  function OneStates(v: View, cfg: Config, detail: map<string, AgCard>, rows: Rows, k: Key): States
    requires k in rows
  {
    States([k], map[], if cfg.supportsWriteback
                       then Phase4Asks(v, cfg, v.index, detail, OfferWalk, k, rows[k]) + Phase4Asks(v, cfg, v.index, detail, GateWalk, k, rows[k])
                       else [])
  }

  lemma FollowedOnce(v: View, cfg: Config, detail: map<string, AgCard>, rows: Rows, k: Key)
    requires k in rows && cfg.supportsStatus && Phase4Asks(v, cfg, v.index, detail, FollowWalk, k, rows[k]) == []
    ensures AreStates(v, cfg, v.index, detail, rows, AfterFollowed(v, rows, k, None), OneStates(v, cfg, detail, rows, k))
  {
    hide Phase4Asks, Noticed, Followed, Phase4All, AfterFollowed;
    NobodyFollowed(v, cfg, v.index, detail, rows);
    assert [k][..0] == [] && [k][..1] == [k];
    OneMoreFollowed(v, cfg, v.index, detail, rows, rows, AfterFollowed(v, rows, k, None), [k], 0, map[], None);
    WalkedOnce(v, cfg, detail, OfferWalk, rows, k);
    WalkedOnce(v, cfg, detail, GateWalk, rows, k);
    WalkedOnce(v, cfg, detail, FollowWalk, rows, k);
  }

  lemma WalkedOnce(v: View, cfg: Config, detail: map<string, AgCard>, walk: Asks.Walk, rows: Rows, k: Key)
    requires k in rows
    ensures Phase4All(v, cfg, v.index, detail, walk, rows, [k]) == Phase4Asks(v, cfg, v.index, detail, walk, k, rows[k])
  {
    hide Phase4Asks;
    assert [k][..0] == [];
  }

  /** The table after each phase, from the row as phase 1 leaves it. */
  function OneTrace(v: View, cfg: Config, k: Key, cred: Credential, rows2: Rows, released: Releases,
                    detail3: map<string, AgCard>, detail: map<string, AgCard>, asked: seq<Read>): Trace
    requires k in rows2
  {
    var rows3 := AfterStatus(v, cfg, rows2, k);
    if k !in rows3 then Reaching2(OneIssues(k, cred), rows2, OneStatus(v, cfg, rows2, k), rows3)
    else
      var rows5 := AfterFollowed(v, rows3, k, None);
      Trace(OneIssues(k, cred), rows2, OneStatus(v, cfg, rows2, k), rows3, Revocations([k], map[], [], []), rows3, released,
            OneStates(v, cfg, detail, rows3, k), rows5, Reissues([], map[], [], []), rows5, detail3, detail, asked)
  }

  /** The row holds a pass, and neither phase 3 nor the status walk owes it anything. */
  ghost predicate Calm(v: View, cfg: Config, complete: bool, detail: map<string, AgCard>, rows: Rows, k: Key)
    requires k in rows
  {
    && HasPass(rows[k]) && (forall expired: nat :: Phase3Asks(v, cfg, complete, k, rows[k], expired) == [])
    && Phase4Asks(v, cfg, v.index, detail, FollowWalk, k, rows[k]) == []
  }

  lemma OneRowStays(v: View, cfg: Config, rows: Rows, k: Key, cred: Credential)
    requires rows.Keys == {k} && PassAt(rows, k)
    ensures PassedOver(v, cfg, rows, k, cred).Keys == {k}
    ensures AfterStatus(v, cfg, rows, k).Keys == {k} && AfterFollowed(v, rows, k, None).Keys == {k}
    ensures AfterFollowed(v, rows, k, None)[k].agCardId == rows[k].agCardId
  {
    hide AgState, CredOf, DedupeHit, MayIssue, Phase2Call;
  }

  lemma {:induction false} ListsOne(k: Key, rows: Rows)
    requires rows.Keys == {k}
    ensures ListsAll([k], rows)
  {
    assert forall x: Key :: x in [k] <==> x in {k};
  }

  /** So such a cycle is one the sync may go through, and a completed one. */
  lemma OneIsTraced(v: View, cfg: Config, complete: bool, rows: Rows, k: Key, cred: Credential, released: Releases,
                    detail3: map<string, AgCard>, detail: map<string, AgCard>, asked: seq<Read>)
    requires OneRead(v, k, cred) && rows.Keys == {k} && PassAt(rows, k) && cfg.supportsStatus
    requires var rows2 := PassedOver(v, cfg, rows, k, cred);
             k in rows2 && k in AfterStatus(v, cfg, rows2, k) && Calm(v, cfg, complete, detail, AfterStatus(v, cfg, rows2, k), k)
             && AreReleases(v.index, detail3, AfterStatus(v, cfg, rows2, k), released)
    requires released.listing == if cfg.supportsRetirement then [k] else []
    requires Grown(detail3, detail) && Remembered(detail, asked) && forall r <- asked :: FromIndex(v.index, r.listed)
    ensures var t := OneTrace(v, cfg, k, cred, PassedOver(v, cfg, rows, k, cred), released, detail3, detail, asked);
            IsTrace(v, cfg, complete, rows, t) && ComesToAll(v, cfg, t)
  {
    hide AreIssues, AreStatuses, AreRevocations, AreReleases, AreStates, AreReissues, Grown, Remembered, FromIndex,
         PassedOver, AfterStatus, AfterFollowed, OneStatus, OneStates, Phase3Asks, Phase4Asks, OneRead;
    var rows2 := PassedOver(v, cfg, rows, k, cred);
    var rows3 := AfterStatus(v, cfg, rows2, k);
    var rows5 := AfterFollowed(v, rows3, k, None);
    PassedOverOnce(v, cfg, rows, k, cred);
    OneRowStays(v, cfg, rows, k, cred);
    assert PassAt(rows2, k) by { PassStays(v, cfg, rows, k, cred); }
    OneRowStays(v, cfg, rows2, k, cred);
    OneRowStays(v, cfg, rows3, k, cred);
    AnsweredOnce(v, cfg, rows2, k);
    NothingToRevoke(v, cfg, complete, detail3, rows3, k);
    FollowedOnce(v, cfg, detail, rows3, k);
    NothingSince(v, cfg, complete, detail, rows5);
    ListsOne(k, rows2);
    ListsOne(k, rows3);
    OneIsRead(v, k, cred);
    OneIsWhole(v, cfg, complete, rows, k, cred, released, detail3, detail, asked, rows2, rows3, rows5);
  }

  lemma PassStays(v: View, cfg: Config, rows: Rows, k: Key, cred: Credential)
    requires PassAt(rows, k)
    ensures PassAt(PassedOver(v, cfg, rows, k, cred), k)
  {
    hide AgState, DedupeHit, MayIssue;
  }

  lemma OneIsWhole(v: View, cfg: Config, complete: bool, rows: Rows, k: Key, cred: Credential, released: Releases,
                   detail3: map<string, AgCard>, detail: map<string, AgCard>, asked: seq<Read>, rows2: Rows, rows3: Rows, rows5: Rows)
    requires k in rows2 && rows3 == AfterStatus(v, cfg, rows2, k) && k in rows3 && rows5 == AfterFollowed(v, rows3, k, None)
    requires rows5.Keys == {k} && rows5[k].agCardId.Some? && v.people != map[] && forall pid <- v.creds :: pid in OneIssues(k, cred).order
    requires AreIssues(v, cfg, rows, rows2, OneIssues(k, cred)) && AreStatuses(v, cfg, rows2, rows3, OneStatus(v, cfg, rows2, k))
    requires AreRevocations(v, cfg, complete, v.index, detail3, rows3, rows3, Revocations([k], map[], [], []))
    requires AreReleases(v.index, detail3, rows3, released) && released.listing == if cfg.supportsRetirement then [k] else []
    requires AreStates(v, cfg, v.index, detail, rows3, rows5, OneStates(v, cfg, detail, rows3, k))
    requires AreReissues(v, cfg, rows5, rows5, Reissues([], map[], [], [])) && CountPresent(v, []) == 0
    requires Grown(detail3, detail) && Remembered(detail, asked) && forall r <- asked :: FromIndex(v.index, r.listed)
    requires ListsAll([k], rows2) && ListsAll([k], rows3)
    ensures var t := OneTrace(v, cfg, k, cred, rows2, released, detail3, detail, asked);
            IsTrace(v, cfg, complete, rows, t) && ComesToAll(v, cfg, t)
  {
    hide AreIssues, AreStatuses, AreRevocations, AreReleases, AreStates, AreReissues, Grown, Remembered, FromIndex,
         AfterStatus, AfterFollowed, CountPresent, ListsAll, OneStatus, OneStates;
    StatusListing(v, cfg, rows2, k);
    StatesListing(v, cfg, detail, rows3, k);
    assert !Retryable(rows5[k]);
  }

  lemma StatusListing(v: View, cfg: Config, rows: Rows, k: Key)
    requires k in rows
    ensures OneStatus(v, cfg, rows, k).listing == [k]
  {
  }

  lemma StatesListing(v: View, cfg: Config, detail: map<string, AgCard>, rows: Rows, k: Key)
    requires k in rows
    ensures OneStates(v, cfg, detail, rows, k).listing == [k]
  {
  }
}

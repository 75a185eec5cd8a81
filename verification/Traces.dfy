/** A whole cycle: what its phases asked, in their order, and of which table. */
module Traces {
  import opened Base
  import opened Pacs
  import opened Ledger
  import opened AgCards
  import opened Snapshot
  import opened Tracking
  import opened Passes
  import opened Decisions
  import opened Asks
  import opened Issuing
  import opened PhaseRecords
  import opened Retirement

  /** What each phase asked, and the table it left to the next; `asked` are the cards re-read. */
  datatype Trace = Trace(
    issues: Issues, rows2: Rows,
    statuses: Statuses, rows3: Rows,
    revoked: Revocations, rows4: Rows, released: Releases,
    states: States, rows5: Rows,
    retries: Reissues, rows6: Rows,
    detail3: map<string, AgCard>, detail: map<string, AgCard>, asked: seq<Read>)

  ghost predicate IsTrace(v: View, cfg: Config, complete: bool, rows: Rows, t: Trace) {
    && AreIssues(v, cfg, rows, t.rows2, t.issues)
    && AreStatuses(v, cfg, t.rows2, t.rows3, t.statuses)
    && (v.people == map[] ==> t.revoked.listing == []) && (v.people == map[] || !cfg.supportsRetirement ==> t.released.listing == [])
    && AreRevocations(v, cfg, complete, v.index, t.detail3, t.rows3, t.rows4, t.revoked) && CountPresent(v, t.revoked.calls) <= MAX_EXPIRIES
    && AreReleases(v.index, t.detail3, t.rows4, t.released)
    && AreStates(v, cfg, v.index, t.detail, t.rows4, t.rows5, t.states)
    && (forall k <- t.retries.listing :: k in t.rows5 && Retryable(t.rows5[k])) && AreReissues(v, cfg, t.rows5, t.rows6, t.retries)
    && Grown(t.detail3, t.detail) && Remembered(t.detail, t.asked) && (forall r <- t.asked :: FromIndex(v.index, r.listed))
  }

  /** Every cardholder read, and every row of each phase's table. */
  ghost predicate ComesToAll(v: View, cfg: Config, t: Trace) {
    && (forall pid <- v.creds :: pid in t.issues.order) && ListsAll(t.statuses.listing, t.rows2)
    && Phase3Whole(v, cfg, t) && Phases45Whole(t)
  }

  ghost predicate Phase3Whole(v: View, cfg: Config, t: Trace) {
    v.people != map[] ==> ListsAll(t.revoked.listing, t.rows3) && (cfg.supportsRetirement ==> ListsAll(t.released.listing, t.rows4))
  }

  ghost predicate Phases45Whole(t: Trace) {
    ListsAll(t.states.listing, t.rows4) && forall k :: k in t.retries.listing <==> k in t.rows5 && Retryable(t.rows5[k])
  }

  // ---- built phase by phase ----

  /** The same phases 1 and 2. */
  predicate SameSoFar(t0: Trace, t: Trace) {
    t.issues == t0.issues && t.rows2 == t0.rows2 && t.statuses == t0.statuses && t.rows3 == t0.rows3
  }

  /** A cycle that has come no further than phase 2. */
  function Reaching2(issues: Issues, rows2: Rows, statuses: Statuses, rows3: Rows): Trace {
    Trace(issues, rows2, statuses, rows3, Revocations([], map[], [], []), rows3, Releases([], {}, map[], []),
          States([], map[], []), rows3, Reissues([], map[], [], []), rows3, map[], map[], [])
  }

  /** Of the phases still to come, nothing. */
  lemma NothingSince(v: View, cfg: Config, complete: bool, detail: map<string, AgCard>, rows: Rows)
    ensures AreRevocations(v, cfg, complete, v.index, detail, rows, rows, Revocations([], map[], [], []))
    ensures AreReleases(v.index, detail, rows, Releases([], {}, map[], []))
    ensures AreStates(v, cfg, v.index, detail, rows, rows, States([], map[], []))
    ensures AreStatuses(v, cfg, rows, rows, Statuses([], map[], []))
    ensures AreReissues(v, cfg, rows, rows, Reissues([], map[], [], [])) && CountPresent(v, []) == 0
  {
    hide AreRevocations, AreReleases, AreStates, AreStatuses, AreReissues;
    NoReissues(v, cfg, rows);
    NoRevocations(v, cfg, complete, v.index, detail, rows);
    NoReleases(v.index, detail, rows);
    NoStates(v, cfg, detail, rows);
    NoStatuses(v, cfg, rows);
  }

  lemma FirstTrace(v: View, cfg: Config, complete: bool, rows: Rows, after: Rows, issues: Issues) returns (t: Trace)
    requires AreIssues(v, cfg, rows, after, issues)
    ensures IsTrace(v, cfg, complete, rows, t) && t == Reaching2(issues, after, Statuses([], map[], []), after)
  {
    hide AreIssues, AreRevocations, AreReleases, AreStates, AreStatuses, AreReissues, CountPresent;
    t := Reaching2(issues, after, Statuses([], map[], []), after);
    NothingSince(v, cfg, complete, map[], after);
  }

  lemma SecondTrace(v: View, cfg: Config, complete: bool, rows: Rows, t1: Trace, statuses: Statuses, after: Rows) returns (t: Trace)
    requires IsTrace(v, cfg, complete, rows, t1) && AreStatuses(v, cfg, t1.rows2, after, statuses)
    ensures IsTrace(v, cfg, complete, rows, t) && t == Reaching2(t1.issues, t1.rows2, statuses, after)
  {
    hide AreIssues, AreRevocations, AreReleases, AreStates, AreStatuses, AreReissues, CountPresent;
    NothingSince(v, cfg, complete, map[], after);
    t := Reaching2(t1.issues, t1.rows2, statuses, after);
  }

  lemma ThirdTrace(v: View, cfg: Config, complete: bool, rows: Rows, t2: Trace, detail: map<string, AgCard>, asked: seq<Read>,
                   revoked: Revocations, after: Rows, released: Releases) returns (t: Trace)
    requires IsTrace(v, cfg, complete, rows, t2) && AreRevocations(v, cfg, complete, v.index, detail, t2.rows3, after, revoked)
    requires (v.people == map[] ==> revoked.listing == []) && (v.people == map[] || !cfg.supportsRetirement ==> released.listing == [])
    requires CountPresent(v, revoked.calls) <= MAX_EXPIRIES
    requires AreReleases(v.index, detail, after, released) && Remembered(detail, asked) && forall r <- asked :: FromIndex(v.index, r.listed)
    ensures IsTrace(v, cfg, complete, rows, t)
    ensures t == Trace(t2.issues, t2.rows2, t2.statuses, t2.rows3, revoked, after, released,
                       States([], map[], []), after, Reissues([], map[], [], []), after, detail, detail, asked)
  {
    hide AreIssues, AreRevocations, AreReleases, AreStates, AreStatuses, AreReissues, CountPresent,
         Remembered, FromIndex, Grown;
    NothingSince(v, cfg, complete, detail, after);
    GrownFurther(detail, detail, detail);
    t := Trace(t2.issues, t2.rows2, t2.statuses, t2.rows3, revoked, after, released,
               States([], map[], []), after, Reissues([], map[], [], []), after, detail, detail, asked);
  }

  lemma FourthTrace(v: View, cfg: Config, complete: bool, rows: Rows, t3: Trace, detail: map<string, AgCard>, asked: seq<Read>,
                    states: States, after: Rows) returns (t: Trace)
    requires IsTrace(v, cfg, complete, rows, t3) && AreStates(v, cfg, v.index, detail, t3.rows4, after, states)
    requires Grown(t3.detail3, detail) && Remembered(detail, asked) && forall r <- asked :: FromIndex(v.index, r.listed)
    requires t3.retries == Reissues([], map[], [], [])
    ensures t == t3.(states := states, rows5 := after, rows6 := after, detail := detail, asked := asked)
    ensures IsTrace(v, cfg, complete, rows, t)
  {
    hide AreIssues, AreRevocations, AreReleases, AreStates, AreStatuses, AreReissues, CountPresent,
         Remembered, FromIndex, Grown;
    NoReissues(v, cfg, after);
    t := t3.(states := states, rows5 := after, rows6 := after, detail := detail, asked := asked);
  }

  lemma FifthTrace(v: View, cfg: Config, complete: bool, rows: Rows, t4: Trace, retries: Reissues, after: Rows) returns (t: Trace)
    requires IsTrace(v, cfg, complete, rows, t4) && AreReissues(v, cfg, t4.rows5, after, retries)
    requires forall k <- retries.listing :: k in t4.rows5 && Retryable(t4.rows5[k])
    ensures t == t4.(retries := retries, rows6 := after)
    ensures IsTrace(v, cfg, complete, rows, t)
  {
    hide AreIssues, AreRevocations, AreReleases, AreStates, AreStatuses, AreReissues, CountPresent, Remembered, FromIndex, Grown, Retryable;
    t := t4.(retries := retries, rows6 := after);
  }

  // ---- why its calls are made ----

  lemma IssuesAreJustified(v: View, cfg: Config, complete: bool, rows: Rows, after: Rows, issues: Issues)
    requires AreIssues(v, cfg, rows, after, issues)
    ensures AllJustified(v, complete, issues.calls)
  {
    hide MayRetry, MayIssue;
    IssuesMayBe(v, cfg, rows, issues.steps);
    forall c | c in issues.calls ensures Justified(v, complete, c) {
      var cred :| cred in CredsOf(v, c.key.person) && MayIssue(v, c.key, cred);
      MayIssueMayRetry(v, c.key, cred);
    }
  }

  lemma RevocationsAreJustified(v: View, cfg: Config, complete: bool, rows: Rows, listing: seq<Key>)
    requires (forall k <- listing :: k in rows) && (v.people == map[] ==> listing == [])
    ensures AllJustified(v, complete, Phase3All(v, cfg, complete, rows, listing))
  {
    hide Evidence;
    if v.people != map[] {
      RevokedOnEvidence(v, cfg, complete, rows, listing);
    }
  }

  lemma RetriesAreJustified(v: View, cfg: Config, complete: bool, before: Rows, after: Rows, retries: Reissues)
    requires AreReissues(v, cfg, before, after, retries)
    ensures AllJustified(v, complete, retries.calls)
  {
    hide DedupeHit, AfterRetry, RetryCalls, RetryPushes;
    RetriesAreTried(v, cfg, retries.listing, retries.tried);
    forall c | c in retries.calls ensures Justified(v, complete, c) {
      assert MayRetry(v, c.key, CredOf(v, c.key).value);
    }
  }

  /** Whatever a cycle asks of AccessGrid has its reason, however far the cycle gets. */
  lemma TraceIsJustified(v: View, cfg: Config, complete: bool, rows: Rows, t: Trace, before: seq<Call>, after: seq<Call>)
    requires IsTrace(v, cfg, complete, rows, t)
    requires after == before + t.issues.calls + t.statuses.calls + t.revoked.calls + t.retries.calls
    ensures Extends(v, complete, before, after)
  {
    hide Justified, AreIssues, AreReissues, CountPresent, AreReleases, AreStates, Retryable, Grown,
         Remembered, FromIndex, Phase2All, Phase3All, ExpiredAll, ExpiredKnown, AfterTold, Phase2Asks, AfterAnswered;
    assert after[|before|..] == t.issues.calls + t.statuses.calls + t.revoked.calls + t.retries.calls;
    IssuesAreJustified(v, cfg, complete, rows, t.rows2, t.issues);
    StatusesAreJustified(v, cfg, complete, t.rows2, t.statuses.listing);
    RevocationsAreJustified(v, cfg, complete, t.rows3, t.revoked.listing);
    RetriesAreJustified(v, cfg, complete, t.rows5, t.rows6, t.retries);
  }

  /** And what it tells the PACS beside its retirements is about credentials read and not held. */
  lemma TraceIsAllowed(v: View, cfg: Config, complete: bool, rows: Rows, t: Trace)
    requires IsTrace(v, cfg, complete, rows, t)
    ensures PacsCallsAllowed(v, t.issues.pushes) && PacsCallsAllowed(v, t.states.calls) && PacsCallsAllowed(v, t.retries.pushes)
  {
    hide AreStatuses, AreRevocations, AreReleases, CountPresent, Retryable, Grown, Remembered, FromIndex, PacsCallsAllowed, Followed, Phase4All,
         RowsAsTried, RetryCalls, RetryPushes, Walked;
    IssuesAllowed(v, cfg, rows, t.rows2, t.issues);
    StatesAllowed(v, cfg, t.detail, t.rows4, t.states);
    RetriesAllowed(v, cfg, t.rows5, t.rows6, t.retries);
  }

  lemma IssuesAllowed(v: View, cfg: Config, rows: Rows, after: Rows, issues: Issues)
    requires AreIssues(v, cfg, rows, after, issues)
    ensures PacsCallsAllowed(v, issues.pushes)
  {
    hide PacsCallsAllowed, StepPushes, AreSteps;
    PushesMayBe(v, cfg, rows, issues.steps);
  }

  lemma RetriesAllowed(v: View, cfg: Config, before: Rows, after: Rows, retries: Reissues)
    requires AreReissues(v, cfg, before, after, retries)
    ensures PacsCallsAllowed(v, retries.pushes)
  {
    hide DedupeHit, AfterRetry, RetryCalls, RetryPushes;
    RetriesAreTried(v, cfg, retries.listing, retries.tried);
    forall c | c in retries.pushes ensures PacsCallAllowed(v, c) {
      assert MayRetry(v, c.key, CredOf(v, c.key).value);
    }
  }

  lemma StatesAllowed(v: View, cfg: Config, detail: map<string, AgCard>, rows: Rows, r: States)
    requires (forall k <- r.listing :: k in rows)
    requires r.calls == (if cfg.supportsWriteback
                         then Phase4All(v, cfg, v.index, detail, OfferWalk, rows, r.listing) + Phase4All(v, cfg, v.index, detail, GateWalk, rows, r.listing)
                         else [])
                        + (if cfg.supportsStatus then Phase4All(v, cfg, v.index, detail, FollowWalk, rows, r.listing) else [])
    ensures PacsCallsAllowed(v, r.calls)
  {
    hide Phase4All, PacsCallAllowed;
    WalkAllowed(v, cfg, v.index, detail, OfferWalk, rows, r.listing);
    WalkAllowed(v, cfg, v.index, detail, GateWalk, rows, r.listing);
    WalkAllowed(v, cfg, v.index, detail, FollowWalk, rows, r.listing);
  }

  lemma {:induction false} WalkAllowed(v: View, cfg: Config, index: Index, detail: map<string, AgCard>, walk: Walk, rows: Rows, listing: seq<Key>)
    requires forall k <- listing :: k in rows
    ensures PacsCallsAllowed(v, Phase4All(v, cfg, index, detail, walk, rows, listing))
  {
    if listing != [] {
      hide Phase4Asks, PacsCallAllowed;
      var k := listing[|listing| - 1];
      WalkAllowed(v, cfg, index, detail, walk, rows, listing[..|listing| - 1]);
      AskedIsAllowed(v, cfg, index, detail, walk, k, rows[k]);
    }
  }

  lemma AskedIsAllowed(v: View, cfg: Config, index: Index, detail: map<string, AgCard>, walk: Walk, k: Key, row: Row)
    ensures forall c <- Phase4Asks(v, cfg, index, detail, walk, k, row) :: PacsCallAllowed(v, c)
  {
    hide CardsOf, AgState, DesiredStatus, Offered, Driven;
    if CredOf(v, k).Some? {
      assert CredOf(v, k).value in CredsOf(v, k.person);
    }
  }
}

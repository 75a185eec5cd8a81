/** What a whole cycle does about one credential, phase after phase: a pass whose state moved, a held
    credential, and an issue that failed. */
module WholeCycle {
  import opened Base
  import opened Export
  import opened Pacs
  import opened Ledger
  import opened CardChanges
  import opened Flush
  import opened AgCards
  import opened Snapshot
  import opened Tracking
  import opened Passes
  import opened Decisions
  import opened Retirement
  import opened Asks
  import opened Issuing
  import opened PhaseRecords
  import opened Traces
  import opened Adapter
  import opened PassCalls
  import opened PassLedger
  import opened OneRowCycle

  /** All a cycle asks of AccessGrid, and all it tells the PACS, in order. */
  function AsksIn(t: Trace): seq<Call> {
    t.issues.calls + t.statuses.calls + t.revoked.calls + t.retries.calls
  }

  function TellsIn(t: Trace): seq<PacsCall> {
    t.issues.pushes + t.revoked.retired + t.released.calls + t.states.calls + t.retries.pushes
  }

  // ---- a row a phase owes nothing ----

  lemma QuietInPhase2(v: View, cfg: Config, before: Rows, after: Rows, r: Statuses, k: Key)
    requires AreStatuses(v, cfg, before, after, r) && (k in before ==> Phase2Asks(v, cfg, k, before[k]) == [])
    ensures SameAt(before, after, k)
  {
    hide Phase2Asks, Phase2All;
    if k in r.listing {
      assert SameAt(AfterAnswered(before, Phase2Asks(v, cfg, k, before[k]), AnswerAt(r.answers, k)), after, k);
    }
  }

  lemma QuietInPhase3(v: View, cfg: Config, complete: bool, index: Index, detail: map<string, AgCard>, before: Rows, after: Rows, r: Revocations, k: Key)
    requires AreRevocations(v, cfg, complete, index, detail, before, after, r)
    requires k in before ==> forall expired: nat :: Phase3Asks(v, cfg, complete, k, before[k], expired) == []
    ensures SameAt(before, after, k) && k !in r.told && CallsFor(k, r.calls) == [] && ToldAbout(k, r.retired) == []
  {
    hide Phase3All, Phase3Asks, ExpiredAll, ExpiredKnown, CallsFor, ToldAbout;
    Phase3For(v, cfg, complete, before, r.listing, k);
    NotToldOf(k, r.calls);
    ExpiredFor(v, cfg, index, detail, before, r.listing, r.told, k);
    assert SameAt(AfterTold(before, k, ToldAt(r.told, k)), after, k);
  }

  lemma FollowedInPhase4(v: View, cfg: Config, index: Index, detail: map<string, AgCard>, before: Rows, after: Rows, r: States, k: Key)
    requires AreStates(v, cfg, index, detail, before, after, r)
    requires k in before ==> Phase4Asks(v, cfg, index, detail, FollowWalk, k, before[k]) == []
    ensures SameAt(if cfg.supportsStatus && k in r.listing then AfterFollowed(v, before, k, None) else before, after, k)
  {
    hide Phase4Asks, Phase4All, AfterFollowed;
    if cfg.supportsStatus && k in r.listing {
      assert SameAt(AfterFollowed(v, before, k, TakenAt(r.taken, k)), after, k);
    }
  }

  /** A row without a pass is nobody's business between phases 1 and 5. */
  lemma PasslessStays(v: View, cfg: Config, complete: bool, rows: Rows, t: Trace, k: Key)
    requires IsTrace(v, cfg, complete, rows, t) && k in t.rows2 && !HasPass(t.rows2[k])
    ensures SameAt(t.rows2, t.rows5, k)
  {
    hide AreIssues, AreStatuses, AreRevocations, AreReleases, AreStates, AreReissues, Remembered, FromIndex, Grown,
         CountPresent, Retryable, AgState, CardsOf, CredOf, Phase3Reason;
    QuietInPhase2(v, cfg, t.rows2, t.rows3, t.statuses, k);
    QuietInPhase3(v, cfg, complete, v.index, t.detail3, t.rows3, t.rows4, t.revoked, k);
    FollowedInPhase4(v, cfg, v.index, t.detail, t.rows4, t.rows5, t.states, k);
  }

  // ---- a pass whose state moved ----

  /** Of phase 2's calls, a row's own. */
  lemma StatusesFor(v: View, cfg: Config, complete: bool, rows: Rows, t: Trace, k: Key)
    requires IsTrace(v, cfg, complete, rows, t) && ListsAll(t.statuses.listing, t.rows2) && k in t.rows2
    ensures CallsFor(k, t.statuses.calls) == Phase2Asks(v, cfg, k, t.rows2[k])
  {
    hide AreIssues, AreRevocations, AreReleases, AreStates, AreReissues, Phase2Asks, Phase2All, Remembered, FromIndex, Grown,
         CallsFor, CountPresent, Retryable, RowsAsAnswered;
    Phase2For(v, cfg, t.rows2, t.statuses.listing, k);
  }

  /** And phase 1's of it. */
  lemma RefreshedFor(v: View, cfg: Config, complete: bool, rows: Rows, t: Trace, k: Key)
    requires IsTrace(v, cfg, complete, rows, t) && (forall pid <- v.creds :: pid in t.issues.order) && PassAt(rows, k)
    ensures k in t.rows2 && k in Refreshed(v, rows, k)
    ensures t.rows2[k] == if ComesTo(v, k) then Refreshed(v, rows, k)[k] else rows[k]
    ensures forall c <- t.issues.calls :: c.key != k
  {
    hide AreIssues, AreStatuses, AreRevocations, AreReleases, AreStates, AreReissues, Remembered, FromIndex, Grown,
         CountPresent, Retryable, ComesTo, AgState;
    PassAfterPhase1(v, cfg, rows, t.rows2, t.issues, k);
  }

  lemma CarriesNothing(cred: Credential, state: string)
    ensures Carries(cred, state) == Nothing <==>
              || cred.status == AwaitingInstall
              || (if cred.status == Active then state != "suspended" else state != "active" && (state != "created" || cred.allocateIdentity))
    ensures Carries(cred, state) != Terminate
  {
  }

  /** Phase 2's promise to leave alone a pass whose state moved since it was last known, over a whole
      cycle: what it asks, and when it asks nothing. */
  lemma MovedStateIsCarried(v: View, cfg: Config, complete: bool, rows: Rows, t: Trace, k: Key)
    requires IsTrace(v, cfg, complete, rows, t) && ComesToAll(v, cfg, t) && !cfg.dryRun
    requires k in rows && StateMoved(v, k, rows[k])
    ensures Phase2Asks(v, cfg, k, rows[k]) == []
    ensures var cred, id := CredOf(v, k).value, rows[k].agCardId.value;
            var state, seen := AgState(v, rows[k], k, rows[k].syncRef), AgState(v, rows[k], k, "");
            && CallsFor(k, t.statuses.calls) ==
               CallAs(k, id, if Refreshing(v, k) && seen == state then Carries(cred, state) else Nothing)
            && (CallsFor(k, t.statuses.calls) == [] <==>
                  || !Refreshing(v, k) || seen != state || cred.status == AwaitingInstall
                  || (if cred.status == Active then state != "suspended"
                      else state != "active" && (state != "created" || cred.allocateIdentity)))
  {
    RefreshedIsCarried(v, cfg, k, rows);
    RefreshesTheRead(v, k);
    RefreshedFor(v, cfg, complete, rows, t, k);
    StatusesFor(v, cfg, complete, rows, t, k);
    hide IsTrace, Refreshed, Phase2Asks, CallsFor, AgState, CredOf, Carries, ComesTo, Refreshing;
    CarriesNothing(CredOf(v, k).value, AgState(v, rows[k], k, rows[k].syncRef));
  }

  /** Phase 1 comes to a credential read of an active cardholder. */
  predicate Refreshing(v: View, k: Key) {
    k.person in v.people && v.people[k.person].active
  }

  lemma RefreshesTheRead(v: View, k: Key)
    requires CredOf(v, k).Some? && !Held(v, k) && CredOf(v, k).value.triggerActive
    ensures ComesTo(v, k) <==> Refreshing(v, k)
  {
    assert IsItem(v, Item(k, CredOf(v, k).value)) <==> Refreshing(v, k);
  }

  // ---- an issue that failed ----

  lemma {:induction false} CalledAtStep(steps: seq<Step>, c: Call) returns (i: nat)
    requires c in StepCalls(steps)
    ensures i < |steps| && c in AttemptCalls(steps[i].key, steps[i].outcome)
  {
    hide AttemptCalls;
    var front := steps[..|steps| - 1];
    if c in StepCalls(front) {
      i := CalledAtStep(front, c);
    } else {
      i := |steps| - 1;
    }
  }

  /** A provision of phase 1 that failed leaves its row pending, an error more counted, and none of
      the phases to come but the fifth touches it. */
  lemma FailedIsCounted(v: View, cfg: Config, complete: bool, rows: Rows, t: Trace, k: Key)
    requires IsTrace(v, cfg, complete, rows, t) && UniqueIds(v) && Call.Provision(k, None) in t.issues.calls
    ensures SameAt(ErrorRecorded(Marked(rows, k), k), t.rows5, k) && Retries(v, cfg, k)
  {
    hide AreStatuses, AreRevocations, AreReleases, AreStates, AreReissues, Remembered, FromIndex, Grown,
         CountPresent, Retryable, MayIssue, DedupeHit, Queue, Distinctly, UniqueIds, CountIssued, StepCalls, AfterSteps, Walked, Retries;
    var steps := t.issues.steps;
    var i := CalledAtStep(steps, Call.Provision(k, None));
    assert steps[i].outcome == Errored && steps[i].key == k;
    WaitingIsAsked(v, cfg, rows, t.issues.order, steps, t.rows2, i);
    WaitingRetries(v, cfg, rows, k, steps[i].cred);
    PasslessStays(v, cfg, complete, rows, t, k);
  }

  lemma WaitingRetries(v: View, cfg: Config, rows: Rows, k: Key, cred: Credential)
    requires UniqueIds(v) && Waiting(v, cfg, rows, k, cred) && !cfg.dryRun
    ensures Retries(v, cfg, k)
  {
    hide DedupeHit;
    OnlyCredential(v.creds[k.person], cred);
  }

  /** So phase 5 of the very same cycle asks again, exactly while fewer than three failures are counted. */
  lemma FailedIsRetriedAtOnce(v: View, cfg: Config, complete: bool, rows: Rows, t: Trace, k: Key)
    requires IsTrace(v, cfg, complete, rows, t) && ComesToAll(v, cfg, t) && UniqueIds(v) && Call.Provision(k, None) in t.issues.calls
    ensures var marked := ErrorRecorded(Marked(rows, k), k);
            && k in marked && marked[k].retries == (if k in rows then rows[k].retries else 0) + 1
            && (k in t.retries.tried <==> marked[k].retries < MAX_RETRIES)
            && SameAt(if k in t.retries.tried then AfterAttempt(marked, k, t.retries.tried[k]) else marked, t.rows6, k)
  {
    FailedIsCounted(v, cfg, complete, rows, t, k);
    var marked := ErrorRecorded(Marked(rows, k), k);
    hide AreIssues, AreStatuses, AreRevocations, AreReleases, AreStates, Remembered, FromIndex, Grown,
         CountPresent, Retries, UniqueIds, RetryCalls, Phase3Whole;
    assert k in t.retries.listing <==> marked[k].retries < MAX_RETRIES;
    RetriedRow(v, cfg, t.rows5, t.rows6, t.retries, marked, k);
  }

  lemma RetriedRow(v: View, cfg: Config, before: Rows, after: Rows, r: Reissues, marked: Rows, k: Key)
    requires AreReissues(v, cfg, before, after, r) && SameAt(marked, before, k) && Retries(v, cfg, k)
    ensures k in r.tried <==> k in r.listing
    ensures SameAt(if k in r.tried then AfterAttempt(marked, k, r.tried[k]) else marked, after, k)
  {
    hide Retries, RetryCalls, NotRetried;
    if k in r.tried {
      assert SameAt(AfterRetry(v, cfg, before, k, OutcomeAt(r.tried, k)), after, k);
    }
  }

  // ---- a held credential ----

  lemma {:induction false} HeldInPhase1(v: View, cfg: Config, rows: Rows, steps: seq<Step>, k: Key)
    requires AreSteps(v, cfg, rows, steps) && UniqueIds(v) && Held(v, k) && forall x <- Items(steps) :: IsItem(v, x)
    ensures SameAt(rows, AfterSteps(v, cfg, rows, steps), k)
  {
    hide IsStep, AfterStep, UniqueIds, Held, IsItem, StepCalls, CountIssued;
    if steps != [] {
      var front, last := steps[..|steps| - 1], steps[|steps| - 1];
      assert steps == front + [last];
      assert Items(steps) == Items(front) + [Item(last.key, last.cred)];
      assert Item(last.key, last.cred) in Items(steps);
      StepsBefore(v, cfg, rows, steps);
      HeldInPhase1(v, cfg, rows, front, k);
      HeldStep(v, cfg, AfterSteps(v, cfg, rows, front), CountIssued(StepCalls(front)), last, k);
    }
  }

  lemma HeldStep(v: View, cfg: Config, rows: Rows, issued: nat, s: Step, k: Key)
    requires IsStep(v, cfg, rows, issued, s) && UniqueIds(v) && Held(v, k) && IsItem(v, Item(s.key, s.cred))
    ensures SameAt(rows, AfterStep(v, cfg, rows, s), k)
  {
    if s.key == k {
      OnlyCredential(CredsOf(v, k.person), s.cred);
    } else {
      StepOnlyAt(v, cfg, rows, s);
      hide AfterStep;
      assert k in rows <==> k in AfterStep(v, cfg, rows, s);
    }
  }

  lemma HeldAfterPhase1(v: View, cfg: Config, rows: Rows, after: Rows, r: Issues, k: Key)
    requires AreIssues(v, cfg, rows, after, r) && UniqueIds(v) && Held(v, k)
    ensures SameAt(rows, after, k)
  {
    hide UniqueIds, Held, Queue, AreSteps, AfterSteps, StepCalls, CountIssued, IsItem;
    QueuedFrom(v, r.order);
    HeldInPhase1(v, cfg, rows, r.steps, k);
  }

  lemma HeldAsksNothing(v: View, cfg: Config, complete: bool, index: Index, detail: map<string, AgCard>, k: Key, row: Row)
    requires Held(v, k)
    ensures Phase2Asks(v, cfg, k, row) == [] && forall expired: nat :: Phase3Asks(v, cfg, complete, k, row, expired) == []
    ensures Phase4Asks(v, cfg, index, detail, FollowWalk, k, row) == []
    ensures !Retries(v, cfg, k) && forall rows :: NotRetried(v, cfg, rows, k) == rows
  {
    hide AgState;
  }

  /** Of a held credential AccessGrid is asked nothing, and the PACS is told at most to retire; its row
      changes at most in its remembered state. */
  lemma HeldIsLeftAlone(v: View, cfg: Config, complete: bool, rows: Rows, t: Trace, k: Key)
    requires IsTrace(v, cfg, complete, rows, t) && UniqueIds(v) && Held(v, k)
    ensures forall c <- AsksIn(t) :: c.key != k
    ensures ToldAbout(k, TellsIn(t)) == ToldAbout(k, t.released.calls)
    ensures SameAt(rows, t.rows4, k)
    ensures SameAt(if cfg.supportsStatus && k in t.states.listing then AfterFollowed(v, rows, k, None) else rows, t.rows6, k)
  {
    HeldIsUnasked(v, cfg, complete, rows, t, k);
    HeldIsUntold(v, cfg, complete, rows, t, k);
    HeldRow(v, cfg, complete, rows, t, k);
  }

  lemma HeldIsUnasked(v: View, cfg: Config, complete: bool, rows: Rows, t: Trace, k: Key)
    requires IsTrace(v, cfg, complete, rows, t) && UniqueIds(v) && Held(v, k)
    ensures forall c <- AsksIn(t) :: c.key != k
  {
    hide IsTrace, UniqueIds, Held, Justified;
    TraceIsJustified(v, cfg, complete, rows, t, [], AsksIn(t));
    assert AsksIn(t)[0..] == AsksIn(t) && [] + t.issues.calls == t.issues.calls;
    forall c | c in AsksIn(t) ensures c.key != k {
      HeldGetsNothing(v, complete, c, PacsCall.SetStatus(k, true));
    }
  }

  lemma HeldIsUntold(v: View, cfg: Config, complete: bool, rows: Rows, t: Trace, k: Key)
    requires IsTrace(v, cfg, complete, rows, t) && UniqueIds(v) && Held(v, k)
    ensures ToldAbout(k, TellsIn(t)) == ToldAbout(k, t.released.calls)
  {
    hide AreIssues, AreStatuses, AreRevocations, AreReleases, AreStates, AreReissues, Remembered, FromIndex, Grown,
         CountPresent, Retryable, PacsCallAllowed, UniqueIds, ToldAbout, Held, Phase2Asks, Phase3Asks, NotRetried, Retries;
    TraceIsAllowed(v, cfg, complete, rows, t);
    forall c | c in t.issues.pushes + t.states.calls + t.retries.pushes ensures c.key != k {
      HeldGetsNothing(v, complete, Call.Provision(k, None), c);
    }
    NotTold(k, t.issues.pushes);
    NotTold(k, t.states.calls);
    NotTold(k, t.retries.pushes);
    if k in t.rows3 { HeldAsksNothing(v, cfg, complete, v.index, t.detail3, k, t.rows3[k]); }
    QuietInPhase3(v, cfg, complete, v.index, t.detail3, t.rows3, t.rows4, t.revoked, k);
    JoinTold(k, t.issues.pushes, t.revoked.retired);
    JoinTold(k, t.issues.pushes + t.revoked.retired, t.released.calls);
    JoinTold(k, t.issues.pushes + t.revoked.retired + t.released.calls, t.states.calls);
    JoinTold(k, t.issues.pushes + t.revoked.retired + t.released.calls + t.states.calls, t.retries.pushes);
  }

  lemma NotTold(k: Key, calls: seq<PacsCall>)
    requires forall c <- calls :: c.key != k
    ensures ToldAbout(k, calls) == []
  {
    NoneKept((c: PacsCall) => c.key == k, calls);
  }

  lemma HeldRow(v: View, cfg: Config, complete: bool, rows: Rows, t: Trace, k: Key)
    requires IsTrace(v, cfg, complete, rows, t) && UniqueIds(v) && Held(v, k)
    ensures SameAt(rows, t.rows4, k)
    ensures SameAt(if cfg.supportsStatus && k in t.states.listing then AfterFollowed(v, rows, k, None) else rows, t.rows6, k)
  {
    hide AreIssues, AreStatuses, AreRevocations, AreReleases, AreStates, AreReissues, Remembered, FromIndex, Grown,
         CountPresent, Retryable, UniqueIds, Held, Phase2Asks, Phase3Asks, Phase4Asks, NotRetried, Retries, AgState, Noticed;
    HeldAfterPhase1(v, cfg, rows, t.rows2, t.issues, k);
    if k in rows { HeldAsksNothing(v, cfg, complete, v.index, t.detail, k, rows[k]); }
    QuietInPhase2(v, cfg, t.rows2, t.rows3, t.statuses, k);
    QuietInPhase3(v, cfg, complete, v.index, t.detail3, t.rows3, t.rows4, t.revoked, k);
    FollowedInPhase4(v, cfg, v.index, t.detail, t.rows4, t.rows5, t.states, k);
    HeldInPhase5(v, cfg, t.rows5, t.rows6, t.retries, k);
  }

  lemma HeldInPhase5(v: View, cfg: Config, before: Rows, after: Rows, r: Reissues, k: Key)
    requires AreReissues(v, cfg, before, after, r) && Held(v, k)
    ensures SameAt(before, after, k)
  {
    hide Held, RetryCalls, DedupeHit;
    if k in r.listing {
      assert !Retries(v, cfg, k) && NotRetried(v, cfg, before, k) == before by {
        HeldAsksNothing(v, cfg, true, v.index, map[], k, Row(None, "", "", "", false, 0));
      }
      assert SameAt(AfterRetry(v, cfg, before, k, OutcomeAt(r.tried, k)), after, k);
    }
  }

  /** Phase 3's second pass retires for the ith row it lists: a pass of ours the PACS holds written cards
      for, whose own cards name something deleted, before enough has been retired. */
  predicate ReleasedAt(index: Index, detail: map<string, AgCard>, rows: Rows, r: Releases, i: nat)
    requires i < |r.listing| && forall x <- r.listing :: x in rows
  {
    var k := r.listing[i];
    && Releasable(r.written, k, rows[k]) && Released(CardsOf(index, detail, k, rows[k])) != []
    && Total(Retirements(index, detail, rows, r.written, r.listing[..i], r.counts)) < MAX_RETIREMENTS
  }

  /** So told of a pass. */
  predicate RetiresOnly(k: Key, told: seq<PacsCall>, identities: seq<Identity>) {
    |told| == 1 && told[0].Retire? && told[0].key == k && told[0].identities == identities
  }

  lemma ReleasedOf(index: Index, detail: map<string, AgCard>, rows: Rows, r: Releases, i: nat)
    requires AreReleases(index, detail, rows, r) && Once(r.listing) && i < |r.listing|
    ensures var k := r.listing[i];
            var told := ToldAbout(k, r.calls);
            if ReleasedAt(index, detail, rows, r, i) then RetiresOnly(k, told, Released(CardsOf(index, detail, k, rows[k]))) else told == []
  {
    hide ToldAbout, CardsOf, Released, Retirements, Total, CallsKnown, Releasable;
    ReleasedInTurn(index, detail, rows, r.written, r.listing, r.counts, i);
  }

  lemma ReleasesIn(v: View, cfg: Config, complete: bool, rows: Rows, t: Trace)
    requires IsTrace(v, cfg, complete, rows, t) && ComesToAll(v, cfg, t)
    ensures AreReleases(v.index, t.detail3, t.rows4, t.released) && Once(t.released.listing) && forall x <- t.released.listing :: x in t.rows4
    ensures Grown(t.detail3, t.detail)
  {
    hide AreIssues, AreStatuses, AreRevocations, AreStates, AreReissues, Remembered, FromIndex, Grown,
         CountPresent, Retryable, Retirements, CallsKnown;
  }

  /** That pass looks at no hold: exactly when something is retired for a held credential, and what. */
  lemma HeldIsRetired(v: View, cfg: Config, complete: bool, rows: Rows, t: Trace, k: Key, i: nat)
    requires IsTrace(v, cfg, complete, rows, t) && ComesToAll(v, cfg, t) && UniqueIds(v) && Held(v, k)
    requires i < |t.released.listing| && t.released.listing[i] == k
    ensures (forall x <- t.released.listing :: x in t.rows4) && k in rows && t.rows4[k] == rows[k]
    ensures var told, gone := ToldAbout(k, TellsIn(t)), Released(CardsOf(v.index, t.detail3, k, rows[k]));
            if ReleasedAt(v.index, t.detail3, t.rows4, t.released, i) then RetiresOnly(k, told, gone) else told == []
  {
    hide IsTrace, ComesToAll, UniqueIds, Held, ToldAbout, TellsIn, CardsOf, Released, AsksIn, AfterFollowed, AreReleases, ReleasedAt;
    HeldIsLeftAlone(v, cfg, complete, rows, t, k);
    ReleasesIn(v, cfg, complete, rows, t);
    ReleasedOf(v.index, t.detail3, t.rows4, t.released, i);
  }

  /** The ledger of a pass told at most to retire. */
  lemma LedgerOnceRetired(ledger: Ledger.Table, holders: Holders, pair: bool, calls: seq<PacsCall>, k: Key, identities: seq<Identity>, due: bool)
    requires k.person in holders && Entries(ledger, k) != []
    requires if due then RetiresOnly(k, ToldAbout(k, calls), identities) else ToldAbout(k, calls) == []
    ensures var entries, gone := Entries(ledger, k), set x <- identities :: x.card;
            var after := Entries(LedgerAfterAll(ledger, holders, pair, calls), k);
            && after == (if due then Retired(entries, gone) else entries)
            && (after != entries <==> due && exists e <- entries :: Retirable(e, gone))
  {
    hide ToldAbout, LedgerAfterAll, EntriesAfterAll, Cards, Present, Retirable;
    var entries, told := Entries(ledger, k), ToldAbout(k, calls);
    forall c | c in calls && c.key == k ensures RecordedAlready(c, Cards(entries)) {
      ToldIn(k, calls, c);
      assert due ==> told == [told[0]];
    }
    LedgerFollows(ledger, holders, pair, calls, k);
    AtMostOne(entries, Present(holders[k.person].slots), told);
    RetiredChanges(entries, set x <- identities :: x.card);
  }

  /** And its ledger changes exactly when one of those identities is a recorded card, written, not
      dormant, and not on its way out already. */
  lemma HeldLedgerChanges(v: View, cfg: Config, complete: bool, rows: Rows, t: Trace, k: Key, i: nat,
                          ledger: Ledger.Table, holders: Holders, pair: bool)
    requires IsTrace(v, cfg, complete, rows, t) && ComesToAll(v, cfg, t) && UniqueIds(v) && Held(v, k)
    requires i < |t.released.listing| && t.released.listing[i] == k
    requires k.person in holders && Entries(ledger, k) != []
    ensures (forall x <- t.released.listing :: x in t.rows4) && k in rows
    ensures var due := ReleasedAt(v.index, t.detail3, t.rows4, t.released, i);
            var entries, gone := Entries(ledger, k), set x <- Released(CardsOf(v.index, t.detail3, k, rows[k])) :: x.card;
            var after := Entries(LedgerAfterAll(ledger, holders, pair, TellsIn(t)), k);
            && after == (if due then Retired(entries, gone) else entries)
            && (after != entries <==> due && exists e <- entries :: Retirable(e, gone))
  {
    hide IsTrace, ComesToAll, UniqueIds, Held, ReleasedAt, Released, CardsOf, ToldAbout, TellsIn, LedgerAfterAll, Retirable, RetiresOnly;
    HeldIsRetired(v, cfg, complete, rows, t, k, i);
    LedgerOnceRetired(ledger, holders, pair, TellsIn(t), k, Released(CardsOf(v.index, t.detail3, k, rows[k])),
                      ReleasedAt(v.index, t.detail3, t.rows4, t.released, i));
  }

  lemma ToldIn(k: Key, calls: seq<PacsCall>, c: PacsCall)
    requires c in calls && c.key == k
    ensures c in ToldAbout(k, calls)
  {
  }

  lemma RetiredChanges(entries: seq<Entry>, gone: set<Card>)
    ensures Retired(entries, gone) != entries <==> exists e <- entries :: Retirable(e, gone)
  {
    if e :| e in entries && Retirable(e, gone) {
      var j :| 0 <= j < |entries| && entries[j] == e;
      assert Retired(entries, gone)[j] != entries[j];
    }
  }

  /** Its row is exactly as it was unless the status loop remembers a state it does not translate. */
  lemma HeldRowStays(v: View, cfg: Config, complete: bool, rows: Rows, t: Trace, k: Key)
    requires IsTrace(v, cfg, complete, rows, t) && ComesToAll(v, cfg, t) && UniqueIds(v) && Held(v, k)
    ensures SameAt(rows, t.rows6, k) <==> k !in rows || !cfg.supportsStatus || !Untranslated(v, k, rows[k])
  {
    hide IsTrace, ComesToAll, UniqueIds, Held, Untranslated, AfterFollowed;
    HeldRow(v, cfg, complete, rows, t, k);
    StatesCover(v, cfg, t, k);
    if k in rows {
      NoticedWhileHeld(v, rows, k);
    }
  }

  /** A pass listed in a state it was not in before, and which no credential status answers to. */
  predicate Untranslated(v: View, k: Key, row: Row) {
    var state := AgState(v, row, k, row.syncRef);
    row.status !in {"deleted", "deduped"} && HasPass(row) && state != "" && state != row.lastKnown && state !in AG_TO_CRED
  }

  lemma StatesCover(v: View, cfg: Config, t: Trace, k: Key)
    requires ComesToAll(v, cfg, t)
    ensures k in t.states.listing <==> k in t.rows4
  {
    hide Phase3Whole, Retryable;
  }

  lemma NoticedWhileHeld(v: View, rows: Rows, k: Key)
    requires Held(v, k) && k in rows
    ensures SameAt(rows, AfterFollowed(v, rows, k, None), k) <==> !Untranslated(v, k, rows[k])
    ensures k in AfterFollowed(v, rows, k, None)
  {
    hide AgState, Held;
  }

  // ---- there is one ----

  const RETIRING_CONFIG := Config(0, false, "", false, true, true, true)

  /** A pass of one card, which AccessGrid says is deleted. */
  function DeadCard(c: Card): AgCard {
    AgCard("pass", c.facility, c.number, "deleted", "", "", "", "", None, None, [], [], [], [])
  }

  function HeldCredential(k: Key): Credential {
    Credential(k.credential, "", "", true, true, Suspended, None, None, true)
  }

  const PASS_ROW := Row(Some("pass"), "active", "active", "", false, 0)

  function HeldView(k: Key, c: Card): View {
    View(map[k.person := Person("Name", "mail", "", true)], map[k.person := [HeldCredential(k)]],
         Index(map["pass" := DeadCard(c)], map[], map[], map[], map[]), 0)
  }

  function HeldReleases(k: Key, c: Card): Releases {
    Releases([k], {k}, map[k := Some(1)], [PacsCall.Retire(k, Released([DeadCard(c)]), Some(1))])
  }

  function HeldTrace(k: Key, c: Card): Trace {
    var detail, asked := map["pass" := DeadCard(c)], [Read(DeadCard(c), Some(DeadCard(c)))];
    OneTrace(HeldView(k, c), RETIRING_CONFIG, k, HeldCredential(k), map[k := PASS_ROW], HeldReleases(k, c), detail, detail, asked)
  }

  lemma DeadCardIsReleased(c: Card)
    requires c.number != ""
    ensures InIdentities(Released([DeadCard(c)]), c)
  {
    var cards := [DeadCard(c)];
    assert Lower("deleted") == "deleted" && Strip("deleted") == "deleted" by { assert |"deleted"| == 7; }
    assert CardDead(cards[0]);
    assert Occurrences(cards[0])[|Occurrences(cards[0])| - 1] == CardAt(cards[0]);
    assert DeadIn(cards[0], c);
    ReleasedExactly(cards);
    hide Released, Lower, Strip;
  }

  lemma HeldShown(k: Key, c: Card)
    ensures var v := HeldView(k, c);
            && OneRead(v, k, HeldCredential(k)) && Held(v, k) && UniqueIds(v)
            && ResolvedFor(v.index, k, PASS_ROW) == [DeadCard(c)] && FromIndex(v.index, DeadCard(c)) && Driven(PASS_ROW)
  {
    var v := HeldView(k, c);
    OneIsRead(v, k, HeldCredential(k));
    assert Resolve(v.index, "pass", k.person, k.credential, "") == [DeadCard(c)];
    assert DeadCard(c) in Resolve(v.index, "pass", k.person, k.credential, "");
    assert |"active"| == 6 && |"deleted"| == 7 && |"pending"| == 7 && |"deduped"| == 7;
  }

  lemma OneReleased(index: Index, detail: map<string, AgCard>, rows: Rows, k: Key, gone: seq<Identity>, count: Option<nat>)
    requires k in rows && Releasable({k}, k, rows[k]) && gone == Released(CardsOf(index, detail, k, rows[k])) != [] && KnownIn(index, detail, k, rows[k])
    ensures var r := Releases([k], {k}, map[k := count], [PacsCall.Retire(k, gone, count)]);
            AreReleases(index, detail, rows, r) && ReleasedAt(index, detail, rows, r, 0)
  {
    hide CardsOf, Released, KnownIn, Retirements, Total;
    var counts := map[k := count];
    NothingReleased(index, detail, rows, {k}, counts);
    assert [k][..0] == [] && [k][..1] == [k];
    RetirementsStep(index, detail, rows, {k}, [k], 0, counts);
  }

  lemma HeldIsReleasable(k: Key, c: Card)
    requires c.number != ""
    ensures var v, detail, rows := HeldView(k, c), map["pass" := DeadCard(c)], map[k := PASS_ROW];
            && CardsOf(v.index, detail, k, PASS_ROW) == [DeadCard(c)]
            && AreReleases(v.index, detail, rows, HeldReleases(k, c)) && ReleasedAt(v.index, detail, rows, HeldReleases(k, c), 0)
  {
    hide Resolve, ResolvedFor, Released, OneRead, Held, UniqueIds, FromIndex, DeadCard, HeldView, AreReleases, ReleasedAt, KnownIn, DetailedAll, Driven;
    var v, detail, rows := HeldView(k, c), map["pass" := DeadCard(c)], map[k := PASS_ROW];
    HeldShown(k, c);
    DeadCardIsReleased(c);
    HeldIsKnown(k, c);
    OneReleased(v.index, detail, rows, k, Released([DeadCard(c)]), Some(1));
  }

  lemma HeldIsKnown(k: Key, c: Card)
    ensures var v, detail := HeldView(k, c), map["pass" := DeadCard(c)];
            && CardsOf(v.index, detail, k, PASS_ROW) == [DeadCard(c)]
            && KnownIn(v.index, detail, k, PASS_ROW) && Releasable({k}, k, PASS_ROW)
  {
    hide HeldView, Resolve, ResolvedFor, OneRead, Held, UniqueIds, FromIndex, Driven;
    HeldShown(k, c);
    assert DetailedAll(map["pass" := DeadCard(c)], [DeadCard(c)]) == [DeadCard(c)];
    assert PASS_ROW.status != "deduped" by { assert |"active"| == 6; }
  }

  lemma HeldIsCalm(k: Key, c: Card, detail: map<string, AgCard>)
    ensures var v, rows := HeldView(k, c), map[k := PASS_ROW];
            && PassedOver(v, RETIRING_CONFIG, rows, k, HeldCredential(k)) == rows && AfterStatus(v, RETIRING_CONFIG, rows, k) == rows
            && Calm(v, RETIRING_CONFIG, true, detail, rows, k)
  {
    HeldShown(k, c);
    var v := HeldView(k, c);
    hide HeldView, DeadCard, AgState, ResolvedFor, OneRead, UniqueIds, FromIndex, Held, Phase2Asks, Phase3Asks, Phase4Asks, Driven;
    HeldAsksNothing(v, RETIRING_CONFIG, true, v.index, detail, k, PASS_ROW);
  }

  lemma HeldTraceIs(k: Key, c: Card)
    ensures var t := HeldTrace(k, c);
            t.released == HeldReleases(k, c) && t.detail3 == map["pass" := DeadCard(c)] && t.rows4 == map[k := PASS_ROW]
  {
    HeldIsCalm(k, c, map["pass" := DeadCard(c)]);
    hide HeldView, DeadCard, Calm, AfterStatus, PassedOver, Phase2Asks, Phase4Asks, AfterFollowed;
  }

  lemma HeldIsTraced(k: Key, c: Card)
    requires c.number != ""
    ensures var v, t := HeldView(k, c), HeldTrace(k, c);
            IsTrace(v, RETIRING_CONFIG, true, map[k := PASS_ROW], t) && ComesToAll(v, RETIRING_CONFIG, t)
  {
    hide HeldView, DeadCard, IsTrace, ComesToAll, Held, UniqueIds, OneRead, ResolvedFor, FromIndex, CardsOf, Released, AreReleases, ReleasedAt,
         Calm, AfterStatus, PassedOver, Remembered, Grown, OneTrace, HeldCredential, Driven;
    var v, detail, asked := HeldView(k, c), map["pass" := DeadCard(c)], [Read(DeadCard(c), Some(DeadCard(c)))];
    HeldShown(k, c);
    HeldIsReleasable(k, c);
    HeldIsCalm(k, c, detail);
    HeldIsReadBack(c);
    OneIsTraced(v, RETIRING_CONFIG, true, map[k := PASS_ROW], k, HeldCredential(k), HeldReleases(k, c), detail, detail, asked);
  }

  lemma HeldIsReadBack(c: Card)
    ensures var detail := map["pass" := DeadCard(c)];
            Remembered(detail, [Read(DeadCard(c), Some(DeadCard(c)))]) && Grown(detail, detail) && HasPass(PASS_ROW)
  {
  }

  lemma DeadIsUntranslated(k: Key, c: Card)
    ensures Untranslated(HeldView(k, c), k, PASS_ROW)
  {
    HeldShown(k, c);
    assert AgState(HeldView(k, c), PASS_ROW, k, "") == "deleted" by {
      assert Lower("deleted") == "deleted" by { assert |"deleted"| == 7; }
      hide Resolve;
    }
    assert |"active"| == 6 && |"deleted"| == 7 && |"created"| == 7 && |"suspended"| == 9 && |"deduped"| == 7;
    assert "created"[0] == 'c' && "deleted"[0] == 'd' && "deduped"[2] == 'd' && "deleted"[2] == 'l';
  }

  lemma HeldCardRetired(c: Card)
    requires c.number != ""
    ensures var entry := Entry(1, c, Some(true), Settled, false);
            Retired([entry], set x <- Released([DeadCard(c)]) :: x.card) == [entry.(pending := Pending.Delete)]
  {
    DeadCardIsReleased(c);
    hide Released, DeadCard;
    var i :| i in Released([DeadCard(c)]) && i.card == c;
  }

  lemma HeldLedger(k: Key, c: Card, holders: Holders, pair: bool)
    requires c.number != "" && k.person in holders
    ensures var entry := Entry(1, c, Some(true), Settled, false);
            Entries(LedgerAfterAll(map[k := [entry]], holders, pair, TellsIn(HeldTrace(k, c))), k) == [entry.(pending := Pending.Delete)]
  {
    HeldIsTraced(k, c);
    HeldShown(k, c);
    HeldIsReleasable(k, c);
    HeldTraceIs(k, c);
    HeldCardRetired(c);
    hide HeldTrace, HeldView, DeadCard, IsTrace, ComesToAll, Held, UniqueIds, OneRead, ResolvedFor, FromIndex, CardsOf, Released, AreReleases,
         ReleasedAt, LedgerAfterAll, TellsIn, Present, HeldCredential, Retired, Retirable, Driven;
    HeldLedgerChanges(HeldView(k, c), RETIRING_CONFIG, true, map[k := PASS_ROW], HeldTrace(k, c), k, 0,
                      map[k := [Entry(1, c, Some(true), Settled, false)]], holders, pair);
  }

  lemma HeldRemembers(k: Key, c: Card)
    requires c.number != ""
    ensures !SameAt(map[k := PASS_ROW], HeldTrace(k, c).rows6, k)
  {
    HeldIsTraced(k, c);
    HeldShown(k, c);
    DeadIsUntranslated(k, c);
    hide HeldTrace, HeldView, DeadCard, IsTrace, ComesToAll, Held, UniqueIds, OneRead, ResolvedFor, FromIndex, Untranslated, SameAt, HeldCredential;
    HeldRowStays(HeldView(k, c), RETIRING_CONFIG, true, map[k := PASS_ROW], HeldTrace(k, c), k);
  }

  /** A held pass AccessGrid says is deleted, its card recorded: a completed cycle marks the card
      for deletion, and remembers the state. */
  lemma HeldIsReleased(k: Key, c: Card, holders: Holders, pair: bool)
    requires c.number != "" && k.person in holders
    ensures var v, t, entry := HeldView(k, c), HeldTrace(k, c), Entry(1, c, Some(true), Settled, false);
            && Held(v, k) && UniqueIds(v)
            && IsTrace(v, RETIRING_CONFIG, true, map[k := PASS_ROW], t) && ComesToAll(v, RETIRING_CONFIG, t)
            && Entries(LedgerAfterAll(map[k := [entry]], holders, pair, TellsIn(t)), k) == [entry.(pending := Pending.Delete)]
            && !SameAt(map[k := PASS_ROW], t.rows6, k)
  {
    hide *;
    HeldShown(k, c);
    HeldIsTraced(k, c);
    HeldLedger(k, c, holders, pair);
    HeldRemembers(k, c);
  }
}

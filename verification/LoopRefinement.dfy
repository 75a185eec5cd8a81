/** A completed cycle of the sync, over a resting pass, is a cycle of the loop: the phases the loop
    leaves out owe such a pass nothing, and the others do to it what the loop says. */
module LoopRefinement {
  import opened Base
  import opened Order
  import opened Export
  import opened Pacs
  import opened Ledger
  import opened SeosStatus
  import opened CardChanges
  import opened Flush
  import opened AgCards
  import opened Snapshot
  import opened Tracking
  import opened Passes
  import opened Decisions
  import opened WriteBack
  import opened Retirement
  import opened Asks
  import opened Issuing
  import opened PhaseRecords
  import opened Traces
  import opened ControlLoop
  import opened Adapter
  import opened PassCalls
  import opened PassLedger
  import opened WholeCycle
  import opened OneRowCycle

  /** The cycle's snapshot shows the pass as the loop's state has it. */
  ghost predicate Shows(v: View, k: Key, st: State, now: int)
    requires st.cards != []
  {
    && v.now == now && k.person in v.people && v.people[k.person].active && k.person in v.creds
    && CredOf(v, k) == Some(Cred(st, now).(id := k.credential))
    && AgState(v, st.row, k, st.row.syncRef) == ControlLoop.Listed(st)
    && AgState(v, st.row, k, "") == (if st.lookup == Same then ControlLoop.Listed(st) else st.lookup.state)
  }

  /** A row that still holds the same pass. */
  predicate SamePass(a: Row, b: Row) {
    a.agCardId == b.agCardId && a.syncRef == b.syncRef
  }

  lemma SamePassSameCards(v: View, a: Row, b: Row, k: Key, ref: string, detail: map<string, AgCard>)
    requires SamePass(a, b)
    ensures AgState(v, a, k, ref) == AgState(v, b, k, ref) && CardsOf(v.index, detail, k, a) == CardsOf(v.index, detail, k, b)
  {
    hide Resolve;
  }

  // ---- its row, phase by phase ----

  lemma ShownCredential(v: View, k: Key, st: State, now: int)
    requires AtRest(st, now) && Shows(v, k, st, now)
    ensures var cred := CredOf(v, k).value;
            && !cred.hold && cred.triggerActive && cred.allocateIdentity && cred.status == Cred(st, now).status && !Expired(cred, v.now)
            && !Held(v, k) && cred in v.creds[k.person] && cred.id == k.credential
  {
    hide StatusOf, WrittenBack, Tidy, LatestStart, EarliestEnd, Written, AgState;
    assert CredOf(v, k).value in CredsOf(v, k.person);
  }

  /** Phase 1 asks for nothing, and remembers what it looks up. */
  lemma Phase1Takes(v: View, k: Key, st: State, now: int, rows: Rows)
    requires AtRest(st, now) && Shows(v, k, st, now) && k in rows && rows[k] == st.row
    ensures PassAt(rows, k) && ComesTo(v, k) && k in Refreshed(v, rows, k) && Refreshed(v, rows, k)[k] == AfterPhase1(st)
  {
    hide StatusOf, WrittenBack, Tidy, AgState, SeosCredential, CredOf, Held;
    ShownCredential(v, k, st, now);
    assert IsItem(v, Item(k, CredOf(v, k).value)) by { assert CredOf(v, k).value in CredsOf(v, k.person); }
  }

  /** What the loop's call is for the pass's row. */
  function AsksFor(st: State, now: int, k: Key): seq<Call>
    requires st.cards != []
  {
    CallAs(k, st.row.agCardId.GetOr(""), CallOf(st, now))
  }

  lemma Phase2Takes(v: View, cfg: Config, k: Key, st: State, now: int)
    requires AtRest(st, now) && Shows(v, k, st, now) && !cfg.dryRun
    ensures Phase2Asks(v, cfg, k, AfterPhase1(st)) == AsksFor(st, now, k)
  {
    hide StatusOf, WrittenBack, Tidy, AgState, Phase2Call, LatestStart, EarliestEnd, Written, Expired;
    SamePassSameCards(v, AfterPhase1(st), st.row, k, st.row.syncRef, map[]);
    CallIgnoresId(AfterPhase1(st), Cred(st, now), k.credential, ControlLoop.Listed(st));
  }

  lemma CallIgnoresId(row: Row, cred: Credential, id: string, agState: string)
    ensures Phase2Call(row, cred.(id := id), agState) == Phase2Call(row, cred, agState)
  {
  }

  lemma DrivenAfterPhase1(st: State, now: int)
    requires AtRest(st, now)
    ensures st.cards != [] && Driven(AfterPhase1(st)) && SamePass(AfterPhase1(st), st.row)
  {
    hide WrittenBack, Tidy, Cred;
  }

  lemma AnsweredTakes(st: State, now: int, k: Key, before: Rows, after: Rows, answer: Option<Answer>)
    requires AtRest(st, now) && k in before && before[k] == AfterPhase1(st)
    requires answer == if AsksFor(st, now, k) != [] then Some(Done) else None
    requires SameAt(AfterAnswered(before, AsksFor(st, now, k), answer), after, k)
    ensures k in after && after[k] == AfterPhase2(AfterPhase1(st), CallOf(st, now))
    ensures Driven(after[k]) && SamePass(after[k], st.row)
  {
    hide AtRest, CallOf, Driven;
    DrivenAfterPhase1(st, now);
    NeverTerminates(st, now);
    DrivenStays(AfterPhase1(st), CallOf(st, now), AfterPhase2(AfterPhase1(st), CallOf(st, now)).lastKnown);
  }

  /** Phase 3 deletes no pass that is in force, and phase 5 retries none that is there. */
  lemma OwesNothing(v: View, cfg: Config, complete: bool, k: Key, st: State, now: int, row: Row, expired: nat)
    requires AtRest(st, now) && Shows(v, k, st, now) && SamePass(row, st.row)
    ensures Phase3Asks(v, cfg, complete, k, row, expired) == [] && !Retryable(row)
  {
    ShownCredential(v, k, st, now);
    hide Cred, Shows, WrittenBack, Tidy, AgState, CredOf, Expired;
  }

  /** At rest the phases the loop leaves out have nothing to do: no deletion, no retry, no card to
      write however its cards are offered, and none to retire. */
  lemma RestOwesNothing(v: View, cfg: Config, complete: bool, k: Key, st: State, now: int, expired: nat, c: Context)
    requires AtRest(st, now) && Shows(v, k, st, now) && c.entries == st.entries
    ensures Phase3Asks(v, cfg, complete, k, st.row, expired) == [] && !Retryable(st.row)
    ensures !Decide(c, Offered(st.cards)).Add?
    ensures Retired(st.entries, set i <- Released(st.cards) :: i.card) == st.entries
  {
    OwesNothing(v, cfg, complete, k, st, now, st.row, expired);
    hide Shows, Offered, Released, Decide, Tidy, Driven, Cred, Cards;
    NothingRetirable(st.entries, set i <- Released(st.cards) :: i.card);
    NothingAdded(c, Offered(st.cards));
  }

  lemma NothingAdded(c: Context, identities: seq<Identity>)
    requires forall i <- identities :: i.card in Cards(c.entries)
    ensures !Decide(c, identities).Add?
  {
    WritesOnlyBesideItsOwn(c, identities);
    if identities == [] {
      NothingIn(Unseen(c, identities));
    }
  }

  /** Phase 4 tells the PACS what the cards still back, and their boxes where they disagree. */
  function ToldFor(st: State, now: int, k: Key, answer: seq<AgCard>): seq<PacsCall> {
    (if Offered(answer) != [] then [PacsCall.WriteBack(k, Offered(answer))] else [])
    + (if InLine(Cred(st, now).status, DesiredStatus(answer)) then [] else [PacsCall.SetStatus(k, Wants(answer))])
  }

  lemma OfferTakes(v: View, cfg: Config, detail: map<string, AgCard>, k: Key, st: State, now: int, answer: seq<AgCard>, row: Row)
    requires AtRest(st, now) && Shows(v, k, st, now) && SamePass(row, st.row) && Driven(row) && cfg.supportsWriteback
    requires CardsOf(v.index, detail, k, st.row) == answer != []
    ensures Phase4Asks(v, cfg, v.index, detail, OfferWalk, k, row) == if Offered(answer) != [] then [PacsCall.WriteBack(k, Offered(answer))] else []
  {
    ShownCredential(v, k, st, now);
    SamePassSameCards(v, row, st.row, k, row.syncRef, detail);
    hide AtRest, Shows, CredOf, Held, Cred, CardsOf, Offered, Driven, Expired;
  }

  lemma BoxTakes(v: View, cfg: Config, detail: map<string, AgCard>, k: Key, st: State, now: int, answer: seq<AgCard>, row: Row)
    requires AtRest(st, now) && Shows(v, k, st, now) && SamePass(row, st.row) && Driven(row)
    requires CardsOf(v.index, detail, k, st.row) == answer != []
    ensures Phase4Asks(v, cfg, v.index, detail, GateWalk, k, row) ==
            if InLine(Cred(st, now).status, DesiredStatus(answer)) then [] else [PacsCall.SetStatus(k, Wants(answer))]
  {
    ShownCredential(v, k, st, now);
    SamePassSameCards(v, row, st.row, k, row.syncRef, detail);
    hide AtRest, Shows, CredOf, Held, Cred, CardsOf, DesiredStatus, Driven, Expired;
  }

  /** The state of a pass whose cards AccessGrid allocated is no business of the status walk. */
  lemma FollowTellsNothing(v: View, cfg: Config, detail: map<string, AgCard>, k: Key, st: State, now: int, row: Row)
    requires AtRest(st, now) && Shows(v, k, st, now)
    ensures Phase4Asks(v, cfg, v.index, detail, FollowWalk, k, row) == []
  {
    ShownCredential(v, k, st, now);
    hide AtRest, Shows, CredOf, Held, Cred, AgState, Expired;
  }

  lemma FollowedTakes(v: View, k: Key, st: State, now: int, before: Rows, after: Rows)
    requires AtRest(st, now) && Shows(v, k, st, now) && k in before && Driven(before[k]) && SamePass(before[k], st.row)
    requires SameAt(AfterFollowed(v, before, k, None), after, k)
    ensures k in after && after[k] == AfterPhase4(before[k], ControlLoop.Listed(st)) && SamePass(after[k], st.row)
  {
    ShownCredential(v, k, st, now);
    SamePassSameCards(v, before[k], st.row, k, before[k].syncRef, map[]);
    hide Cred, WrittenBack, Tidy, AgState, CredOf, Held, Expired;
  }

  /** Told what a cycle tells it of a resting pass, the ledger is as the loop's gate leaves it. */
  lemma GateTakes(entries: seq<Entry>, live: map<Card, Slot>, st: State, now: int, k: Key, answer: seq<AgCard>, released: seq<PacsCall>)
    requires entries == st.entries && live == st.live && WrittenBack(entries, answer)
    requires |released| <= 1 && forall c <- released :: c.Retire? && c.identities == Released(answer)
    ensures EntriesAfterAll(entries, live, released + ToldFor(st, now, k, answer)) == Gated(entries, live, Cred(st, now).status, answer)
  {
    hide SwitchAllowed, DesiredStatus, Offered, Released, Cred, Cards, EntriesAfterAll;
    var offers := if Offered(answer) != [] then [PacsCall.WriteBack(k, Offered(answer))] else [];
    var boxes := if InLine(Cred(st, now).status, DesiredStatus(answer)) then [] else [PacsCall.SetStatus(k, Wants(answer))];
    assert EntriesAfterAll(entries, live, released) == entries by {
      AtMostOne(entries, live, released);
      NothingRetirable(entries, set i <- Released(answer) :: i.card);
      assert released != [] ==> released[0] in released;
    }
    AtMostOne(entries, live, offers);
    AtMostOne(entries, live, boxes);
    CallsJoin(entries, live, offers, boxes);
    CallsJoin(entries, live, released, offers + boxes);
  }

  // ---- a whole cycle ----

  /** A completed cycle over a resting pass: told of by the snapshot, its call if any answered, its
      cards, re-read after that call, being `answer`. */
  ghost predicate Cycled(v: View, cfg: Config, complete: bool, rows: Rows, t: Trace, k: Key, st: State, now: int, answer: seq<AgCard>) {
    && AtRest(st, now) && k in rows && rows[k] == st.row && Shows(v, k, st, now)
    && IsTrace(v, cfg, complete, rows, t) && ComesToAll(v, cfg, t)
    && !cfg.dryRun && cfg.supportsWriteback && cfg.supportsStatus
    && (k in t.statuses.answers ==> t.statuses.answers[k] == Done)
    && Answers(CallOf(st, now), st.cards, answer)
    && CardsOf(v.index, t.detail, k, st.row) == answer
  }

  lemma ThroughPhase2(v: View, cfg: Config, complete: bool, rows: Rows, t: Trace, k: Key, st: State, now: int, answer: seq<AgCard>)
    requires Cycled(v, cfg, complete, rows, t, k, st, now, answer)
    ensures k in t.rows2 && t.rows2[k] == AfterPhase1(st) && PassAt(rows, k)
    ensures k in t.rows3 && t.rows3[k] == AfterPhase2(AfterPhase1(st), CallOf(st, now)) && Driven(t.rows3[k]) && SamePass(t.rows3[k], st.row)
    ensures k in t.statuses.listing && Phase2Asks(v, cfg, k, t.rows2[k]) == AsksFor(st, now, k)
  {
    hide AtRest, Shows, Answers, CardsOf, AreIssues, AreReissues, AreRevocations, AreReleases, AreStates,
         CountPresent, Retryable, Remembered, FromIndex, Grown, CallOf, AfterPhase1, Phase2Asks, Refreshed, ComesTo,
         Phase2All, AfterAnswered, AsksFor;
    Phase1Takes(v, k, st, now, rows);
    RefreshedFor(v, cfg, complete, rows, t, k);
    Phase2Takes(v, cfg, k, st, now);
    AnsweredTakes(st, now, k, t.rows2, t.rows3, AnswerAt(t.statuses.answers, k));
  }

  lemma ThroughPhase3(v: View, cfg: Config, complete: bool, rows: Rows, t: Trace, k: Key, st: State, now: int, answer: seq<AgCard>)
    requires Cycled(v, cfg, complete, rows, t, k, st, now, answer)
    ensures k in t.rows3 && k in t.rows4 && t.rows4[k] == t.rows3[k]
    ensures CallsFor(k, t.revoked.calls) == [] && ToldAbout(k, t.revoked.retired) == []
  {
    hide AtRest, Shows, Answers, CardsOf, AreIssues, AreReissues, AreStatuses, AreReleases, AreStates,
         CountPresent, Retryable, Remembered, FromIndex, Grown, CallOf, AreRevocations, AfterPhase1, AfterPhase2, Phase3Asks,
         Phase3Whole, Phases45Whole;
    ThroughPhase2(v, cfg, complete, rows, t, k, st, now, answer);
    forall expired: nat ensures Phase3Asks(v, cfg, complete, k, t.rows3[k], expired) == [] {
      OwesNothing(v, cfg, complete, k, st, now, t.rows3[k], expired);
    }
    QuietInPhase3(v, cfg, complete, v.index, t.detail3, t.rows3, t.rows4, t.revoked, k);
  }

  /** The pass's row after a completed cycle is the row after a cycle of the loop. */
  lemma CycleTakesRow(v: View, cfg: Config, complete: bool, rows: Rows, t: Trace, k: Key, st: State, now: int, answer: seq<AgCard>, lookup: Lookup)
    requires Cycled(v, cfg, complete, rows, t, k, st, now, answer)
    ensures k in t.rows5 && t.rows5[k] == CycleTo(st, now, answer, lookup).row && SamePass(t.rows5[k], st.row)
  {
    hide AtRest, Shows, Answers, CardsOf, AreIssues, AreReissues, AreStatuses, AreReleases, AreRevocations, AreStates,
         CountPresent, Retryable, Remembered, FromIndex, Grown, CallOf, Phase4All, Phase4Asks,
         Phase3Whole, AfterPhase1, AfterPhase2, AfterPhase4, AfterFollowed, Gated, Applied, Driven;
    ThroughPhase2(v, cfg, complete, rows, t, k, st, now, answer);
    ThroughPhase3(v, cfg, complete, rows, t, k, st, now, answer);
    FollowTellsNothing(v, cfg, t.detail, k, st, now, t.rows4[k]);
    FollowedInPhase4(v, cfg, v.index, t.detail, t.rows4, t.rows5, t.states, k);
    FollowedTakes(v, k, st, now, t.rows4, t.rows5);
  }

  /** And as it has a pass, the retries leave it so. */
  lemma CycleLeavesRow(v: View, cfg: Config, complete: bool, rows: Rows, t: Trace, k: Key, st: State, now: int, answer: seq<AgCard>)
    requires Cycled(v, cfg, complete, rows, t, k, st, now, answer)
    ensures SameAt(t.rows5, t.rows6, k) && forall c <- t.retries.calls :: c.key != k
  {
    hide AtRest, Shows, Answers, CardsOf, AreIssues, AreStatuses, AreReleases, AreRevocations, AreStates,
         CountPresent, Retryable, Remembered, FromIndex, Grown, CallOf, CycleTo, RetryCalls, Retries, AfterRetry;
    CycleTakesRow(v, cfg, complete, rows, t, k, st, now, answer, st.lookup);
    OwesNothing(v, cfg, complete, k, st, now, t.rows5[k], 0);
    RetriesAreTried(v, cfg, t.retries.listing, t.retries.tried);
  }

  /** Of AccessGrid it asks, about the pass, what the loop asks and nothing more. */
  lemma CycleTakesCalls(v: View, cfg: Config, complete: bool, rows: Rows, t: Trace, k: Key, st: State, now: int, answer: seq<AgCard>)
    requires Cycled(v, cfg, complete, rows, t, k, st, now, answer)
    ensures CallsFor(k, AsksIn(t)) == AsksFor(st, now, k)
    ensures (forall c <- t.issues.calls :: c.key != k) && forall c <- t.retries.calls :: c.key != k
  {
    hide AtRest, Shows, Answers, CardsOf, AfterPhase1, AfterPhase2, AsksFor, CallsFor, CallOf, IsTrace, Phase2Asks, ComesTo, Refreshed, Phase3Whole;
    ThroughPhase2(v, cfg, complete, rows, t, k, st, now, answer);
    ThroughPhase3(v, cfg, complete, rows, t, k, st, now, answer);
    CycleLeavesRow(v, cfg, complete, rows, t, k, st, now, answer);
    RefreshedFor(v, cfg, complete, rows, t, k);
    StatusesFor(v, cfg, complete, rows, t, k);
    NoCallsFor(k, t.issues.calls);
    NoCallsFor(k, t.retries.calls);
    JoinCalls(k, t.issues.calls, t.statuses.calls);
    JoinCalls(k, t.issues.calls + t.statuses.calls, t.revoked.calls);
    JoinCalls(k, t.issues.calls + t.statuses.calls + t.revoked.calls, t.retries.calls);
  }

  /** So phase 2's promise about a pass whose state changed fails over a cycle exactly where it fails in
      the loop: its cards on, and listed as suspended where phase 1 looks too, it is resumed. */
  lemma ChangedStateInCycle(v: View, cfg: Config, complete: bool, rows: Rows, t: Trace, k: Key, st: State, now: int, answer: seq<AgCard>)
    requires Cycled(v, cfg, complete, rows, t, k, st, now, answer) && StateChanged(st)
    ensures CallsFor(k, AsksIn(t)) == [] <==>
              || (st.lookup != Same && st.lookup.state != ControlLoop.Listed(st))
              || (if AllOn(st) then ControlLoop.Listed(st) != "suspended" else OffByUs(st) || ControlLoop.Listed(st) != "active")
    ensures AllOn(st) && st.lookup == Same && ControlLoop.Listed(st) == "suspended" ==>
              CallsFor(k, AsksIn(t)) == [Call.Resume(k, st.row.agCardId.GetOr(""))]
  {
    hide IsTrace, ComesToAll, Shows, AtRest, CallOf, AllOn, OffByUs, CallsFor, AsksIn, Answers, CardsOf;
    CycleTakesCalls(v, cfg, complete, rows, t, k, st, now, answer);
    ChangedStateIsLeftAlone(st, now);
  }

  /** The PACS it tells, about the pass, what its cards still back and their boxes where they
      disagree; and before that at most the identities AccessGrid has deleted. */
  lemma CycleTells(v: View, cfg: Config, complete: bool, rows: Rows, t: Trace, k: Key, st: State, now: int, answer: seq<AgCard>)
    requires Cycled(v, cfg, complete, rows, t, k, st, now, answer)
    ensures var released := ToldAbout(k, t.released.calls);
            && ToldAbout(k, TellsIn(t)) == released + ToldFor(st, now, k, answer)
            && |released| <= 1 && forall c <- released :: c.Retire? && c.identities == Released(answer)
  {
    hide Cycled, ToldAbout, ToldFor, Released;
    ThroughPhase3(v, cfg, complete, rows, t, k, st, now, answer);
    PushesNothing(v, cfg, complete, rows, t, k, st, now, answer);
    Phase4Tells(v, cfg, complete, rows, t, k, st, now, answer);
    ReleasesTell(v, cfg, complete, rows, t, k, st, now, answer);
    JoinTold(k, t.issues.pushes, t.revoked.retired);
    JoinTold(k, t.issues.pushes + t.revoked.retired, t.released.calls);
    JoinTold(k, t.issues.pushes + t.revoked.retired + t.released.calls, t.states.calls);
    JoinTold(k, t.issues.pushes + t.revoked.retired + t.released.calls + t.states.calls, t.retries.pushes);
  }

  lemma PushesNothing(v: View, cfg: Config, complete: bool, rows: Rows, t: Trace, k: Key, st: State, now: int, answer: seq<AgCard>)
    requires Cycled(v, cfg, complete, rows, t, k, st, now, answer)
    ensures ToldAbout(k, t.issues.pushes) == [] && ToldAbout(k, t.retries.pushes) == []
  {
    hide AtRest, Shows, Answers, CardsOf, AreStatuses, AreReleases, AreRevocations, AreStates, CountPresent, Retryable, Remembered, FromIndex,
         Grown, CallOf, ToldAbout, ComesToAll, CallsFor, AsksFor, Walked, StepCalls, StepPushes, CountIssued, RetryCalls, RetryPushes, RowsAsTried;
    CycleTakesCalls(v, cfg, complete, rows, t, k, st, now, answer);
    CycleTakesRow(v, cfg, complete, rows, t, k, st, now, answer, st.lookup);
    OwesNothing(v, cfg, complete, k, st, now, t.rows5[k], 0);
    PushesFollowCalls(cfg, t.issues.steps, k);
    RetriesAreTried(v, cfg, t.retries.listing, t.retries.tried);
    NotTold(k, t.issues.pushes);
    NotTold(k, t.retries.pushes);
  }

  lemma ReleasesTell(v: View, cfg: Config, complete: bool, rows: Rows, t: Trace, k: Key, st: State, now: int, answer: seq<AgCard>)
    requires Cycled(v, cfg, complete, rows, t, k, st, now, answer)
    ensures var released := ToldAbout(k, t.released.calls);
            |released| <= 1 && forall c <- released :: c.Retire? && c.identities == Released(answer)
  {
    hide AtRest, Shows, Answers, CardsOf, IsTrace, ComesToAll, CallOf, Retirements, ToldAbout, AfterPhase1, AfterPhase2, Released, Grown, KnownIn;
    ThroughPhase2(v, cfg, complete, rows, t, k, st, now, answer);
    ThroughPhase3(v, cfg, complete, rows, t, k, st, now, answer);
    ReleasesIn(v, cfg, complete, rows, t);
    ReleasedFor(v.index, t.detail3, t.rows4, t.released.written, t.released.listing, t.released.counts, k);
    forall c | c in ToldAbout(k, t.released.calls) ensures CardsOf(v.index, t.detail3, k, t.rows4[k]) == answer {
      ToldKnown(k, t.released.calls, c);
      CardsStay(v.index, t.detail3, t.detail, k, t.rows4[k]);
      SamePassSameCards(v, t.rows4[k], st.row, k, "", t.detail);
    }
  }

  lemma ToldKnown(k: Key, calls: seq<PacsCall>, c: PacsCall)
    requires c in ToldAbout(k, calls)
    ensures c in calls && c.key == k
  {
  }

  lemma AnswerListed(st: State, now: int, answer: seq<AgCard>)
    requires AtRest(st, now) && Answers(CallOf(st, now), st.cards, answer)
    ensures answer != []
  {
    hide CallOf, Cred, WrittenBack, Tidy, SameIdentities;
    NeverTerminates(st, now);
  }

  lemma Phase4Tells(v: View, cfg: Config, complete: bool, rows: Rows, t: Trace, k: Key, st: State, now: int, answer: seq<AgCard>)
    requires Cycled(v, cfg, complete, rows, t, k, st, now, answer)
    ensures ToldAbout(k, t.states.calls) == ToldFor(st, now, k, answer)
  {
    hide AtRest, Shows, Answers, CardsOf, AreIssues, AreReissues, AreStatuses, AreReleases, AreRevocations, Followed,
         CountPresent, Retryable, Remembered, FromIndex, Grown, CallOf, Phase4All, Phase4Asks, ToldAbout,
         Phase3Whole, AfterPhase1, AfterPhase2, Offered, InLine, DesiredStatus, Cred;
    ThroughPhase2(v, cfg, complete, rows, t, k, st, now, answer);
    ThroughPhase3(v, cfg, complete, rows, t, k, st, now, answer);
    AnswerListed(st, now, answer);
    OfferTakes(v, cfg, t.detail, k, st, now, answer, t.rows4[k]);
    BoxTakes(v, cfg, t.detail, k, st, now, answer, t.rows4[k]);
    FollowTellsNothing(v, cfg, t.detail, k, st, now, t.rows4[k]);
    var offers := Phase4All(v, cfg, v.index, t.detail, OfferWalk, t.rows4, t.states.listing);
    var boxes := Phase4All(v, cfg, v.index, t.detail, GateWalk, t.rows4, t.states.listing);
    var states := Phase4All(v, cfg, v.index, t.detail, FollowWalk, t.rows4, t.states.listing);
    Phase4For(v, cfg, v.index, t.detail, OfferWalk, t.rows4, t.states.listing, k);
    Phase4For(v, cfg, v.index, t.detail, GateWalk, t.rows4, t.states.listing, k);
    Phase4For(v, cfg, v.index, t.detail, FollowWalk, t.rows4, t.states.listing, k);
    JoinTold(k, offers, boxes);
    JoinTold(k, offers + boxes, states);
  }

  // ---- and its ledger ----

  /** The flush confirms what it sent for the pass, or had nothing to send. */
  predicate Confirms(k: Key, entries: seq<Entry>, log: Option<ImportLog>) {
    match log
    case None => forall e <- entries :: !Sendable(e)
    case Some(l) => k.person !in l.skippedPeople && forall e <- entries :: e.card !in l.skippedCards
  }

  lemma FlushTakes(t: Ledger.Table, holders: Holders, agreed: map<Key, set<Card>>, log: Option<ImportLog>, k: Key)
    requires k.person in holders && Entries(t, k) != [] && Confirms(k, Entries(t, k), log)
    requires forall e <- Entries(t, k) :: e.pending in {Settled, Activate, Deactivate}
    ensures Entries(AfterFlush(t, holders, agreed, log), k) == CreditEach(Entries(t, k), {})
  {
    hide Present, DeletesFor, ImportFor, CreditEach;
    NothingDeleted(k, Entries(t, k), holders, agreed);
    assert Entries(AfterDeletes(t, holders, agreed), k) == Entries(t, k);
    if log.Some? {
      ImportCredits(k, Entries(t, k), holders, log.value);
    } else {
      NothingToCredit(Entries(t, k), {});
    }
  }

  lemma NothingToCredit(entries: seq<Entry>, skippedCards: set<Card>)
    requires forall e <- entries :: !Sendable(e)
    ensures CreditEach(entries, skippedCards) == entries
  {
  }

  lemma ImportCredits(k: Key, entries: seq<Entry>, holders: Holders, log: ImportLog)
    requires k.person in holders && Confirms(k, entries, Some(log)) && forall e <- entries :: e.pending in {Settled, Activate, Deactivate}
    ensures ImportFor(k, entries, holders, log) == CreditEach(entries, {})
  {
    assert CreditEach(entries, log.skippedCards) == CreditEach(entries, {});
    if !Sent(k, entries, holders) {
      NothingToCredit(entries, {});
    }
  }

  lemma NothingDeleted(k: Key, entries: seq<Entry>, holders: Holders, agreed: map<Key, set<Card>>)
    requires forall e <- entries :: e.pending != Pending.Delete
    ensures DeletesFor(k, entries, holders, agreed) == entries
  {
    hide Present;
    if k.person in holders {
      var live, gone := Present(holders[k.person].slots), if k in agreed then agreed[k] else {};
      FilterAll((e: Entry) => !IsDeleted(e, live, gone), entries);
    }
  }

  /** Told all that a cycle tells it, the adapter's ledger for the pass is as the loop's gate leaves it. */
  lemma CycleGates(v: View, cfg: Config, complete: bool, rows: Rows, t: Trace, k: Key, st: State, now: int, answer: seq<AgCard>,
                   ledger: Ledger.Table, holders: Holders, pair: bool)
    requires Cycled(v, cfg, complete, rows, t, k, st, now, answer)
    requires k.person in holders && Entries(ledger, k) == st.entries && Present(holders[k.person].slots) == st.live
    ensures Entries(LedgerAfterAll(ledger, holders, pair, TellsIn(t)), k) == Gated(st.entries, st.live, Cred(st, now).status, answer)
    ensures st.entries != []
  {
    hide Cycled, Gated, LedgerAfterAll, ToldAbout, ToldFor, TellsIn, EntriesAfterAll, Present, Cred, WrittenBack, Released;
    CycleTells(v, cfg, complete, rows, t, k, st, now, answer);
    StillWrittenBack(v, cfg, complete, rows, t, k, st, now, answer);
    ToldOnlyRecorded(k, st, now, answer, TellsIn(t), ToldAbout(k, t.released.calls));
    LedgerFollows(ledger, holders, pair, TellsIn(t), k);
    GateTakes(st.entries, st.live, st, now, k, answer, ToldAbout(k, t.released.calls));
  }

  /** The pass's ledger after a completed cycle and its flush is the ledger after a cycle of the loop:
      what the phases the loop leaves out tell the adapter changes nothing. */
  lemma CycleTakesLedger(v: View, cfg: Config, complete: bool, rows: Rows, t: Trace, k: Key, st: State, now: int, answer: seq<AgCard>, lookup: Lookup,
                         ledger: Ledger.Table, holders: Holders, pair: bool, agreed: map<Key, set<Card>>, log: Option<ImportLog>)
    requires Cycled(v, cfg, complete, rows, t, k, st, now, answer)
    requires k.person in holders && Entries(ledger, k) == st.entries && Present(holders[k.person].slots) == st.live
    requires Confirms(k, Gated(st.entries, st.live, Cred(st, now).status, answer), log)
    ensures Entries(AfterFlush(LedgerAfterAll(ledger, holders, pair, TellsIn(t)), holders, agreed, log), k) ==
            CycleTo(st, now, answer, lookup).entries
  {
    hide IsTrace, ComesToAll, AtRest, Gated, LedgerAfterAll, TellsIn, AfterFlush, Confirms, CreditEach, Present, Cred, Shows, CardsOf, Answers;
    CycleGates(v, cfg, complete, rows, t, k, st, now, answer, ledger, holders, pair);
    GatedIsPlain(st, now, answer);
    FlushTakes(LedgerAfterAll(ledger, holders, pair, TellsIn(t)), holders, agreed, log, k);
  }

  lemma StillWrittenBack(v: View, cfg: Config, complete: bool, rows: Rows, t: Trace, k: Key, st: State, now: int, answer: seq<AgCard>)
    requires Cycled(v, cfg, complete, rows, t, k, st, now, answer)
    ensures WrittenBack(st.entries, answer) && st.entries != []
  {
    NeverTerminates(st, now);
    NothingNewBacked(st.cards);
    hide Offered, Released, Cards, IsTrace, ComesToAll, Shows, CardsOf, ToldAbout;
    assert SameIdentities(st.cards, answer);
    BackedAlready(st.entries, st.entries, st.cards, answer);
  }

  lemma ToldOnlyRecorded(k: Key, st: State, now: int, answer: seq<AgCard>, calls: seq<PacsCall>, released: seq<PacsCall>)
    requires WrittenBack(st.entries, answer) && ToldAbout(k, calls) == released + ToldFor(st, now, k, answer)
    requires forall c <- released :: c.Retire?
    ensures forall c <- calls :: c.key == k ==> RecordedAlready(c, Cards(st.entries))
  {
    hide Offered, Released, Cards, DesiredStatus, Cred;
    forall c | c in calls && c.key == k ensures RecordedAlready(c, Cards(st.entries)) {
      assert c in ToldAbout(k, calls);
    }
  }

  lemma GatedIsPlain(st: State, now: int, answer: seq<AgCard>)
    requires AtRest(st, now)
    ensures var gated := Gated(st.entries, st.live, Cred(st, now).status, answer);
            |gated| == |st.entries| && forall e <- gated :: e.pending in {Settled, Activate, Deactivate}
  {
    hide DesiredStatus, Cred, SwitchAllowed, WrittenBack, Tidy, Expired, StartsLater, Driven;
    var gated := Gated(st.entries, st.live, Cred(st, now).status, answer);
    forall i | 0 <= i < |gated| ensures gated[i].pending in {Settled, Activate, Deactivate} {
      assert st.entries[i] in st.entries;
    }
  }

  // ---- there are such cycles ----

  const PLAIN_CONFIG := Config(0, false, "", false, true, true, false)

  function IssuedCredential(st: State, now: int, k: Key): Credential {
    Cred(st, now).(id := k.credential)
  }

  /** One cardholder with the one credential, its pass listed under its reference and its id. */
  function ViewOf(st: State, now: int, k: Key): View
    requires st.cards != []
  {
    View(map[k.person := Person("Name", "mail", "", true)], map[k.person := [IssuedCredential(st, now, k)]],
         Index(map[st.row.agCardId.GetOr("") := st.cards[0]], map[st.row.syncRef := st.cards], map[], map[], map[]), now)
  }

  /** Phase 1 finds the pass itself; AccessGrid answers its call so, if it makes one, and a
      re-read of its cards shows that. */
  predicate Readable(st: State, now: int, answer: seq<AgCard>, detail: map<string, AgCard>, asked: seq<Read>) {
    && AtRest(st, now) && st.lookup == Same && st.row.syncRef != ""
    && Answers(CallOf(st, now), st.cards, answer) && DetailedAll(detail, st.cards) == answer
    && Remembered(detail, asked) && forall r <- asked :: r.listed in st.cards
  }

  function CycleTrace(st: State, now: int, k: Key, detail: map<string, AgCard>, asked: seq<Read>): Trace
    requires st.cards != []
  {
    OneTrace(ViewOf(st, now, k), PLAIN_CONFIG, k, IssuedCredential(st, now, k), map[k := AfterPhase1(st)], Releases([], {}, map[], []),
             map[], detail, asked)
  }

  lemma ViewShows(st: State, now: int, k: Key)
    requires AtRest(st, now) && st.lookup == Same && st.row.syncRef != ""
    ensures var v := ViewOf(st, now, k);
            && Shows(v, k, st, now) && OneRead(v, k, IssuedCredential(st, now, k))
            && ResolvedFor(v.index, k, st.row) == st.cards && forall c <- st.cards :: FromIndex(v.index, c)
  {
    hide Cred, WrittenBack, CallOf, Tidy, Expired;
    var v := ViewOf(st, now, k);
    assert ResolvedFor(v.index, k, st.row) == st.cards;
    assert forall c <- st.cards :: c in Resolve(v.index, st.row.agCardId.GetOr(""), k.person, k.credential, st.row.syncRef);
  }

  lemma PassedOverTakes(st: State, now: int, k: Key)
    requires AtRest(st, now) && st.lookup == Same && st.row.syncRef != ""
    ensures var rows := map[k := st.row];
            && PassAt(rows, k)
            && PassedOver(ViewOf(st, now, k), PLAIN_CONFIG, rows, k, IssuedCredential(st, now, k)) == map[k := AfterPhase1(st)]
  {
    hide AtRest, Cred, AfterPhase1, AgState, Shows, ViewOf, CredOf, OneRead, Refreshed, ResolvedFor, FromIndex, IssuedCredential, MayIssue, DedupeHit,
         Expired, ComesTo;
    assert st.cards != [] by { RestingHasCards(st, now); }
    var v, rows, cred := ViewOf(st, now, k), map[k := st.row], IssuedCredential(st, now, k);
    ViewShows(st, now, k);
    Phase1Takes(v, k, st, now, rows);
    ShownCredential(v, k, st, now);
    OneIsRead(v, k, cred);
    RefreshedOne(v, k, st.row);
    assert Refreshed(v, rows, k) == map[k := AfterPhase1(st)];
  }

  lemma RefreshedOne(v: View, k: Key, row: Row)
    ensures Refreshed(v, map[k := row], k).Keys == {k}
  {
    hide AgState;
  }

  /** The row as phase 2 leaves it: nothing more is owed to it. */
  lemma AnsweredIsCalm(st: State, now: int, k: Key, detail: map<string, AgCard>)
    requires AtRest(st, now) && st.lookup == Same && st.row.syncRef != ""
    ensures var v, rows2 := ViewOf(st, now, k), map[k := AfterPhase1(st)];
            && k in AfterStatus(v, PLAIN_CONFIG, rows2, k)
            && Calm(v, PLAIN_CONFIG, true, detail, AfterStatus(v, PLAIN_CONFIG, rows2, k), k)
  {
    ViewShows(st, now, k);
    var v, rows2 := ViewOf(st, now, k), map[k := AfterPhase1(st)];
    Phase2Takes(v, PLAIN_CONFIG, k, st, now);
    var answer := if AsksFor(st, now, k) != [] then Some(Done) else None;
    hide AtRest, Cred, AfterPhase1, AgState, Shows, ViewOf, CredOf, CallOf, AfterPhase2, AsksFor, Phase2Asks, Phase3Asks, Phase4Asks;
    var rows3 := AfterStatus(v, PLAIN_CONFIG, rows2, k);
    AnsweredTakes(st, now, k, rows2, rows3, answer);
    forall expired: nat ensures Phase3Asks(v, PLAIN_CONFIG, true, k, rows3[k], expired) == [] {
      OwesNothing(v, PLAIN_CONFIG, true, k, st, now, rows3[k], expired);
    }
    FollowTellsNothing(v, PLAIN_CONFIG, detail, k, st, now, rows3[k]);
  }

  lemma OneRowLeft(st: State, now: int, k: Key, detail: map<string, AgCard>, asked: seq<Read>)
    requires AtRest(st, now) && st.lookup == Same && st.row.syncRef != ""
    ensures CycleTrace(st, now, k, detail, asked).rows6.Keys == {k}
  {
    hide AtRest, Cred, ViewOf, CallOf, Phase2Asks, Phase4Asks, AfterFollowed, Calm, AfterAnswered, AfterStatus, Driven;
    assert st.cards != [] by { RestingHasCards(st, now); }
    AnsweredIsCalm(st, now, k, detail);
    assert HasPass(AfterPhase1(st)) by { RestingHoldsPass(st, now); }
    OneRowStays(ViewOf(st, now, k), PLAIN_CONFIG, map[k := AfterPhase1(st)], k, IssuedCredential(st, now, k));
    var rows3 := AfterStatus(ViewOf(st, now, k), PLAIN_CONFIG, map[k := AfterPhase1(st)], k);
    assert PassAt(rows3, k) by { CalmHoldsPass(st, now, k, detail); }
    OneRowStays(ViewOf(st, now, k), PLAIN_CONFIG, rows3, k, IssuedCredential(st, now, k));
  }

  lemma RestingHoldsPass(st: State, now: int)
    requires AtRest(st, now)
    ensures HasPass(AfterPhase1(st))
  {
    hide WrittenBack, Tidy, Cred;
  }

  lemma CalmHoldsPass(st: State, now: int, k: Key, detail: map<string, AgCard>)
    requires AtRest(st, now) && st.lookup == Same && st.row.syncRef != ""
    ensures PassAt(AfterStatus(ViewOf(st, now, k), PLAIN_CONFIG, map[k := AfterPhase1(st)], k), k)
  {
    hide AtRest, Cred, ViewOf, CallOf, Phase3Asks, Phase4Asks, AfterStatus;
    AnsweredIsCalm(st, now, k, detail);
  }

  lemma CycleIsTraced(st: State, now: int, k: Key, detail: map<string, AgCard>, asked: seq<Read>)
    requires AtRest(st, now) && st.lookup == Same && st.row.syncRef != ""
    requires Remembered(detail, asked) && forall r <- asked :: r.listed in st.cards
    ensures var v, t := ViewOf(st, now, k), CycleTrace(st, now, k, detail, asked);
            IsTrace(v, PLAIN_CONFIG, true, map[k := st.row], t) && ComesToAll(v, PLAIN_CONFIG, t)
  {
    hide AtRest, Cred, AfterPhase1, Shows, ViewOf, IsTrace, ComesToAll, Calm, Remembered, FromIndex, OneRead, PassedOver, AfterStatus, AreReleases,
         OneTrace, ResolvedFor, Grown, HasPass;
    assert st.cards != [] by { RestingHasCards(st, now); }
    ViewShows(st, now, k);
    PassedOverTakes(st, now, k);
    AnsweredIsCalm(st, now, k, detail);
    GrownFromNothing(detail);
    var v, rows := ViewOf(st, now, k), map[k := st.row];
    var none := Releases([], {}, map[], []);
    NoReleases(v.index, map[], AfterStatus(v, PLAIN_CONFIG, map[k := AfterPhase1(st)], k));
    OneIsTraced(v, PLAIN_CONFIG, true, rows, k, IssuedCredential(st, now, k), none, map[], detail, asked);
  }

  lemma RestingHasCards(st: State, now: int)
    requires AtRest(st, now)
    ensures st.cards != []
  {
  }

  lemma GrownFromNothing(detail: map<string, AgCard>)
    ensures Grown(map[], detail)
  {
  }

  lemma TraceAnswers(st: State, now: int, k: Key, detail: map<string, AgCard>, asked: seq<Read>)
    requires AtRest(st, now) && st.lookup == Same && st.row.syncRef != ""
    ensures var t := CycleTrace(st, now, k, detail, asked);
            t.detail == detail && (k in t.statuses.answers ==> t.statuses.answers[k] == Done)
  {
    AnsweredIsCalm(st, now, k, detail);
    hide AtRest, Cred, AfterPhase1, ViewOf, Calm, AfterStatus, Phase2Asks, Phase4Asks, AfterFollowed;
  }

  /** Every resting pass that phase 1 finds has a completed cycle, whatever AccessGrid answers its
      call, if it makes one; so the claims above are about something. */
  lemma CycleExists(st: State, now: int, k: Key, answer: seq<AgCard>, detail: map<string, AgCard>, asked: seq<Read>)
    requires Readable(st, now, answer, detail, asked)
    ensures Cycled(ViewOf(st, now, k), PLAIN_CONFIG, true, map[k := st.row], CycleTrace(st, now, k, detail, asked), k, st, now, answer)
  {
    hide AtRest, Cred, Shows, ViewOf, CallOf, IsTrace, ComesToAll, Remembered, FromIndex, OneRead, Answers, CycleTrace, ResolvedFor;
    ViewShows(st, now, k);
    CycleIsTraced(st, now, k, detail, asked);
    TraceAnswers(st, now, k, detail, asked);
  }

  /** One with a call: a pass of one card, recorded and on, that somebody suspended in AccessGrid. It is
      resumed, and of the pass nothing else is asked. */
  lemma SuspendedIsResumedByCycle(c: Card, slot: Slot, syncRef: string, now: int, k: Key)
    requires slot.active && slot.activation == None && slot.expiration == None && syncRef != ""
    ensures var st := OneCard(c, slot, Some(true), "suspended", "active", syncRef);
            var before, after := PassCard(c, "suspended"), PassCard(c, "active");
            var t := CycleTrace(st, now, k, map["pass" := after], [Read(before, Some(after))]);
            && Cycled(ViewOf(st, now, k), PLAIN_CONFIG, true, map[k := st.row], t, k, st, now, [after])
            && StateMoved(ViewOf(st, now, k), k, st.row)
            && CallsFor(k, AsksIn(t)) == [Call.Resume(k, "pass")]
  {
    var st := OneCard(c, slot, Some(true), "suspended", "active", syncRef);
    var before, after := PassCard(c, "suspended"), PassCard(c, "active");
    var detail, asked := map["pass" := after], [Read(before, Some(after))];
    hide AtRest, Cred, CallOf, Tidy, SameIdentities, CardDead, Cycled, CycleTrace, ViewOf, StateMoved, CallsFor, AsksIn, Lower, Strip,
         StateChanged, PassCard, DetailedAll, Remembered;
    SuspendedIsResumed(c, slot, syncRef, now);
    PlainStates();
    PassCardIsTidy(c, "suspended");
    PassCardIsTidy(c, "active");
    assert Restated([before], "active") == [after] by { RestatedCard(c); }
    RestatedIs([before], "active");
    OneReadBack(c);
    CycleExists(st, now, k, [after], detail, asked);
    CycleTakesCalls(ViewOf(st, now, k), PLAIN_CONFIG, true, map[k := st.row], CycleTrace(st, now, k, detail, asked), k, st, now, [after]);
    SuspendedHasMoved(st, now, k);
  }

  lemma RestatedCard(c: Card)
    ensures Restated([PassCard(c, "suspended")], "active") == [PassCard(c, "active")]
  {
  }

  lemma OneReadBack(c: Card)
    ensures var before, after := PassCard(c, "suspended"), PassCard(c, "active");
            Remembered(map["pass" := after], [Read(before, Some(after))]) && DetailedAll(map["pass" := after], [before]) == [after]
  {
  }

  lemma SuspendedHasMoved(st: State, now: int, k: Key)
    requires AtRest(st, now) && st.lookup == Same && st.row.syncRef != "" && StateChanged(st)
    ensures StateMoved(ViewOf(st, now, k), k, st.row)
  {
    ViewShows(st, now, k);
    ShownCredential(ViewOf(st, now, k), k, st, now);
    hide Cred, WrittenBack, Tidy, Expired, AgState, ViewOf, CredOf;
  }

  /** Nothing to suspend or resume, and the state remembered as it is listed. */
  predicate Steady(st: State, now: int) {
    AtRest(st, now) && st.lookup == Same && CallOf(st, now) == Nothing && st.row.lastKnown == ControlLoop.Listed(st) && st.row.syncRef != ""
  }

  /** One without a call. */
  lemma SteadyCycle(st: State, now: int, k: Key)
    requires Steady(st, now)
    ensures Cycled(ViewOf(st, now, k), PLAIN_CONFIG, true, map[k := st.row], CycleTrace(st, now, k, map[], []), k, st, now, st.cards)
  {
    assert DetailedAll(map[], st.cards) == st.cards;
    assert Readable(st, now, st.cards, map[], []) by { hide AtRest, CallOf; }
    hide AtRest, Cred, CallOf, Cycled, Readable, CycleTrace, ViewOf;
    CycleExists(st, now, k, st.cards, map[], []);
  }

  /** There are such: one card, recorded and on, under a pass remembered as active. */
  lemma OneCardIsSteady(c: Card, slot: Slot, syncRef: string, now: int)
    requires slot.active && slot.activation == None && slot.expiration == None && syncRef != ""
    ensures Steady(OneCard(c, slot, Some(true), "active", "active", syncRef), now)
  {
    var st := OneCard(c, slot, Some(true), "active", "active", syncRef);
    OneCardRests(c, slot, Some(true), "active", "active", syncRef, now);
    PassCardIsTidy(c, "active");
    assert AllOn(st);
    StatusAtRest(st, now);
    hide AtRest, Cred, PassCard;
  }
}

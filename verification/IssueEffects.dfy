/** What phases 1 and 5 come to over a whole table, said of the cardholders, the credentials and the rows, and
    of nothing the phases are defined by. */
module IssueEffects {
  import opened Base
  import opened Pacs
  import opened Ledger
  import opened AgCards
  import opened Snapshot
  import opened Tracking
  import opened Passes
  import opened Decisions
  import opened Asks
  import opened Issuing
  import opened PhaseRecords

  // ---- phase 1 ----

  /** A pass is asked for where an active, named and reachable cardholder's unheld credential has its trigger
      and has not run out, the table has no pass for it, no other tool tagged a card with its number, and the
      cap is not reached: exactly there. */
  lemma StepIsAsked(v: View, cfg: Config, before: Rows, after: Rows, r: Issues, i: nat)
    requires AreIssues(v, cfg, before, after, r) && UniqueIds(v) && i < |r.steps|
    ensures var k, cred := r.steps[i].key, r.steps[i].cred;
            var site := if cred.siteCode == "" then cfg.site else cred.siteCode;
            r.steps[i].outcome != Untried <==>
              && !cfg.dryRun && CountIssued(StepCalls(r.steps[..i])) < cfg.cap
              && k.person in v.people && v.people[k.person].active && v.people[k.person].fullName != ""
              && (v.people[k.person].email != "" || v.people[k.person].phone != "")
              && k.person in v.creds && cred in v.creds[k.person] && cred.id == k.credential
              && !cred.hold && cred.triggerActive && (cred.deactivate.Some? ==> v.now <= cred.deactivate.value)
              && (k in before ==> before[k].agCardId.GetOr("") == "")
              && !(cfg.dedupe && !cred.allocateIdentity && site != "" && cred.cardNumber != "" && (site, cred.cardNumber) in v.index.bySiteCard)
  {
    hide Queue, Walked, StepCalls, StepPushes, CountIssued, UniqueIds, Distinctly;
    WaitingIsAsked(v, cfg, before, r.order, r.steps, after, i);
  }

  /** One credential's row, once phase 1 is over. */
  lemma StepIsRecorded(v: View, cfg: Config, before: Rows, after: Rows, r: Issues, i: nat)
    requires AreIssues(v, cfg, before, after, r) && UniqueIds(v) && i < |r.steps|
    ensures r.steps[i].outcome.Errored? ==>
              var k := r.steps[i].key;
              && k in after
              && after[k] == Row(None, "pending", "", if k in before then before[k].syncRef else "", true,
                                 (if k in before then before[k].retries else 0) + 1)
    ensures r.steps[i].outcome.Issued? ==>
              var k, card, ref := r.steps[i].key, r.steps[i].outcome.card, r.steps[i].outcome.ref;
              var state := if card.state != "" then Lower(card.state) else "active";
              && k in after
              && after[k] == Row(Some(card.id), if state == "created" then "active" else state, state,
                                 if ref != "" then ref else if k in before then before[k].syncRef else "", false,
                                 if k in before then before[k].retries else 0)
  {
    hide Queue, Walked, StepCalls, StepPushes, CountIssued, UniqueIds, Distinctly, PassedOver;
    WaitingIsAsked(v, cfg, before, r.order, r.steps, after, i);
  }

  /** Where no pass was asked for: the row of a pass is brought up to the listing, another tool's card is
      written down in place of one, and any other row stays. */
  lemma PassedOverIsRecorded(v: View, cfg: Config, before: Rows, after: Rows, r: Issues, i: nat)
    requires AreIssues(v, cfg, before, after, r) && UniqueIds(v) && i < |r.steps| && r.steps[i].outcome == Untried
    ensures var k, cred := r.steps[i].key, r.steps[i].cred;
            var site := if cred.siteCode == "" then cfg.site else cred.siteCode;
            if cred.hold || !cred.triggerActive then SameAt(before, after, k)
            else if k in before && before[k].agCardId.GetOr("") != "" then
              var state := AgState(v, before[k], k, "");
              k in after && after[k] == if state == "" || before[k].status == "deduped" then before[k] else before[k].(lastKnown := state)
            else if MayIssue(v, k, cred) && cfg.dedupe && !cred.allocateIdentity && site != "" && cred.cardNumber != ""
                    && (site, cred.cardNumber) in v.index.bySiteCard then
              var other := v.index.bySiteCard[(site, cred.cardNumber)].id;
              k in after && after[k] == if k in before then before[k].(agCardId := Some(other), status := "deduped", syncError := false)
                                        else Row(Some(other), "deduped", "", "", false, 0)
            else SameAt(before, after, k)
  {
    hide Queue, Walked, StepCalls, StepPushes, CountIssued, UniqueIds, Distinctly, AgState, MayIssue;
    WaitingIsAsked(v, cfg, before, r.order, r.steps, after, i);
  }

  /** Phase 1 takes a step for every credential of the active cardholders it came to, and no other. */
  lemma StepsAreCredentials(v: View, cfg: Config, before: Rows, after: Rows, r: Issues, k: Key, cred: Credential)
    requires AreIssues(v, cfg, before, after, r)
    ensures (exists s <- r.steps :: s.key == k && s.cred == cred) <==>
              && k.person in r.order && k.person in v.people && v.people[k.person].active
              && cred in v.creds[k.person] && cred.id == k.credential
  {
    hide Queue, AreSteps, AfterSteps, StepCalls, StepPushes, CountIssued, Distinctly;
    QueuedBy(v, r.order);
    if exists s <- r.steps :: s.key == k && s.cred == cred {
      var i :| 0 <= i < |r.steps| && r.steps[i].key == k && r.steps[i].cred == cred;
      assert Items(r.steps)[i] == Item(k, cred) && Items(r.steps)[i] in Queue(v, r.order);
    }
    if k.person in r.order && k.person in v.people && v.people[k.person].active && cred in v.creds[k.person] && cred.id == k.credential {
      var j :| 0 <= j < |v.creds[k.person]| && v.creds[k.person][j] == cred;
      var i := QueuedAt(v, r.order, k.person, j);
      assert Items(r.steps)[i] == Item(k, cred);
      assert r.steps[i].key == k && r.steps[i].cred == cred && r.steps[i] in r.steps;
    }
  }

  /** A pass just issued is handed to a PACS that takes credentials, where AccessGrid allocated its cards:
      exactly the identities alive on it, if there are any. */
  lemma IssuedIsHandedOver(v: View, cfg: Config, before: Rows, after: Rows, r: Issues, k: Key, identities: seq<Identity>)
    requires AreIssues(v, cfg, before, after, r)
    ensures PacsCall.WriteBack(k, identities) in r.pushes <==>
              && cfg.supportsWriteback && identities != []
              && exists s <- r.steps :: s.key == k && s.cred.allocateIdentity && s.outcome.Issued? && identities == Offered([s.outcome.card])
    ensures forall c <- r.pushes :: c.WriteBack?
  {
    hide Walked, StepCalls, CountIssued, Offered;
    HandedAlong(cfg, r.steps, k, identities);
  }

  lemma {:induction false} HandedAlong(cfg: Config, steps: seq<Step>, k: Key, identities: seq<Identity>)
    ensures PacsCall.WriteBack(k, identities) in StepPushes(cfg, steps) <==>
              && cfg.supportsWriteback && identities != []
              && exists s <- steps :: s.key == k && s.cred.allocateIdentity && s.outcome.Issued? && identities == Offered([s.outcome.card])
    ensures forall c <- StepPushes(cfg, steps) :: c.WriteBack?
  {
    if steps != [] {
      hide Offered;
      var front, last := steps[..|steps| - 1], steps[|steps| - 1];
      assert steps == front + [last];
      HandedAlong(cfg, front, k, identities);
    }
  }

  lemma {:induction false} QueuedBy(v: View, order: seq<string>)
    requires forall p <- order :: p in v.creds
    ensures forall x <- Queue(v, order) ::
              && x.key.person in order && x.key.person in v.people && v.people[x.key.person].active
              && x.cred in v.creds[x.key.person] && x.cred.id == x.key.credential
  {
    if order != [] {
      assert order == order[..|order| - 1] + [order[|order| - 1]];
      QueuedBy(v, order[..|order| - 1]);
    }
  }

  // ---- phase 5 ----

  /** A row whose issue failed, fewer than three times, is asked for again while its credential is there,
      unheld, with its trigger, the cardholder can be reached, and no other tool tagged a card with its
      number: exactly then. */
  lemma RetryIsAsked(v: View, cfg: Config, before: Rows, after: Rows, r: Reissues, k: Key)
    requires AreReissues(v, cfg, before, after, r) && forall x :: x in r.listing <==> x in before && Retryable(before[x])
    ensures (exists c <- r.calls :: c.key == k) <==>
              && k in before && before[k].syncError && before[k].retries < 3 && before[k].agCardId.None? && !cfg.dryRun && CredOf(v, k).Some?
              && var cred := CredOf(v, k).value;
                 var site := if cred.siteCode == "" then cfg.site else cred.siteCode;
                 && k.person in v.people && (v.people[k.person].email != "" || v.people[k.person].phone != "")
                 && !cred.hold && cred.triggerActive
                 && !(cfg.dedupe && !cred.allocateIdentity && site != "" && cred.cardNumber != "" && (site, cred.cardNumber) in v.index.bySiteCard)
    ensures forall c <- r.calls :: c.Provision?
  {
    hide CredOf, AfterRetry, RetryPushes, RetryCalls;
    RetriedAlong(r.listing, r.tried);
    CredOfIsRead(v, k);
    assert k in r.listing ==> (k in r.tried <==> Retries(v, cfg, k));
  }

  lemma CredOfIsRead(v: View, k: Key)
    ensures CredOf(v, k).Some? ==> CredOf(v, k).value in CredsOf(v, k.person) && CredOf(v, k).value.id == k.credential
  {
  }

  lemma {:induction false} RetriedAlong(failed: seq<Key>, tried: map<Key, Outcome>)
    requires forall k <- tried :: !tried[k].Untried?
    ensures forall k: Key :: (exists c <- RetryCalls(failed, tried) :: c.key == k) <==> k in failed && k in tried
    ensures forall c <- RetryCalls(failed, tried) :: c.Provision?
  {
    if failed != [] {
      var n := |failed| - 1;
      var front, last := failed[..n], failed[n];
      assert failed == front + [last];
      RetriedAlong(front, tried);
      var calls := RetryCalls(front, tried);
      forall k: Key ensures (exists c <- RetryCalls(failed, tried) :: c.key == k) <==> k in failed && k in tried {
        if last in tried {
          assert RetryCalls(failed, tried)[|calls|].key == last;
        }
        if c :| c in calls && c.key == k {
          assert c in RetryCalls(failed, tried);
        }
      }
    }
  }

  /** What is issued again is handed over as what phase 1 issues is. */
  lemma {:induction false} ReissuedIsHandedOver(v: View, cfg: Config, failed: seq<Key>, tried: map<Key, Outcome>, k: Key, identities: seq<Identity>)
    ensures PacsCall.WriteBack(k, identities) in RetryPushes(v, cfg, failed, tried) <==>
              && cfg.supportsWriteback && identities != [] && k in failed && k in tried && tried[k].Issued?
              && CredOf(v, k).Some? && CredOf(v, k).value.allocateIdentity && identities == Offered([tried[k].card])
    ensures forall c <- RetryPushes(v, cfg, failed, tried) :: c.WriteBack?
  {
    if failed != [] {
      hide Offered, CredOf;
      var front, last := failed[..|failed| - 1], failed[|failed| - 1];
      assert failed == front + [last];
      ReissuedIsHandedOver(v, cfg, front, tried, k, identities);
    }
  }

  /** And its row as that ended: left for a held credential; dropped when there is nothing to issue for;
      counted as a failure where nobody can be reached; another tool's card; the attempt's outcome. */
  lemma RetryIsRecorded(v: View, cfg: Config, before: Rows, after: Rows, r: Reissues, k: Key)
    requires AreReissues(v, cfg, before, after, r) && k in r.listing && k in before
    ensures var row, cred := before[k], CredOf(v, k);
            var tagged := && cred.Some? && cfg.dedupe && !cred.value.allocateIdentity && cred.value.cardNumber != ""
                          && (if cred.value.siteCode == "" then cfg.site else cred.value.siteCode) != ""
                          && (if cred.value.siteCode == "" then cfg.site else cred.value.siteCode, cred.value.cardNumber) in v.index.bySiteCard;
            if cred.Some? && cred.value.hold then k in after && after[k] == row
            else if cred.None? || k.person !in v.people || !cred.value.triggerActive then k !in after
            else if v.people[k.person].email == "" && v.people[k.person].phone == "" then
              k in after && after[k] == row.(syncError := true, retries := row.retries + 1)
            else if tagged then
              && k in after && after[k].status == "deduped" && !after[k].syncError
              && after[k].agCardId == Some(v.index.bySiteCard[(if cred.value.siteCode == "" then cfg.site else cred.value.siteCode, cred.value.cardNumber)].id)
            else if cfg.dryRun then k in after && after[k] == row
            else
              && k in r.tried && k in after
              && (r.tried[k].Errored? ==> after[k] == row.(syncError := true, retries := row.retries + 1))
              && (r.tried[k].Issued? ==>
                    var card, ref := r.tried[k].card, r.tried[k].ref;
                    var state := if card.state != "" then Lower(card.state) else "active";
                    after[k] == Row(Some(card.id), if state == "created" then "active" else state, state, if ref != "" then ref else row.syncRef,
                                    false, row.retries))
  {
    hide CredOf, AfterAttempt, RetryPushes, RetryCalls;
    CredOfIsRead(v, k);
    assert SameAt(AfterRetry(v, cfg, before, k, OutcomeAt(r.tried, k)), after, k);
    AttemptLeaves(before, k, OutcomeAt(r.tried, k));
  }

  lemma AttemptLeaves(rows: Rows, k: Key, outcome: Outcome)
    requires k in rows
    ensures k in AfterAttempt(rows, k, outcome)
    ensures outcome.Errored? ==> AfterAttempt(rows, k, outcome)[k] == rows[k].(syncError := true, retries := rows[k].retries + 1)
    ensures outcome.Issued? ==>
              var state := if outcome.card.state != "" then Lower(outcome.card.state) else "active";
              AfterAttempt(rows, k, outcome)[k] ==
              Row(Some(outcome.card.id), if state == "created" then "active" else state, state,
                  if outcome.ref != "" then outcome.ref else rows[k].syncRef, false, rows[k].retries)
  {
  }
}

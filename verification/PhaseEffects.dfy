/** What phases 2, 3 and 4 come to over a whole table, said of the rows, the credentials and the states
    listed, and of nothing the phases are defined by. */
module PhaseEffects {
  import opened Base
  import opened Order
  import opened Pacs
  import opened Ledger
  import opened AgCards
  import opened Snapshot
  import opened Tracking
  import opened Passes
  import opened Decisions
  import opened Retirement
  import opened Asks
  import opened Issuing
  import opened PhaseRecords
  import opened PassCalls
  import opened Traces

  // ---- the state a pass reads ----

  /** A pass reads the state of the first card listed under its reference; one whose reference is not listed
      that of the last card listed under its id, and nothing where there is none. */
  lemma StateIsRead(v: View, cards: seq<AgCard>, k: Key, row: Row)
    requires Refines(v.index, cards) && row.syncRef != ""
    ensures var id, state := row.agCardId.GetOr(""), AgState(v, row, k, row.syncRef);
            if exists c <- cards :: c.syncRef == row.syncRef then
              exists i | 0 <= i < |cards| :: cards[i].syncRef == row.syncRef && (forall j | 0 <= j < i :: cards[j].syncRef != row.syncRef)
                                             && state == Lower(cards[i].state)
            else if id != "" && exists c <- cards :: c.id == id then
              exists i | 0 <= i < |cards| :: cards[i].id == id && (forall j | i < j < |cards| :: cards[j].id != id) && state == Lower(cards[i].state)
            else state == ""
  {
    hide Lower, Refines;
    FirstKept((c: AgCard) => c.syncRef == row.syncRef, cards);
    if exists c <- cards :: c.syncRef == row.syncRef {
      ListedReferenceDecides(v.index, cards, row.agCardId.GetOr(""), k.person, k.credential, row.syncRef);
    } else {
      UnlistedReferenceNeverFallsThrough(v.index, cards, row.agCardId.GetOr(""), k.person, k.credential, row.syncRef);
      LastIsLast(cards, row.agCardId.GetOr(""));
    }
    hide Resolve;
  }

  // ---- phase 2 ----

  /** Of phase 2's calls, a row's own; and the row as they were answered. */
  lemma StatusesAt(v: View, cfg: Config, before: Rows, after: Rows, r: Statuses, k: Key)
    requires AreStatuses(v, cfg, before, after, r) && ListsAll(r.listing, before)
    ensures CallsFor(k, r.calls) == if k in before then Phase2Asks(v, cfg, k, before[k]) else []
    ensures k in before ==> SameAt(AfterAnswered(before, Phase2Asks(v, cfg, k, before[k]), AnswerAt(r.answers, k)), after, k)
    ensures forall c :: c in CallsFor(k, r.calls) <==> c in r.calls && c.key == k
  {
    hide Phase2Asks, Phase2All, CallsFor, AfterAnswered;
    Phase2For(v, cfg, before, r.listing, k);
    CallsForAre(k, r.calls);
  }

  lemma CallsForAre(k: Key, calls: seq<Call>)
    ensures forall c :: c in CallsFor(k, calls) <==> c in calls && c.key == k
  {
  }

  /** A pass whose credential was read, unheld, without its trigger is deleted, whatever its state and
      history, and asked nothing else; no other pass is deleted by phase 2. */
  lemma WithdrawnIsDeleted(v: View, cfg: Config, before: Rows, after: Rows, r: Statuses, k: Key)
    requires AreStatuses(v, cfg, before, after, r) && ListsAll(r.listing, before) && !cfg.dryRun
    ensures (exists c <- r.calls :: c.Delete? && c.key == k) <==>
              && k in before && before[k].status !in {"deleted", "pending", "deduped"}
              && before[k].agCardId.Some? && before[k].agCardId.value != ""
              && CredOf(v, k).Some? && !CredOf(v, k).value.hold && !CredOf(v, k).value.triggerActive
    ensures (exists c <- r.calls :: c.Delete? && c.key == k) ==>
              && k in before && before[k].agCardId.Some? && CallsFor(k, r.calls) == [Call.Delete(k, before[k].agCardId.value)]
  {
    hide CallsFor, AgState, AreStatuses;
    StatusesAt(v, cfg, before, after, r, k);
    var own := CallsFor(k, r.calls);
    assert (exists c <- r.calls :: c.Delete? && c.key == k) <==> (exists c <- own :: c.Delete?);
  }

  lemma WithdrawnAreDeleted(v: View, cfg: Config, before: Rows, after: Rows, r: Statuses)
    requires AreStatuses(v, cfg, before, after, r) && ListsAll(r.listing, before) && !cfg.dryRun
    ensures forall k: Key :: (exists c <- r.calls :: c.Delete? && c.key == k) <==>
              && k in before && before[k].status !in {"deleted", "pending", "deduped"} && before[k].agCardId.GetOr("") != ""
              && CredOf(v, k).Some? && !CredOf(v, k).value.hold && !CredOf(v, k).value.triggerActive
    ensures forall c <- r.calls | c.Delete? :: c.key in before && before[c.key].agCardId == Some(c.id)
  {
    hide CallsFor, AgState, AreStatuses, CredOf, ListsAll;
    forall k: Key
      ensures (exists c <- r.calls :: c.Delete? && c.key == k) <==>
              && k in before && before[k].status !in {"deleted", "pending", "deduped"} && before[k].agCardId.GetOr("") != ""
              && CredOf(v, k).Some? && !CredOf(v, k).value.hold && !CredOf(v, k).value.triggerActive
    {
      WithdrawnIsDeleted(v, cfg, before, after, r, k);
    }
    forall c | c in r.calls && c.Delete? ensures c.key in before && before[c.key].agCardId == Some(c.id) {
      WithdrawnIsDeleted(v, cfg, before, after, r, c.key);
      CallsForAre(c.key, r.calls);
      assert c in CallsFor(c.key, r.calls);
    }
  }

  /** While the trigger is there, the credential's status is carried to its pass: a pass whose state is not
      the one remembered is left alone; else an active credential has its suspended pass resumed, and one
      neither active nor waiting for its pass to be installed has it suspended, where it is active, is not
      listed, or is a customer's own card just created. Nothing else is asked. */
  lemma StatusIsCarriedOver(v: View, cfg: Config, before: Rows, after: Rows, r: Statuses, k: Key)
    requires AreStatuses(v, cfg, before, after, r) && ListsAll(r.listing, before) && !cfg.dryRun
    requires k in before && CredOf(v, k).Some? && CredOf(v, k).value.triggerActive
    ensures var row, cred := before[k], CredOf(v, k).value;
            var state, id := AgState(v, row, k, row.syncRef), row.agCardId.GetOr("");
            CallsFor(k, r.calls) ==
            if row.status == "deleted" || row.status == "pending" || row.status == "deduped" || id == "" || cred.hold then []
            else if state != "" && row.lastKnown != "" && state != row.lastKnown then []
            else if cred.status == Active && state == "suspended" then [Call.Resume(k, id)]
            else if cred.status in {Suspended, Unknown} && (state == "" || state == "active" || (state == "created" && !cred.allocateIdentity))
                 then [Call.Suspend(k, id)]
            else []
  {
    hide CallsFor, AgState, AreStatuses, CredOf;
    StatusesAt(v, cfg, before, after, r, k);
    StateNames();
  }

  /** And an answered call is what the row shows; any other leaves it. */
  lemma StatusIsRecorded(v: View, cfg: Config, before: Rows, after: Rows, r: Statuses, k: Key)
    requires AreStatuses(v, cfg, before, after, r) && ListsAll(r.listing, before) && k in before
    ensures k in after
    ensures after[k] ==
            if AnswerAt(r.answers, k) != Some(Done) then before[k]
            else if exists c <- r.calls :: c.Delete? && c.key == k then Row(None, "deleted", "deleted", before[k].syncRef, false, 0)
            else if exists c <- r.calls :: c.Resume? && c.key == k then before[k].(status := "active", lastKnown := "active", syncError := false, retries := 0)
            else if exists c <- r.calls :: c.Suspend? && c.key == k
                 then before[k].(status := "suspended", lastKnown := "suspended", syncError := false, retries := 0)
            else before[k]
  {
    hide CallsFor, AgState, AreStatuses, CredOf, Phase2Call;
    StatusesAt(v, cfg, before, after, r, k);
    StateNames();
    var own := CallsFor(k, r.calls);
    assert forall c :: c in own <==> c in r.calls && c.key == k;
    assert own != [] ==> own == [own[0]] && own[0] in own;
  }

  lemma StateNames()
    ensures "active" != "suspended" && "active" != "created" && "suspended" != "created"
    ensures "active" != "" && "suspended" != "" && "created" != ""
  {
    assert |"active"| == 6 && |"created"| == 7 && |"suspended"| == 9;
  }

  // ---- phase 3 ----

  /** What phase 3 asks of a row, and what it counts against its cap. */
  lemma RevokedStep(v: View, cfg: Config, complete: bool, rows: Rows, listing: seq<Key>)
    requires (forall k <- listing :: k in rows) && listing != []
    ensures var k, front := listing[|listing| - 1], listing[..|listing| - 1];
            var before, reason := ExpiredIn(v, complete, rows, front), Phase3Reason(v, complete, k);
            var open := rows[k].status != "deleted" && rows[k].status != "deduped" && rows[k].agCardId.GetOr("") != "";
            && listing == front + [k]
            && Phase3All(v, cfg, complete, rows, listing) ==
               Phase3All(v, cfg, complete, rows, front)
               + (if open && !cfg.dryRun && (reason == Missing || (reason == RanOut && before < 25)) then [Call.Delete(k, rows[k].agCardId.GetOr(""))] else [])
            && ExpiredIn(v, complete, rows, listing) == before + if open && reason == RanOut && before < 25 then 1 else 0
  {
    hide Phase3Reason;
  }

  /** Each is deleted by the id its row holds, and with its reason. */
  lemma {:induction false} RevokedWithReason(v: View, cfg: Config, complete: bool, rows: Rows, listing: seq<Key>)
    requires forall k <- listing :: k in rows
    ensures forall c <- Phase3All(v, cfg, complete, rows, listing) ::
              && c.Delete? && c.key in listing && rows[c.key].agCardId == Some(c.id) && c.id != "" && Phase3Reason(v, complete, c.key) != Keep
              && rows[c.key].status != "deleted" && rows[c.key].status != "deduped"
  {
    if listing != [] {
      RevokedStep(v, cfg, complete, rows, listing);
      RevokedWithReason(v, cfg, complete, rows, listing[..|listing| - 1]);
      hide Phase3All, ExpiredIn, Phase3Reason;
    }
  }

  /** Those whose credential is still reported are those counted against the cap. */
  lemma {:induction false} RevokedAreCounted(v: View, cfg: Config, complete: bool, rows: Rows, listing: seq<Key>)
    requires (forall k <- listing :: k in rows) && v.people != map[] && !cfg.dryRun
    ensures CountPresent(v, Phase3All(v, cfg, complete, rows, listing)) == ExpiredIn(v, complete, rows, listing)
  {
    if listing != [] {
      RevokedStep(v, cfg, complete, rows, listing);
      var k, front := listing[|listing| - 1], listing[..|listing| - 1];
      RevokedAreCounted(v, cfg, complete, rows, front);
      ReasonIsEvidence(v, complete, k);
      var calls := Phase3All(v, cfg, complete, rows, front);
      CountStep(v, calls, Call.Delete(k, rows[k].agCardId.GetOr("")));
      assert calls + [] == calls;
      hide Phase3All, ExpiredIn, Phase3Reason, CountPresent;
    }
  }

  /** And every row there is a reason for is asked, unless the cap was reached. */
  lemma {:induction false} RevokedAreAll(v: View, cfg: Config, complete: bool, rows: Rows, listing: seq<Key>, k: Key)
    requires (forall x <- listing :: x in rows) && !cfg.dryRun && k in listing
    requires rows[k].status != "deleted" && rows[k].status != "deduped" && rows[k].agCardId.GetOr("") != ""
    ensures var call := Call.Delete(k, rows[k].agCardId.GetOr(""));
            && (Phase3Reason(v, complete, k) == Missing ==> call in Phase3All(v, cfg, complete, rows, listing))
            && (Phase3Reason(v, complete, k) == RanOut ==>
                  call in Phase3All(v, cfg, complete, rows, listing) || ExpiredIn(v, complete, rows, listing) >= 25)
  {
    RevokedStep(v, cfg, complete, rows, listing);
    var front := listing[..|listing| - 1];
    if k in front {
      RevokedAreAll(v, cfg, complete, rows, front, k);
    }
    hide Phase3All, ExpiredIn, Phase3Reason;
  }

  /** Read, unheld, and past its date. */
  predicate ShownRunOut(v: View, k: Key) {
    && k.person in v.people && CredOf(v, k).Some? && !CredOf(v, k).value.hold
    && CredOf(v, k).value.deactivate.Some? && CredOf(v, k).value.deactivate.value < v.now
  }

  /** Its cardholder is not in the roster, or was read and has no such credential. */
  predicate ShownMissing(v: View, k: Key) {
    if CredOf(v, k).None? then k.person !in v.people || k.person in v.creds else k.person !in v.people && !CredOf(v, k).value.hold
  }

  /** A read of less than three tenths of the last whole one has no pass deleted but for credentials that
      were read and have run out; a whole one has those deleted too that it shows missing. */
  lemma OnlyTheseAreDeleted(v: View, cfg: Config, previous: nat, index: Index, detail: map<string, AgCard>, before: Rows, after: Rows,
                            r: Revocations)
    requires AreRevocations(v, cfg, Complete(v, previous), index, detail, before, after, r) && (v.people == map[] ==> r.listing == [])
    ensures forall c <- r.calls ::
              && c.Delete? && c.key in before && before[c.key].agCardId == Some(c.id) && c.id != "" && before[c.key].status !in {"deleted", "deduped"}
              && (ShownRunOut(v, c.key) || (10 * |v.people| >= 3 * previous && ShownMissing(v, c.key)))
  {
    hide Phase3All, ExpiredAll, ExpiredKnown, ExpiredIn, CredOf, AfterTold, CountPresent, RowsAsTold;
    if v.people == map[] {
      RevokedNowhere(v, cfg, Complete(v, previous), before);
    } else {
      RevokedWithReason(v, cfg, Complete(v, previous), before, r.listing);
    }
    CredIsRead(v);
  }

  lemma RevokedNowhere(v: View, cfg: Config, complete: bool, rows: Rows)
    ensures Phase3All(v, cfg, complete, rows, []) == []
  {
  }

  /** And a whole read that comes to the end of the table has every one of those deleted, as a short one has
      those run out: at most 25 of them, and all of them unless they are 25. */
  lemma AllTheseAreDeleted(v: View, cfg: Config, previous: nat, index: Index, detail: map<string, AgCard>, before: Rows, after: Rows,
                           r: Revocations)
    requires AreRevocations(v, cfg, Complete(v, previous), index, detail, before, after, r) && v.people != map[]
    requires ListsAll(r.listing, before) && !cfg.dryRun
    ensures CountPresent(v, r.calls) <= 25
    ensures forall k <- before | before[k].status !in {"deleted", "deduped"} && before[k].agCardId.GetOr("") != "" ::
              && (10 * |v.people| >= 3 * previous && ShownMissing(v, k) ==> Call.Delete(k, before[k].agCardId.GetOr("")) in r.calls)
              && (ShownRunOut(v, k) ==> Call.Delete(k, before[k].agCardId.GetOr("")) in r.calls || CountPresent(v, r.calls) == 25)
  {
    hide Phase3All, ExpiredAll, ExpiredKnown, ExpiredIn, CredOf, AfterTold, CountPresent, RowsAsTold;
    var complete := Complete(v, previous);
    RevokedAreCounted(v, cfg, complete, before, r.listing);
    CredIsRead(v);
    forall k | k in before && before[k].status !in {"deleted", "deduped"} && before[k].agCardId.GetOr("") != ""
      ensures var call := Call.Delete(k, before[k].agCardId.GetOr(""));
              && (Phase3Reason(v, complete, k) == Missing ==> call in r.calls)
              && (Phase3Reason(v, complete, k) == RanOut ==> call in r.calls || CountPresent(v, r.calls) >= 25)
    {
      RevokedAreAll(v, cfg, complete, before, r.listing, k);
    }
  }

  lemma DeletedOf(v: View, cfg: Config, previous: nat, index: Index, detail: map<string, AgCard>, before: Rows, after: Rows,
                  r: Revocations, whole: bool)
    requires AreRevocations(v, cfg, Complete(v, previous), index, detail, before, after, r) && v.people != map[] && (whole ==> ListsAll(r.listing, before))
    ensures forall c <- r.calls ::
              && c.Delete? && c.key in before && before[c.key].agCardId == Some(c.id)
              && (ShownRunOut(v, c.key) || (10 * |v.people| >= 3 * previous && ShownMissing(v, c.key)))
    ensures whole && !cfg.dryRun ==>
              forall k <- before | before[k].status !in {"deleted", "deduped"} && before[k].agCardId.GetOr("") != "" ::
                var call := Call.Delete(k, before[k].agCardId.GetOr(""));
                && (10 * |v.people| >= 3 * previous && ShownMissing(v, k) ==> call in r.calls)
                && (ShownRunOut(v, k) ==> call in r.calls || CountPresent(v, r.calls) == 25)
  {
    hide AreRevocations, ListsAll, Complete, CountPresent, ShownMissing, ShownRunOut;
    OnlyTheseAreDeleted(v, cfg, previous, index, detail, before, after, r);
    if whole && !cfg.dryRun {
      AllTheseAreDeleted(v, cfg, previous, index, detail, before, after, r);
    }
  }

  lemma CompleteSays(v: View, previous: nat)
    ensures Complete(v, previous) <==> 10 * |v.people| >= 3 * previous
  {
  }

  /** The same of a cycle, as far as it got. */
  lemma CycleDeletes(v: View, cfg: Config, previous: nat, rows: Rows, t: Trace)
    requires IsTrace(v, cfg, Complete(v, previous), rows, t)
    ensures forall c <- t.revoked.calls ::
              && c.Delete? && c.key in t.rows3 && t.rows3[c.key].agCardId == Some(c.id)
              && (ShownRunOut(v, c.key) || (10 * |v.people| >= 3 * previous && ShownMissing(v, c.key)))
    ensures ComesToAll(v, cfg, t) && v.people != map[] && !cfg.dryRun ==>
              forall k <- t.rows3 | t.rows3[k].status !in {"deleted", "deduped"} && t.rows3[k].agCardId.GetOr("") != "" ::
                && (10 * |v.people| >= 3 * previous && ShownMissing(v, k) ==> Call.Delete(k, t.rows3[k].agCardId.GetOr("")) in t.revoked.calls)
                && (ShownRunOut(v, k) ==> Call.Delete(k, t.rows3[k].agCardId.GetOr("")) in t.revoked.calls || CountPresent(v, t.revoked.calls) == 25)
  {
    hide AreIssues, AreStatuses, AreRevocations, AreReleases, AreStates, AreReissues, CountPresent, Retryable, Grown, Remembered, FromIndex,
         ListsAll, Complete, ShownMissing, ShownRunOut;
    OnlyTheseAreDeleted(v, cfg, previous, v.index, t.detail3, t.rows3, t.rows4, t.revoked);
    if ComesToAll(v, cfg, t) && v.people != map[] && !cfg.dryRun {
      AllTheseAreDeleted(v, cfg, previous, v.index, t.detail3, t.rows3, t.rows4, t.revoked);
    }
  }

  lemma CredIsRead(v: View)
    ensures forall k :: CredOf(v, k).Some? ==> k.person in v.creds
  {
  }

  /** A row is released once its deletion was answered, and dropped where the pass was gone already. */
  lemma DeletionIsRecorded(v: View, cfg: Config, complete: bool, index: Index, detail: map<string, AgCard>, before: Rows, after: Rows,
                           r: Revocations, k: Key)
    requires AreRevocations(v, cfg, complete, index, detail, before, after, r) && k in before
    ensures k in r.told <==> exists c <- r.calls :: c.key == k
    ensures k in after <==> !(k in r.told && r.told[k].answer == NotFound)
    ensures k in after ==>
              after[k] == if k in r.told && r.told[k].answer == Done then Row(None, "deleted", "deleted", before[k].syncRef, false, 0) else before[k]
  {
    hide Phase3All, ExpiredAll, ExpiredKnown;
    assert SameAt(AfterTold(before, k, ToldAt(r.told, k)), after, k);
  }

  /** The cards of an expired pass whose deletion was answered are retired, as they were read before it:
      exactly the identities alive on any of them. */
  lemma ExpiredAreRetired(v: View, cfg: Config, complete: bool, index: Index, detail: map<string, AgCard>, before: Rows, after: Rows,
                          r: Revocations, k: Key)
    requires AreRevocations(v, cfg, complete, index, detail, before, after, r)
    ensures (exists c <- r.retired :: c.key == k) <==>
              && cfg.supportsRetirement && k in before && k in r.told && r.told[k].answer == Done && CardsOf(index, detail, k, before[k]) != []
              && CredOf(v, k).Some? && CredOf(v, k).value.deactivate.Some? && CredOf(v, k).value.deactivate.value < v.now
    ensures forall c <- r.retired ::
              c.Retire? && c.key in before
              && forall card :: (exists i <- c.identities :: i.card == card) <==> LiveSomewhere(CardsOf(index, detail, c.key, before[c.key]), card)
  {
    hide Phase3All, ExpiredKnown, CardsOf, CredOf, AfterTold, LiveSomewhere, ExpiredAll, Offered;
    ExpiredAlong(v, cfg, index, detail, before, r.listing, r.told, k);
    forall c | c in r.retired
      ensures c.Retire? && c.key in before
      ensures forall card :: (exists i <- c.identities :: i.card == card) <==> LiveSomewhere(CardsOf(index, detail, c.key, before[c.key]), card)
    {
      ExpiredOnAnswer(v, cfg, index, detail, before, r.listing, r.told, c);
    }
  }

  lemma {:induction false} ExpiredAlong(v: View, cfg: Config, index: Index, detail: map<string, AgCard>, rows: Rows, listing: seq<Key>,
                                        told: map<Key, Told>, k: Key)
    requires forall x <- listing :: x in rows
    ensures (exists c <- ExpiredAll(v, cfg, index, detail, rows, listing, told) :: c.key == k) <==>
              k in listing && ExpiredCalls(v, cfg, index, detail, k, rows[k], ToldAt(told, k)) != []
  {
    if listing != [] {
      hide ExpiredAll, ExpiredCalls;
      var n := |listing| - 1;
      var x, front := listing[n], listing[..n];
      assert listing == front + [x] && listing[..n + 1] == listing;
      ExpiredAlong(v, cfg, index, detail, rows, front, told, k);
      ExpiredStep(v, cfg, index, detail, rows, listing, n, told);
      var before, more := ExpiredAll(v, cfg, index, detail, rows, front, told), ExpiredCalls(v, cfg, index, detail, x, rows[x], ToldAt(told, x));
      ExpiredIsAbout(v, cfg, index, detail, x, rows[x], ToldAt(told, x));
      assert forall c :: c in before + more <==> c in before || c in more;
      if more != [] {
        assert more[0] in before + more && more[0].key == x;
      }
    }
  }

  lemma ExpiredIsAbout(v: View, cfg: Config, index: Index, detail: map<string, AgCard>, k: Key, row: Row, told: Option<Told>)
    ensures forall c <- ExpiredCalls(v, cfg, index, detail, k, row, told) :: c.key == k
  {
    hide CardsOf, Offered;
  }

  /** And of a row with a pass of the sync's own and cards it wrote, the identities AccessGrid says are deleted
      are retired, if there are any: exactly those, and unless 25 were retired already. */
  lemma DeadAreReleased(index: Index, detail: map<string, AgCard>, rows: Rows, r: Releases, k: Key)
    requires AreReleases(index, detail, rows, r) && ListsAll(r.listing, rows)
    ensures (exists c <- r.calls :: c.key == k) ==>
              && k in rows && rows[k].status != "deduped" && rows[k].agCardId.GetOr("") != "" && k in r.written
              && exists card :: DeadSomewhere(CardsOf(index, detail, k, rows[k]), card)
    ensures k in rows && rows[k].status != "deduped" && rows[k].agCardId.GetOr("") != "" && k in r.written
            && (exists card :: DeadSomewhere(CardsOf(index, detail, k, rows[k]), card))
            ==> (exists c <- r.calls :: c.key == k) || Total(r.calls) >= 25
    ensures forall c <- r.calls | c.key == k ::
              && c.Retire? && k in rows
              && forall card :: (exists i <- c.identities :: i.card == card) <==> DeadSomewhere(CardsOf(index, detail, k, rows[k]), card)
  {
    hide ToldAbout, CardsOf, Total, Retirements, DeadSomewhere, Released, CallsKnown;
    forall n | 0 <= n < |r.calls| && r.calls[n].key == k
      ensures k in rows && Releasable(r.written, k, rows[k]) && r.calls[n].Retire? && r.calls[n].identities != []
      ensures forall card :: InIdentities(r.calls[n].identities, card) <==> DeadSomewhere(CardsOf(index, detail, k, rows[k]), card)
    {
      RetiredOnEvidence(index, detail, rows, r.written, r.listing, r.counts, n);
    }
    if n :| 0 <= n < |r.calls| && r.calls[n].key == k {
      assert InIdentities(r.calls[n].identities, r.calls[n].identities[0].card);
    }
    if k in rows {
      var cards := CardsOf(index, detail, k, rows[k]);
      ReleasedExactly(cards);
      assert (exists card :: DeadSomewhere(cards, card)) ==> Released(cards) != [];
      if Releasable(r.written, k, rows[k]) && Released(cards) != [] {
        ReleasedOrEnough(index, detail, rows, r.written, r.listing, r.counts, k);
      }
    }
  }

  lemma ReleasedOrEnough(index: Index, detail: map<string, AgCard>, rows: Rows, written: set<Key>, listing: seq<Key>,
                         counts: map<Key, Option<nat>>, k: Key)
    requires ListsAll(listing, rows) && (forall x <- listing :: x in rows) && k in rows
    requires Releasable(written, k, rows[k]) && Released(CardsOf(index, detail, k, rows[k])) != []
    ensures var calls := Retirements(index, detail, rows, written, listing, counts);
            (exists c <- calls :: c.key == k) || Total(calls) >= 25
  {
    hide ToldAbout, CardsOf, Total, Retirements, Released;
    var calls := Retirements(index, detail, rows, written, listing, counts);
    var i :| 0 <= i < |listing| && listing[i] == k;
    ReleasedInTurn(index, detail, rows, written, listing, counts, i);
    if Total(Retirements(index, detail, rows, written, listing[..i], counts)) >= 25 {
      EnoughRetired(index, detail, rows, written, listing, i, counts);
    } else {
      assert ToldAbout(k, calls) != [];
      ToldIsIn(k, calls);
    }
  }

  lemma ToldIsIn(k: Key, calls: seq<PacsCall>)
    ensures forall c :: c in ToldAbout(k, calls) <==> c in calls && c.key == k
  {
  }

  // ---- phase 4 ----

  /** Of what phase 4 tells the PACS, what concerns one row, walk by walk. */
  lemma StatesAt(v: View, cfg: Config, index: Index, detail: map<string, AgCard>, before: Rows, after: Rows, r: States, k: Key)
    requires AreStates(v, cfg, index, detail, before, after, r) && ListsAll(r.listing, before)
    ensures k !in before ==> ToldAbout(k, r.calls) == []
    ensures k in before ==>
              ToldAbout(k, r.calls) == (if cfg.supportsWriteback then Phase4Asks(v, cfg, index, detail, OfferWalk, k, before[k])
                                                                      + Phase4Asks(v, cfg, index, detail, GateWalk, k, before[k]) else [])
                                       + (if cfg.supportsStatus then Phase4Asks(v, cfg, index, detail, FollowWalk, k, before[k]) else [])
  {
    hide Phase4Asks, Phase4All, ToldAbout, Followed;
    Phase4For(v, cfg, index, detail, OfferWalk, before, r.listing, k);
    Phase4For(v, cfg, index, detail, GateWalk, before, r.listing, k);
    Phase4For(v, cfg, index, detail, FollowWalk, before, r.listing, k);
    var offers, gates, follows := Phase4All(v, cfg, index, detail, OfferWalk, before, r.listing),
        Phase4All(v, cfg, index, detail, GateWalk, before, r.listing), Phase4All(v, cfg, index, detail, FollowWalk, before, r.listing);
    JoinTold(k, offers, gates);
    JoinTold(k, if cfg.supportsWriteback then offers + gates else [], if cfg.supportsStatus then follows else []);
    ToldOf(k, k, []);
  }

  /** A customer's own card follows its pass: where the pass's state is not the one remembered, the card
      is switched off for a suspended pass and on for an active or created one, unless it is so already.
      Nothing else is told of it. */
  lemma StateIsFollowed(v: View, cfg: Config, index: Index, detail: map<string, AgCard>, before: Rows, after: Rows, r: States, k: Key)
    requires AreStates(v, cfg, index, detail, before, after, r) && ListsAll(r.listing, before)
    requires k in before && CredOf(v, k).Some? && !CredOf(v, k).value.allocateIdentity
    ensures var row, cred, state := before[k], CredOf(v, k).value, AgState(v, before[k], k, before[k].syncRef);
            ToldAbout(k, r.calls) ==
            if !cfg.supportsStatus || row.status == "deleted" || row.status == "deduped" || row.agCardId.GetOr("") == "" || cred.hold
               || state == row.lastKnown then []
            else if state == "suspended" && cred.status != Suspended then [PacsCall.SetStatus(k, false)]
            else if (state == "active" || state == "created") && cred.status != Active then [PacsCall.SetStatus(k, true)]
            else []
  {
    hide ToldAbout, AgState, AreStates, CredOf, CardsOf, Offered, DesiredStatus;
    StatesAt(v, cfg, index, detail, before, after, r, k);
    StateNames();
  }

  lemma StatesAreFollowed(v: View, cfg: Config, index: Index, detail: map<string, AgCard>, before: Rows, after: Rows, r: States)
    requires AreStates(v, cfg, index, detail, before, after, r) && ListsAll(r.listing, before)
    ensures forall k <- before, want: bool | CredOf(v, k).Some? && !CredOf(v, k).value.allocateIdentity ::
              PacsCall.SetStatus(k, want) in r.calls <==>
                && cfg.supportsStatus && before[k].status !in {"deleted", "deduped"} && before[k].agCardId.GetOr("") != "" && !CredOf(v, k).value.hold
                && AgState(v, before[k], k, before[k].syncRef) != before[k].lastKnown
                && AgState(v, before[k], k, before[k].syncRef) in (if want then {"active", "created"} else {"suspended"})
                && CredOf(v, k).value.status != if want then Active else Suspended
  {
    hide ToldAbout, AgState, AreStates, CredOf, ListsAll;
    forall k, want: bool | k in before && CredOf(v, k).Some? && !CredOf(v, k).value.allocateIdentity
      ensures PacsCall.SetStatus(k, want) in r.calls <==>
                && cfg.supportsStatus && before[k].status !in {"deleted", "deduped"} && before[k].agCardId.GetOr("") != "" && !CredOf(v, k).value.hold
                && AgState(v, before[k], k, before[k].syncRef) != before[k].lastKnown
                && AgState(v, before[k], k, before[k].syncRef) in (if want then {"active", "created"} else {"suspended"})
                && CredOf(v, k).value.status != if want then Active else Suspended
    {
      StateIsFollowed(v, cfg, index, detail, before, after, r, k);
      ToldIsIn(k, r.calls);
      StateNames();
      assert PacsCall.SetStatus(k, want) in r.calls <==> PacsCall.SetStatus(k, want) in ToldAbout(k, r.calls);
    }
  }

  /** A card AccessGrid allocated is offered and gated instead: it is to be on exactly while a card of its
      pass is alive, none alive is suspended, and one is installed on a device; and its box is written where
      it is not so already. Nothing else is told of it. */
  lemma PassIsGated(v: View, cfg: Config, index: Index, detail: map<string, AgCard>, before: Rows, after: Rows, r: States, k: Key)
    requires AreStates(v, cfg, index, detail, before, after, r) && ListsAll(r.listing, before)
    requires k in before && CredOf(v, k).Some? && CredOf(v, k).value.allocateIdentity
    ensures var row, cred, cards := before[k], CredOf(v, k).value, CardsOf(index, detail, k, before[k]);
            var on := && (forall c <- cards :: StateText(c.state, c.status) != "suspended")
                      && (exists c <- cards, d <- c.devices ::
                            && StateText(c.state, c.status) !in {"deleted", "unlink", "unlinked"}
                            && StateText(d.state, d.status) in {"installed", "active"});
            ToldAbout(k, r.calls) ==
            if !cfg.supportsWriteback || row.status == "deleted" || row.status == "pending" || row.status == "deduped"
               || row.agCardId.GetOr("") == "" || cred.hold || cards == [] then []
            else (if Offered(cards) != [] then [PacsCall.WriteBack(k, Offered(cards))] else [])
                 + (if on && cred.status != Active then [PacsCall.SetStatus(k, true)]
                    else if !on && cred.status == Active then [PacsCall.SetStatus(k, false)] else [])
  {
    hide ToldAbout, AgState, AreStates, CredOf, CardsOf, Offered;
    StatesAt(v, cfg, index, detail, before, after, r, k);
    GateSays(CardsOf(index, detail, k, before[k]));
  }

  lemma GateSays(cards: seq<AgCard>)
    ensures DesiredStatus(cards) == Active <==>
              && (forall c <- cards :: StateText(c.state, c.status) != "suspended")
              && (exists c <- cards, d <- c.devices ::
                    && StateText(c.state, c.status) !in {"deleted", "unlink", "unlinked"}
                    && StateText(d.state, d.status) in {"installed", "active"})
  {
    hide StateText;
    assert "suspended" !in DEAD_STATES;
  }

  /** Whoever was not read, or is held, is told nothing. */
  lemma OthersAreNotTold(v: View, cfg: Config, index: Index, detail: map<string, AgCard>, before: Rows, after: Rows, r: States, k: Key)
    requires AreStates(v, cfg, index, detail, before, after, r) && ListsAll(r.listing, before)
    ensures k !in before || CredOf(v, k).None? || CredOf(v, k).value.hold ==> ToldAbout(k, r.calls) == []
  {
    hide ToldAbout, AgState, AreStates, CredOf, CardsOf, Offered, DesiredStatus;
    StatesAt(v, cfg, index, detail, before, after, r, k);
  }

  /** A pass's new state is remembered, unless its credential is held, or the PACS was told to follow it and
      refused; nothing else in the table changes. */
  lemma StateIsRemembered(v: View, cfg: Config, index: Index, detail: map<string, AgCard>, before: Rows, after: Rows, r: States, k: Key)
    requires AreStates(v, cfg, index, detail, before, after, r) && ListsAll(r.listing, before)
    ensures k in before <==> k in after
    ensures k in before ==>
              var row, state := before[k], AgState(v, before[k], k, before[k].syncRef);
              var held := CredOf(v, k).Some? && CredOf(v, k).value.hold && state in {"active", "created", "suspended"};
              var refused := k in r.taken && !r.taken[k];
              after[k] ==
              if cfg.supportsStatus && row.status != "deleted" && row.status != "deduped" && row.agCardId.GetOr("") != "" && state != "" && !held && !refused
              then row.(lastKnown := state) else row
  {
    hide ToldAbout, AgState, CredOf, CardsOf, Offered, DesiredStatus, Phase4Asks, Phase4All;
    StateNames();
  }

  /** The PACS answers for the states it was told, and for no others. */
  lemma FollowedIsAnswered(v: View, cfg: Config, index: Index, detail: map<string, AgCard>, before: Rows, after: Rows, r: States, k: Key)
    requires AreStates(v, cfg, index, detail, before, after, r) && ListsAll(r.listing, before)
    requires k in before && CredOf(v, k).Some? && !CredOf(v, k).value.allocateIdentity
    ensures k in r.taken <==> ToldAbout(k, r.calls) != []
  {
    hide ToldAbout, AgState, CredOf, CardsOf, Offered, DesiredStatus, Phase4All;
    StatesAt(v, cfg, index, detail, before, after, r, k);
  }

  // ---- a dry run ----

  /** A dry run asks nothing of AccessGrid. */
  lemma DryRunAsksNothing(v: View, cfg: Config, complete: bool, rows: Rows, t: Trace)
    requires IsTrace(v, cfg, complete, rows, t) && cfg.dryRun
    ensures t.issues.calls == [] && t.statuses.calls == [] && t.revoked.calls == [] && t.retries.calls == []
  {
    hide AreReleases, AreStates, CountPresent, Grown, Remembered, FromIndex, Phase2All, Phase3All, ExpiredAll, ExpiredKnown, RowsAsTold,
         AreSteps, AfterSteps, StepCalls, StepPushes, CountIssued, Queue, RetryCalls, RetryPushes;
    NoneIssued(v, cfg, rows, t.issues.steps);
    NoneOfPhase2(v, cfg, t.rows2, t.statuses.listing);
    NoneOfPhase3(v, cfg, complete, t.rows3, t.revoked.listing);
    assert forall k :: k !in t.retries.tried;
    NoneRetried(t.retries.listing, t.retries.tried);
  }

  lemma {:induction false} NoneIssued(v: View, cfg: Config, rows: Rows, steps: seq<Step>)
    requires AreSteps(v, cfg, rows, steps) && cfg.dryRun
    ensures StepCalls(steps) == []
  {
    hide MayIssue, DedupeHit, CountIssued, AfterSteps;
    if steps != [] {
      StepsBefore(v, cfg, rows, steps);
      NoneIssued(v, cfg, rows, steps[..|steps| - 1]);
    }
  }

  lemma {:induction false} NoneOfPhase2(v: View, cfg: Config, rows: Rows, listing: seq<Key>)
    requires (forall k <- listing :: k in rows) && cfg.dryRun
    ensures Phase2All(v, cfg, rows, listing) == []
  {
    if listing != [] {
      NoneOfPhase2(v, cfg, rows, listing[..|listing| - 1]);
    }
  }

  lemma {:induction false} NoneOfPhase3(v: View, cfg: Config, complete: bool, rows: Rows, listing: seq<Key>)
    requires (forall k <- listing :: k in rows) && cfg.dryRun
    ensures Phase3All(v, cfg, complete, rows, listing) == []
  {
    if listing != [] {
      hide Phase3Reason, ExpiredIn;
      NoneOfPhase3(v, cfg, complete, rows, listing[..|listing| - 1]);
    }
  }

  lemma {:induction false} NoneRetried(failed: seq<Key>, tried: map<Key, Outcome>)
    requires tried == map[]
    ensures RetryCalls(failed, tried) == []
  {
    if failed != [] {
      NoneRetried(failed[..|failed| - 1], tried);
    }
  }
}

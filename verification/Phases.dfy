/** The phases of a cycle that act on AccessGrid and on the tracking table. */
module Phases {
  import opened Base
  import opened Pacs
  import opened Ledger
  import opened AgCards
  import opened Snapshot
  import opened Tracking
  import opened Passes
  import opened Decisions
  import opened Retirement
  import opened Asks
  import opened Issuing
  import opened PhaseRecords
  import opened Traces
  import opened PassCalls
  import opened PhaseEffects

  /** The PACS adapter: what it answers is open here, what it was told is kept. */
  class Adapter {
    var calls: seq<PacsCall>

    constructor ()
      ensures calls == []
    {
      calls := [];
    }

    method WriteBackCredentials(k: Key, identities: seq<Identity>) returns (ok: bool)
      modifies this
      ensures calls == old(calls) + [PacsCall.WriteBack(k, identities)]
    {
      calls := calls + [PacsCall.WriteBack(k, identities)];
      ok := *;
    }

    method UpdateCredentialStatus(k: Key, want: bool) returns (ok: bool)
      modifies this
      ensures calls == old(calls) + [PacsCall.SetStatus(k, want)]
    {
      calls := calls + [PacsCall.SetStatus(k, want)];
      ok := *;
    }

    /** How many it retired; None when it raises. */
    method RetireCredentials(k: Key, identities: seq<Identity>) returns (count: Option<nat>)
      modifies this
      ensures calls == old(calls) + [PacsCall.Retire(k, identities, count)]
    {
      count := *;
      calls := calls + [PacsCall.Retire(k, identities, count)];
    }

    /** The passes it holds cards for that the sync wrote; none when it cannot say. */
    method WrittenCredentials() returns (written: set<Key>)
    {
      written := *;
    }
  }

  class Sync {
    const table: Tracking.Table
    const ag: AccessGrid
    const pacs: Adapter
    var baseline: nat            // the size of the last complete read

    constructor (table: Tracking.Table, ag: AccessGrid, pacs: Adapter)
      requires BooksKept(table.rows, ag)
      ensures this.table == table && this.ag == ag && this.pacs == pacs && baseline == 0 && Valid()
    {
      this.table, this.ag, this.pacs, baseline := table, ag, pacs, 0;
    }

    ghost predicate Valid()
      reads this, table, ag
    {
      BooksKept(table.rows, ag)
    }

    // ---- phase 1 ----

    /** Issues a pass and hands its identities back; a failure leaves the row to be retried. */
    method Issue(v: View, cfg: Config, k: Key, cred: Credential) returns (issued: bool, ghost outcome: Outcome)
      requires Valid() && k in table.rows && !PassAt(table.rows, k) && MayRetry(v, k, cred)
      modifies table, ag, pacs
      ensures Valid() && OnlyAt(old(table.rows), table.rows, k)
      ensures pacs.calls == old(pacs.calls) + AttemptPushes(cfg, k, cred, outcome)
      ensures outcome != Untried && OwnOutcome(outcome) && issued == outcome.Issued?
      ensures table.rows == AfterAttempt(old(table.rows), k, outcome) && ag.calls == old(ag.calls) + AttemptCalls(k, outcome)
    {
      hide BooksKept, AfterAttempt, Offered;
      var card;
      card, outcome := Provision(k);
      issued := card.Some?;
      if card.Some? && cred.allocateIdentity {
        PushAllocatedIdentities(cfg, k, [card.value]);
      }
    }

    method Provision(k: Key) returns (card: Option<AgCard>, ghost outcome: Outcome)
      requires Valid() && !PassAt(table.rows, k)
      modifies table, ag
      ensures Valid() && OnlyAt(old(table.rows), table.rows, k)
      ensures card.None? ==> outcome == Errored
      ensures card.Some? ==> outcome.Issued? && outcome.card == card.value
      ensures OwnOutcome(outcome)
      ensures table.rows == AfterAttempt(old(table.rows), k, outcome) && ag.calls == old(ag.calls) + AttemptCalls(k, outcome)
      ensures card.Some? ==> OwnPassAt(table.rows, k) && table.rows[k].agCardId == Some(card.value.id) == ag.calls[|old(ag.calls)|].issued
    {
      hide Balanced, OwnCalls;
      ghost var owner, calls := ag.owner, ag.calls;
      card := ag.Provision(k);
      outcome := Errored;
      CallAdded(calls, owner, ag.calls[|calls|], ag.owner);
      if card.None? {
        table.RecordError(k);
        PassesUnchanged(old(table.rows), table.rows, k, ag.owner, ag.gone);
      } else {
        var state := if card.value.state == "" then "active" else Lower(card.value.state);
        var status := if state in {"active", "created"} then "active" else state;
        assert status != "deduped" by { assert |"active"| == 6; }
        var ref: string := *;
        outcome := Outcome.Issued(card.value, ref);
        table.Upsert(k, Some(card.value.id), status, state, ref);
        PassIssued(old(table.rows), table.rows, k, card.value.id, owner, ag.gone);
      }
    }

    /** One credential: refreshed, skipped, deduped, left for later, or issued. */
    method ConsiderForIssue(v: View, cfg: Config, k: Key, cred: Credential, provisioned: nat) returns (issued: bool, ghost outcome: Outcome)
      requires Valid() && provisioned <= cfg.cap
      requires k.person in v.people && v.people[k.person].active
      requires k.person in v.creds && cred in v.creds[k.person] && cred.id == k.credential
      modifies table, ag, pacs
      ensures Valid() && OnlyAt(old(table.rows), table.rows, k)
      ensures outcome != Untried <==> Tries(v, cfg, old(table.rows), provisioned, k, cred)
      ensures OwnOutcome(outcome) && issued == outcome.Issued? && (issued ==> provisioned < cfg.cap)
      ensures table.rows == AfterStep(v, cfg, old(table.rows), Step(k, cred, outcome)) && ag.calls == old(ag.calls) + AttemptCalls(k, outcome)
      ensures pacs.calls == old(pacs.calls) + AttemptPushes(cfg, k, cred, outcome)
    {
      hide BooksKept, MayRetry, AfterAttempt, Offered;
      issued, outcome := false, Untried;
      var person := v.people[k.person];
      if cred.hold || !cred.triggerActive {
        return;
      }
      var existing := table.Get(k);
      if existing.Some? && HasPass(existing.value) {
        RefreshLastKnown(v, k, existing.value);
        return;
      }
      if Expired(cred, v.now) || person.fullName == "" || !Reachable(person) {
        return;
      }
      var hit := DedupeHit(v, cred, cfg.dedupe, cfg.site);
      if hit.Some? {
        Dedupe(k, hit.value.id);
        return;
      }
      if provisioned >= cfg.cap || cfg.dryRun {
        return;
      }
      assert MayIssue(v, k, cred);
      MayIssueMayRetry(v, k, cred);
      MarkPending(k);
      issued, outcome := Issue(v, cfg, k, cred);
    }

    method RefreshLastKnown(v: View, k: Key, existing: Row)
      requires Valid() && k in table.rows && table.rows[k] == existing
      modifies table
      ensures Valid() && OnlyAt(old(table.rows), table.rows, k)
      ensures table.rows == Refreshed(v, old(table.rows), k)
    {
      if existing.status == "deduped" {
        return;
      }
      var state := AgState(v, existing, k, "");
      if state != "" && state != existing.lastKnown {
        table.UpdateLastKnown(k, state);
        PassesUnchanged(old(table.rows), table.rows, k, ag.owner, ag.gone);
      }
    }

    method Dedupe(k: Key, foreign: string)
      requires Valid() && !PassAt(table.rows, k)
      modifies table
      ensures Valid() && OnlyAt(old(table.rows), table.rows, k) && !OwnPassAt(table.rows, k)
      ensures table.rows == Deduped(old(table.rows), k, Some(foreign))
    {
      table.MarkDeduped(k, Some(foreign));
      PassesUnchanged(old(table.rows), table.rows, k, ag.owner, ag.gone);
    }

    /** Before the call, so that a failure still leaves a row for phase 5. */
    method MarkPending(k: Key)
      requires Valid() && !PassAt(table.rows, k)
      modifies table
      ensures Valid() && OnlyAt(old(table.rows), table.rows, k) && k in table.rows && !PassAt(table.rows, k)
      ensures table.rows == Marked(old(table.rows), k)
    {
      table.Upsert(k, None, "pending", "", "");
      PassesUnchanged(old(table.rows), table.rows, k, ag.owner, ag.gone);
    }

    /** Cardholder by cardholder, exactly the calls phase 1 owes within its cap, each row as its
        attempt ended; unless it is stopped it comes to every cardholder read. */
    method Phase1(v: View, cfg: Config) returns (provisioned: nat, stopped: bool, ghost r: Issues)
      requires Valid()
      modifies table, ag, pacs
      ensures Valid()
      ensures AreIssues(v, cfg, old(table.rows), table.rows, r) && provisioned == CountIssued(r.calls)
      ensures ag.calls == old(ag.calls) + r.calls && pacs.calls == old(pacs.calls) + r.pushes
      ensures !stopped ==> forall pid <- v.creds :: pid in r.order
    {
      hide BooksKept, Walked, StepCalls, StepPushes, CountIssued, Queue, ItemsOf;
      provisioned, stopped, r := 0, false, Issues([], [], [], []);
      NobodyIssuedFor(v, cfg, table.rows);
      var todo := v.creds.Keys;
      while todo != {}
        invariant Valid() && todo <= v.creds.Keys && forall pid <- v.creds :: pid in todo || pid in r.order
        invariant forall pid <- r.order :: pid !in todo
        invariant AreIssues(v, cfg, old(table.rows), table.rows, r) && provisioned == CountIssued(r.calls)
        invariant ag.calls == old(ag.calls) + r.calls && pacs.calls == old(pacs.calls) + r.pushes
        decreases todo
      {
        var pid :| pid in todo;
        if pid !in v.people || !v.people[pid].active {
          NothingForThem(v, cfg, old(table.rows), table.rows, r, pid);
          r, todo := r.(order := r.order + [pid]), todo - {pid};
          continue;
        }
        var superseded: bool := *;
        if superseded {
          stopped := true;
          return;
        }
        ghost var steps;
        provisioned, steps := IssueFor(v, cfg, pid, provisioned, old(table.rows), old(ag.calls), old(pacs.calls), Queue(v, r.order), r.steps);
        OneMoreQueued(v, r.order, pid);
        r, todo := Issues(r.order + [pid], steps, StepCalls(steps), StepPushes(cfg, steps)), todo - {pid};
      }
    }

    /** One cardholder's credentials, after the queue walked so far. */
    method IssueFor(v: View, cfg: Config, pid: string, already: nat,
                    ghost rows: Rows, ghost asked: seq<Call>, ghost told: seq<PacsCall>, ghost queue: seq<Item>, ghost before: seq<Step>)
      returns (provisioned: nat, ghost steps: seq<Step>)
      requires Valid() && already <= cfg.cap && pid in v.people && v.people[pid].active && pid in v.creds
      requires Walked(v, cfg, rows, table.rows, queue, before)
      requires ag.calls == asked + StepCalls(before) && pacs.calls == told + StepPushes(cfg, before) && already == CountIssued(StepCalls(before))
      modifies table, ag, pacs
      ensures Valid() && provisioned <= cfg.cap
      ensures Walked(v, cfg, rows, table.rows, queue + ItemsOf(v, pid), steps)
      ensures ag.calls == asked + StepCalls(steps) && pacs.calls == told + StepPushes(cfg, steps) && provisioned == CountIssued(StepCalls(steps))
    {
      hide BooksKept, OnlyAt, Walked, StepCalls, StepPushes, CountIssued, AfterStep, Tries, AttemptPushes;
      provisioned, steps := already, before;
      ghost var items := ItemsOf(v, pid);
      assert queue + items[..0] == queue && items[..|items|] == items;
      for i := 0 to |v.creds[pid]|
        invariant Valid() && provisioned <= cfg.cap
        invariant Walked(v, cfg, rows, table.rows, queue + items[..i], steps)
        invariant ag.calls == asked + StepCalls(steps) && pacs.calls == told + StepPushes(cfg, steps) && provisioned == CountIssued(StepCalls(steps))
      {
        var cred := v.creds[pid][i];
        ghost var mid := table.rows;
        var issued;
        ghost var outcome;
        issued, outcome := ConsiderForIssue(v, cfg, Key(pid, cred.id), cred, provisioned);
        OneMoreStep(v, cfg, rows, mid, table.rows, queue + items[..i], steps, Step(Key(pid, cred.id), cred, outcome));
        assert queue + items[..i + 1] == queue + items[..i] + [Item(Key(pid, cred.id), cred)];
        steps := steps + [Step(Key(pid, cred.id), cred, outcome)];
        if issued {
          provisioned := provisioned + 1;
        }
      }
    }

    method PushAllocatedIdentities(cfg: Config, k: Key, cards: seq<AgCard>)
      modifies pacs
      ensures pacs.calls == old(pacs.calls) + if cfg.supportsWriteback && Offered(cards) != [] then [PacsCall.WriteBack(k, Offered(cards))] else []
    {
      hide Offered;
      if !cfg.supportsWriteback {
        return;
      }
      var identities := IdentitiesFromCards(cards);
      if identities != [] {
        var ok := pacs.WriteBackCredentials(k, identities);
      }
    }

    // ---- phase 2 ----

    /** Carries a credential's state to its pass; false when the call crashed. */
    method Reconcile(v: View, cfg: Config, k: Key, row: Row) returns (ok: bool, ghost answer: Option<Answer>)
      requires Valid() && k in table.rows && table.rows[k] == row
      modifies table, ag
      ensures Valid() && OnlyAt(old(table.rows), table.rows, k)
      ensures ag.calls == old(ag.calls) + Phase2Asks(v, cfg, k, row)
      ensures answer.Some? <==> Phase2Asks(v, cfg, k, row) != []
      ensures table.rows == AfterAnswered(old(table.rows), Phase2Asks(v, cfg, k, row), answer)
    {
      hide Balanced, OwnCalls, Phase2Call, AgState;
      ok, answer := true, None;
      var cred := CredOf(v, k);
      if !Driven(row) || cred.None? || cred.value.hold {
        return;
      }
      var id := row.agCardId.value;
      OwnPassIsOurs(table.rows, k, ag.owner, ag.gone);
      var said: Answer;
      match Phase2Call(row, cred.value, AgState(v, row, k, row.syncRef)) {
        case Nothing =>
          return;
        case Terminate =>
          if cfg.dryRun { return; }
          said := DeletePass(k, id, false);
        case SuspendIt =>
          if cfg.dryRun { return; }
          said := ag.Suspend(k, id);
          CallAdded(old(ag.calls), ag.owner, Call.Suspend(k, id), ag.owner);
          if said.Done? {
            table.UpdateStatus(k, "suspended", "suspended");
            StillPass(old(table.rows), table.rows, k, "suspended", ag.owner, ag.gone);
          }
        case ResumeIt =>
          if cfg.dryRun { return; }
          said := ag.Resume(k, id);
          CallAdded(old(ag.calls), ag.owner, Call.Resume(k, id), ag.owner);
          if said.Done? {
            table.UpdateStatus(k, "active", "active");
            StillPass(old(table.rows), table.rows, k, "active", ag.owner, ag.gone);
          }
      }
      ok, answer := !said.Crashed?, Some(said);
    }

    /** Deletes a pass and releases its row; `cleanUp`: a pass not found is taken for gone. */
    method DeletePass(k: Key, id: string, cleanUp: bool) returns (answer: Answer)
      requires Valid() && OwnPassAt(table.rows, k) && table.rows[k].agCardId == Some(id)
      modifies table, ag
      ensures Valid() && OnlyAt(old(table.rows), table.rows, k)
      ensures ag.calls == old(ag.calls) + [Call.Delete(k, id)]
      ensures table.rows == if answer.Done? then Deleted(old(table.rows), k)
                            else if answer.NotFound? && cleanUp then old(table.rows) - {k} else old(table.rows)
    {
      hide Balanced, OwnCalls;
      OwnPassIsOurs(table.rows, k, ag.owner, ag.gone);
      answer := ag.Delete(k, id);
      CallAdded(old(ag.calls), ag.owner, Call.Delete(k, id), ag.owner);
      if answer.Done? {
        table.MarkDeleted(k);
        PassDeleted(old(table.rows), table.rows, k, id, ag.owner, old(ag.gone));
      } else if answer.NotFound? && cleanUp {
        ag.KnownGone(id);
        table.Remove(k);
        PassDeleted(old(table.rows), table.rows, k, id, ag.owner, old(ag.gone));
      }
    }

    /** The next row, after what `r` did so far. */
    method ReconcileNext(v: View, cfg: Config, all: seq<Key>, i: nat, ghost rows: Rows, ghost r: Statuses, ghost first: seq<Call>)
      returns (ok: bool, ghost next: Statuses)
      requires Valid() && i < |all| && ListsAll(all, rows) && Untouched(rows, table.rows, all, i) && r.listing == all[..i]
      requires AreStatuses(v, cfg, rows, table.rows, r) && ag.calls == first + r.calls
      modifies table, ag
      ensures Valid() && Untouched(rows, table.rows, all, i + 1) && next.listing == all[..i + 1]
      ensures AreStatuses(v, cfg, rows, table.rows, next) && ag.calls == first + next.calls
    {
      hide BooksKept, Phase2Asks, OnlyAt, AreStatuses, AfterAnswered;
      ghost var mid, answer := table.rows, None;
      ok, answer := Reconcile(v, cfg, all[i], table.rows[all[i]]);
      StillUntouched(rows, mid, table.rows, all, i);
      OneMoreStatus(v, cfg, rows, mid, table.rows, all, i, r, answer);
      next := AndStatus(v, cfg, rows, r, all[i], answer);
    }

    /** Exactly phase 2's call for every row, as far as it got before a call crashed; and unless one did,
        a pass is deleted exactly where its credential was read, unheld and without its trigger. */
    method Phase2(v: View, cfg: Config) returns (ok: bool, ghost r: Statuses)
      requires Valid()
      modifies table, ag
      ensures Valid()
      ensures AreStatuses(v, cfg, old(table.rows), table.rows, r) && ag.calls == old(ag.calls) + r.calls
      ensures ok ==> ListsAll(r.listing, old(table.rows))
      ensures ok && !cfg.dryRun ==> forall c <- r.calls | c.Delete? :: c.key in old(table.rows) && old(table.rows)[c.key].agCardId == Some(c.id)
      ensures ok && !cfg.dryRun ==>
                forall k: Key :: (exists c <- r.calls :: c.Delete? && c.key == k) <==>
                  && k in old(table.rows) && old(table.rows)[k].status !in {"deleted", "pending", "deduped"} && old(table.rows)[k].agCardId.GetOr("") != ""
                  && CredOf(v, k).Some? && !CredOf(v, k).value.hold && !CredOf(v, k).value.triggerActive
    {
      hide BooksKept, AreStatuses, ListsAll, Untouched;
      ok, r := true, Statuses([], map[], []);
      ghost var rows := table.rows;
      NoStatuses(v, cfg, rows);
      var all := table.AllTracked();
      ListedUntouched(rows, all);
      for i := 0 to |all|
        invariant ok && Valid() && Untouched(rows, table.rows, all, i) && r.listing == all[..i]
        invariant AreStatuses(v, cfg, rows, table.rows, r) && ag.calls == old(ag.calls) + r.calls
      {
        ok, r := ReconcileNext(v, cfg, all, i, rows, r, old(ag.calls));
        if !ok {
          return;
        }
      }
      assert all[..|all|] == all;
      if !cfg.dryRun {
        WithdrawnAreDeleted(v, cfg, rows, table.rows, r);
      }
    }

    // ---- phase 3 ----

    /** One row: its pass goes when there is evidence it should; `ranOut` counts the expiries.
        The row is released when the pass was deleted or found gone; only after a deletion are the
        cards of an expired pass retired, as they were read before it. */
    method Revoke(v: View, cfg: Config, d: Details, k: Key, row: Row, complete: bool, expired: nat)
      returns (ok: bool, ranOut: nat, ghost told: Option<Told>)
      requires Valid() && d.Valid() && k in table.rows && table.rows[k] == row && expired <= MAX_EXPIRIES
      requires v.people != map[]
      modifies table, ag, pacs, d, d.ag
      ensures Valid() && d.Valid() && OnlyAt(old(table.rows), table.rows, k) && Grown(old(d.detail), d.detail)
      ensures ag.calls == old(ag.calls) + Phase3Asks(v, cfg, complete, k, row, expired)
      ensures told.Some? <==> Phase3Asks(v, cfg, complete, k, row, expired) != []
      ensures table.rows == AfterTold(old(table.rows), k, told)
      ensures pacs.calls == old(pacs.calls) + ExpiredCalls(v, cfg, d.index, d.detail, k, row, told)
      ensures told.Some? && CardsWanted(v, cfg, k) ==> KnownIn(d.index, d.detail, k, row)
      ensures ranOut == expired + (if RunsOut(v, complete, k, row, expired) then 1 else 0) <= MAX_EXPIRIES
    {
      hide BooksKept, Offered, Phase3Reason, CardsOf, KnownIn, Expired, CredOf, Remembered, FromIndex, Deleted;
      ok, ranOut, told := true, expired, None;
      GrownFurther(d.detail, d.detail, d.detail);
      if row.status in {"deleted", "deduped"} || !HasPass(row) {
        return;
      }
      var reason := Phase3Reason(v, complete, k);
      if reason == Keep || (reason == RanOut && expired >= MAX_EXPIRIES) {
        return;
      }
      if reason == RanOut {
        ranOut := expired + 1;
      }
      var id := row.agCardId.value;
      var cards: seq<AgCard> := [];
      if cfg.supportsRetirement && CredOf(v, k).Some? && Expired(CredOf(v, k).value, v.now) {
        cards := ReadCards(d, k, row);
      }
      if cfg.dryRun {
        return;
      }
      var answer := DeletePass(k, id, true);
      ok, told := !answer.Crashed?, Some(Told(answer, None));
      if answer.Done? && cards != [] {
        var identities := IdentitiesFromCards(cards);
        var count := pacs.RetireCredentials(k, identities);
        ok, told := count.Some?, Some(Told(answer, count));
      }
    }

    /** The next row of the first pass, after what `r` did so far. */
    method RevokeNext(v: View, cfg: Config, d: Details, complete: bool, all: seq<Key>, i: nat, expired: nat,
                      ghost rows: Rows, ghost r: Revocations, ghost first: seq<Call>, ghost told: seq<PacsCall>)
      returns (ok: bool, ranOut: nat, ghost next: Revocations)
      requires Valid() && d.Valid() && v.people != map[] && expired <= MAX_EXPIRIES
      requires i < |all| && ListsAll(all, rows) && Untouched(rows, table.rows, all, i) && r.listing == all[..i]
      requires AreRevocations(v, cfg, complete, d.index, d.detail, rows, table.rows, r)
      requires expired == ExpiredIn(v, complete, rows, all[..i]) && CountPresent(v, r.calls) <= expired
      requires ag.calls == first + r.calls && pacs.calls == told + r.retired
      modifies table, ag, pacs, d, d.ag
      ensures Valid() && d.Valid() && Grown(old(d.detail), d.detail)
      ensures Untouched(rows, table.rows, all, i + 1) && next.listing == all[..i + 1]
      ensures AreRevocations(v, cfg, complete, d.index, d.detail, rows, table.rows, next)
      ensures ranOut == ExpiredIn(v, complete, rows, all[..i + 1]) && CountPresent(v, next.calls) <= ranOut
      ensures ag.calls == first + next.calls && pacs.calls == told + next.retired
    {
      hide BooksKept, Phase3Asks, RunsOut, OnlyAt, ExpiredIn, ExpiredCalls, CountPresent, Remembered, Grown, AreRevocations,
           CardsWanted, KnownIn, FromIndex, AfterTold;
      ghost var mid, detail, one := table.rows, d.detail, None;
      ok, ranOut, one := Revoke(v, cfg, d, all[i], table.rows[all[i]], complete, expired);
      StillUntouched(rows, mid, table.rows, all, i);
      OneMoreRevoked(v, cfg, complete, d.index, detail, d.detail, rows, mid, table.rows, all, i, r, one);
      AsksWithinExpiries(v, cfg, complete, r.calls, all[i], rows[all[i]], expired);
      next := Further(v, cfg, complete, d.index, d.detail, rows, r, all[i], one, expired);
    }

    /** The first pass over the table, as far as it got before a call crashed. */
    method RevokeAll(v: View, cfg: Config, d: Details, complete: bool) returns (ok: bool, ghost r: Revocations)
      requires Valid() && d.Valid() && v.people != map[]
      modifies table, ag, pacs, d, d.ag
      ensures Valid() && d.Valid() && Grown(old(d.detail), d.detail)
      ensures AreRevocations(v, cfg, complete, d.index, d.detail, old(table.rows), table.rows, r)
      ensures ok ==> ListsAll(r.listing, old(table.rows))
      ensures ag.calls == old(ag.calls) + r.calls && pacs.calls == old(pacs.calls) + r.retired
      ensures CountPresent(v, r.calls) <= MAX_EXPIRIES
    {
      hide BooksKept, ExpiredIn, CountPresent, Remembered, Grown, AreRevocations, FromIndex, ListsAll;
      ok := true;
      ghost var rows := table.rows;
      NoRevocations(v, cfg, complete, d.index, d.detail, rows);
      r := Revocations([], map[], [], []);
      var all := table.AllTracked();
      ListedUntouched(rows, all);
      var expired := 0;
      for i := 0 to |all|
        invariant Valid() && d.Valid() && expired <= MAX_EXPIRIES && Grown(old(d.detail), d.detail)
        invariant ok && r.listing == all[..i] && Untouched(rows, table.rows, all, i)
        invariant AreRevocations(v, cfg, complete, d.index, d.detail, rows, table.rows, r)
        invariant (forall k <- all :: k in rows) && expired == ExpiredIn(v, complete, rows, all[..i]) && CountPresent(v, r.calls) <= expired
        invariant ag.calls == old(ag.calls) + r.calls && pacs.calls == old(pacs.calls) + r.retired
      {
        hide Untouched;
        ghost var detail := d.detail;
        ok, expired, r := RevokeNext(v, cfg, d, complete, all, i, expired, rows, r, old(ag.calls), old(pacs.calls));
        GrownFurther(old(d.detail), detail, d.detail);
        if !ok {
          return;
        }
      }
      assert all[..|all|] == all;
    }

    /** No revocation without evidence; an empty read revokes nobody; a read under three tenths of the last
        whole one leaves the baseline and revokes nobody for being missing, a whole one revokes all of
        those; expiry revokes at most its cap; what it releases in the PACS is the cards of expired passes
        it deleted, and then what AccessGrid says it has deleted. */
    method Phase3(v: View, cfg: Config, d: Details) returns (ok: bool, complete: bool, ghost r: Revocations, ghost released: Releases)
      requires Valid() && d.Valid()
      modifies this`baseline, table, ag, pacs, d, d.ag
      ensures Valid() && d.Valid() && Grown(old(d.detail), d.detail)
      ensures complete == Complete(v, old(baseline))
      ensures baseline == if v.people != map[] && 10 * |v.people| >= 3 * old(baseline) then |v.people| else old(baseline)
      ensures forall c <- r.calls ::
                && c.Delete? && c.key in old(table.rows) && old(table.rows)[c.key].agCardId == Some(c.id)
                && (ShownRunOut(v, c.key) || (10 * |v.people| >= 3 * old(baseline) && ShownMissing(v, c.key)))
      ensures ok && v.people != map[] && !cfg.dryRun ==>
                forall k <- old(table.rows) | old(table.rows)[k].status !in {"deleted", "deduped"} && old(table.rows)[k].agCardId.GetOr("") != "" ::
                  var call := Call.Delete(k, old(table.rows)[k].agCardId.GetOr(""));
                  && (10 * |v.people| >= 3 * old(baseline) && ShownMissing(v, k) ==> call in r.calls)
                  && (ShownRunOut(v, k) ==> call in r.calls || CountPresent(v, r.calls) == 25)
      ensures AreRevocations(v, cfg, complete, d.index, d.detail, old(table.rows), table.rows, r)
      ensures AreReleases(d.index, d.detail, table.rows, released)
      ensures ag.calls == old(ag.calls) + r.calls && pacs.calls == old(pacs.calls) + r.retired + released.calls
      ensures v.people == map[] ==> ok && r.listing == []
      ensures v.people != map[] && ok ==> ListsAll(r.listing, old(table.rows)) && (cfg.supportsRetirement ==> ListsAll(released.listing, table.rows))
      ensures !ok || v.people == map[] || !cfg.supportsRetirement ==> released.listing == [] && released.calls == []
      ensures CountPresent(v, r.calls) <= MAX_EXPIRIES
    {
      hide BooksKept, Phase3All, CountPresent, Complete, Remembered, FromIndex, AreRevocations, AreReleases, ListsAll, Grown, ShownRunOut,
           ShownMissing;
      ok, complete, r, released := true, Complete(v, baseline), Revocations([], map[], [], []), Releases([], {}, map[], []);
      NoRevocations(v, cfg, complete, d.index, d.detail, table.rows);
      NoReleases(d.index, d.detail, table.rows);
      ghost var rows, previous := table.rows, baseline;
      CompleteSays(v, previous);
      if v.people == map[] {
        return;
      }
      if complete {
        baseline := |v.people|;
      }
      ok, r := RevokeAll(v, cfg, d, complete);
      DeletedOf(v, cfg, previous, d.index, d.detail, rows, table.rows, r, ok);
      NoReleases(d.index, d.detail, table.rows);
      if !ok || !cfg.supportsRetirement {
        return;
      }
      ghost var detail, detail0 := d.detail, old(d.detail);
      released := RetireDeleted(d);
      GrownFurther(detail0, detail, d.detail);
      RevocationsStay(v, cfg, complete, d.index, detail, d.detail, rows, table.rows, r);
    }

    /** Releases what AccessGrid says it has deleted, held or not, until enough are released. */
    method RetireDeleted(d: Details) returns (ghost r: Releases)
      requires d.Valid()
      modifies pacs, d, d.ag
      ensures d.Valid() && Grown(old(d.detail), d.detail)
      ensures AreReleases(d.index, d.detail, table.rows, r) && ListsAll(r.listing, table.rows)
      ensures pacs.calls == old(pacs.calls) + r.calls
    {
      hide Remembered, FromIndex, Grown, Retirements, ReleasedKnown, ReleasedCalls, Total, CallsKnown;
      var written := pacs.WrittenCredentials();
      var listing := table.AllTracked();
      ghost var counts: map<Key, Option<nat>>, rows := map[], table.rows;
      GrownFurther(d.detail, d.detail, d.detail);
      NothingReleased(d.index, d.detail, rows, written, counts);
      var retired := 0;
      for i := 0 to |listing|
        invariant d.Valid() && Grown(old(d.detail), d.detail) && ReleasedKnown(d.index, d.detail, rows, written, listing[..i])
        invariant forall k <- counts :: k in listing[..i]
        invariant pacs.calls == old(pacs.calls) + Retirements(d.index, d.detail, rows, written, listing[..i], counts)
        invariant retired == Total(Retirements(d.index, d.detail, rows, written, listing[..i], counts))
      {
        if retired >= MAX_RETIREMENTS {
          ReleasedCallsKnown(d.index, d.detail, rows, written, listing[..i], counts);
          EnoughRetired(d.index, d.detail, rows, written, listing, i, counts);
          r := Releases(listing, written, counts, Retirements(d.index, d.detail, rows, written, listing, counts));
          return;
        }
        ghost var detail := d.detail;
        var count := ReleaseRow(d, written, listing[i], table.rows[listing[i]]);
        GrownFurther(old(d.detail), detail, d.detail);
        OneMoreReleased(d.index, detail, d.detail, rows, written, listing, i, counts, count);
        counts := counts[listing[i] := count];
        retired := retired + count.GetOr(0);
      }
      assert listing[..|listing|] == listing;
      ReleasedCallsKnown(d.index, d.detail, rows, written, listing, counts);
      r := Releases(listing, written, counts, Retirements(d.index, d.detail, rows, written, listing, counts));
    }

    /** Exactly the identities the row's cards say are deleted; a call that raises counts for none. */
    method ReleaseRow(d: Details, written: set<Key>, k: Key, row: Row) returns (count: Option<nat>)
      requires d.Valid()
      modifies pacs, d, d.ag
      ensures d.Valid() && Grown(old(d.detail), d.detail)
      ensures pacs.calls == old(pacs.calls) + ReleasedCalls(d.index, d.detail, written, k, row, count)
      ensures Releasable(written, k, row) ==> KnownIn(d.index, d.detail, k, row)
      ensures ReleasedCalls(d.index, d.detail, written, k, row, count) == [] ==> count.None?
    {
      hide Released, CardsOf, KnownIn, Remembered, FromIndex;
      count := None;
      if row.status == "deduped" || !HasPass(row) || k !in written {
        return;
      }
      var cards := ReadCards(d, k, row);
      var gone := DeletedIdentitiesFromCards(cards);
      if gone != [] {
        count := pacs.RetireCredentials(k, gone);
      }
    }

    // ---- phase 4 ----

    /** The row's cards, read at most once this cycle. */
    method ReadCards(d: Details, k: Key, row: Row) returns (cards: seq<AgCard>)
      requires d.Valid() && HasPass(row)
      modifies d, d.ag
      ensures d.Valid() && Grown(old(d.detail), d.detail)
      ensures cards == CardsOf(d.index, d.detail, k, row) && KnownIn(d.index, d.detail, k, row)
    {
      hide Resolve;
      cards := d.DetailedCards(row.agCardId.value, k.person, k.credential, row.syncRef);
      assert row.agCardId.GetOr("") == row.agCardId.value;
      assert cards == CardsOf(d.index, d.detail, k, row);
    }

    method OfferCards(v: View, cfg: Config, d: Details, k: Key, row: Row)
      requires d.Valid()
      modifies pacs, d, d.ag
      ensures d.Valid() && Grown(old(d.detail), d.detail)
      ensures Minted(v, k, row) ==> KnownIn(d.index, d.detail, k, row)
      ensures pacs.calls == old(pacs.calls) + Phase4Asks(v, cfg, d.index, d.detail, OfferWalk, k, row)
    {
      hide CardsOf, KnownIn, Offered;
      var cred := CredOf(v, k);
      if !Driven(row) || cred.None? || cred.value.hold || !cred.value.allocateIdentity {
        return;
      }
      var cards := ReadCards(d, k, row);
      if cards != [] {
        PushAllocatedIdentities(cfg, k, cards);
      }
    }

    /** The install gate: level-triggered, it writes a card's box only where the pass and
        the card disagree, and says what the pass says. */
    method Gate(v: View, cfg: Config, d: Details, k: Key, row: Row)
      requires d.Valid()
      modifies pacs, d, d.ag
      ensures d.Valid() && Grown(old(d.detail), d.detail)
      ensures Minted(v, k, row) ==> KnownIn(d.index, d.detail, k, row)
      ensures pacs.calls == old(pacs.calls) + Phase4Asks(v, cfg, d.index, d.detail, GateWalk, k, row)
    {
      hide CardsOf, KnownIn, DesiredStatus;
      var cred := CredOf(v, k);
      if !Driven(row) || cred.None? || cred.value.hold || !cred.value.allocateIdentity {
        return;
      }
      var cards := ReadCards(d, k, row);
      if cards == [] || InLine(cred.value.status, DesiredStatus(cards)) {
        return;
      }
      var ok := pacs.UpdateCredentialStatus(k, DesiredStatus(cards) == Active);
    }

    /** Carries a pass's new state to a card that is the customer's own. The state is remembered
        unless the credential is held, or the PACS was told and refused it. */
    method FollowState(v: View, cfg: Config, ghost d: Details, k: Key, row: Row) returns (ghost taken: Option<bool>)
      requires Valid() && k in table.rows && table.rows[k] == row
      modifies table, pacs
      ensures Valid() && OnlyAt(old(table.rows), table.rows, k)
      ensures pacs.calls == old(pacs.calls) + Phase4Asks(v, cfg, d.index, d.detail, FollowWalk, k, row)
      ensures taken.Some? <==> Phase4Asks(v, cfg, d.index, d.detail, FollowWalk, k, row) != []
      ensures table.rows == AfterFollowed(v, old(table.rows), k, taken)
    {
      hide BooksKept, AgState;
      taken := None;
      if row.status in {"deleted", "deduped"} || !HasPass(row) {
        return;
      }
      var state := AgState(v, row, k, row.syncRef);
      if state == "" || state == row.lastKnown {
        return;
      }
      var cred := CredOf(v, k);
      if state in AG_TO_CRED && cred.Some? {
        if cred.value.hold {
          return;
        }
        if !cred.value.allocateIdentity && cred.value.status != AG_TO_CRED[state] {
          var ok := pacs.UpdateCredentialStatus(k, AG_TO_CRED[state] == Active);
          taken := Some(ok);
          if !ok {
            return;
          }
        }
      }
      table.UpdateLastKnown(k, state);
      LastKnownKeepsPasses(old(table.rows), k, state, ag);
    }

    method OfferAndGate(v: View, cfg: Config, d: Details, walk: Walk, listing: seq<Key>)
      requires d.Valid() && walk != FollowWalk && forall k <- listing :: k in table.rows
      modifies pacs, d, d.ag
      ensures d.Valid() && Grown(old(d.detail), d.detail) && AllKnown(v, d.index, d.detail, table.rows, listing)
      ensures pacs.calls == old(pacs.calls) + Phase4All(v, cfg, d.index, d.detail, walk, table.rows, listing)
    {
      hide Phase4All, Phase4Asks, KnownIn, Minted;
      ghost var rows := table.rows;
      NothingAsked(v, cfg, d.index, d.detail, walk, rows);
      for i := 0 to |listing|
        invariant d.Valid() && Grown(old(d.detail), d.detail)
        invariant AllKnown(v, d.index, d.detail, rows, listing[..i])
        invariant pacs.calls == old(pacs.calls) + Phase4All(v, cfg, d.index, d.detail, walk, rows, listing[..i])
      {
        ghost var detail := d.detail;
        if walk == OfferWalk {
          OfferCards(v, cfg, d, listing[i], table.rows[listing[i]]);
        } else {
          Gate(v, cfg, d, listing[i], table.rows[listing[i]]);
        }
        AsksStay(v, cfg, d.index, detail, d.detail, walk, rows, listing[..i]);
        Phase4Step(v, cfg, d.index, d.detail, walk, rows, listing, i);
        OneMoreKnown(v, d.index, d.detail, rows, listing, i);
      }
      assert listing[..|listing|] == listing;
    }

    method FollowAll(v: View, cfg: Config, ghost d: Details, listing: seq<Key>) returns (ghost taken: map<Key, bool>)
      requires Valid() && (forall k <- listing :: k in table.rows) && forall i, j | 0 <= i < j < |listing| :: listing[i] != listing[j]
      modifies table, pacs
      ensures Valid()
      ensures pacs.calls == old(pacs.calls) + Phase4All(v, cfg, d.index, d.detail, FollowWalk, old(table.rows), listing)
      ensures Followed(v, cfg, d.index, d.detail, old(table.rows), table.rows, listing, taken)
    {
      hide BooksKept, Phase4All, Phase4Asks, OnlyAt, Followed;
      ghost var rows := table.rows;
      taken := map[];
      NothingAsked(v, cfg, d.index, d.detail, FollowWalk, rows);
      NobodyFollowed(v, cfg, d.index, d.detail, rows);
      assert listing[..0] == [];
      for i := 0 to |listing|
        invariant Valid()
        invariant Untouched(rows, table.rows, listing, i)
        invariant Followed(v, cfg, d.index, d.detail, rows, table.rows, listing[..i], taken)
        invariant pacs.calls == old(pacs.calls) + Phase4All(v, cfg, d.index, d.detail, FollowWalk, rows, listing[..i])
      {
        ghost var mid := table.rows;
        ghost var one := FollowState(v, cfg, d, listing[i], table.rows[listing[i]]);
        StillUntouched(rows, mid, table.rows, listing, i);
        Phase4Step(v, cfg, d.index, d.detail, FollowWalk, rows, listing, i);
        OneMoreFollowed(v, cfg, d.index, d.detail, rows, mid, table.rows, listing, i, taken, one);
        taken := AndTaken(taken, listing[i], one);
      }
      assert listing[..|listing|] == listing;
    }

    method OfferThenGate(v: View, cfg: Config, d: Details, listing: seq<Key>)
      requires d.Valid() && forall k <- listing :: k in table.rows
      modifies pacs, d, d.ag
      ensures d.Valid() && Grown(old(d.detail), d.detail)
      ensures pacs.calls == old(pacs.calls) + Phase4All(v, cfg, d.index, d.detail, OfferWalk, table.rows, listing)
                                            + Phase4All(v, cfg, d.index, d.detail, GateWalk, table.rows, listing)
    {
      hide Phase4All, AllKnown, Grown, Remembered, FromIndex;
      ghost var start, detail0 := pacs.calls, d.detail;
      OfferAndGate(v, cfg, d, OfferWalk, listing);
      ghost var mid, detail := pacs.calls, d.detail;
      OfferAndGate(v, cfg, d, GateWalk, listing);
      GrownFurther(detail0, detail, d.detail);
      AsksStay(v, cfg, d.index, detail, d.detail, OfferWalk, table.rows, listing);
    }

    /** Exactly the offers, then the boxes, then the states, for every row of the table: a customer's own card
        is switched off where its pass has come to be suspended, and on where active or created. */
    method Phase4(v: View, cfg: Config, d: Details) returns (ghost r: States)
      requires Valid() && d.Valid()
      modifies table, pacs, d, d.ag
      ensures Valid() && d.Valid() && Grown(old(d.detail), d.detail)
      ensures AreStates(v, cfg, d.index, d.detail, old(table.rows), table.rows, r) && ListsAll(r.listing, old(table.rows))
      ensures pacs.calls == old(pacs.calls) + r.calls
      ensures forall k <- old(table.rows), want: bool | CredOf(v, k).Some? && !CredOf(v, k).value.allocateIdentity ::
                var row, state := old(table.rows)[k], AgState(v, old(table.rows)[k], k, old(table.rows)[k].syncRef);
                PacsCall.SetStatus(k, want) in r.calls <==>
                  && cfg.supportsStatus && row.status !in {"deleted", "deduped"} && row.agCardId.GetOr("") != "" && !CredOf(v, k).value.hold
                  && state != row.lastKnown && state in (if want then {"active", "created"} else {"suspended"})
                  && CredOf(v, k).value.status != if want then Active else Suspended
    {
      hide BooksKept, Phase4All, AllKnown, Grown, Followed, Remembered, FromIndex;
      ghost var start, rows := pacs.calls, table.rows;
      ghost var offers: seq<PacsCall>, states: seq<PacsCall>, taken: map<Key, bool> := [], [], map[];
      GrownFurther(d.detail, d.detail, d.detail);
      var all := table.AllTracked();
      if cfg.supportsWriteback {
        OfferThenGate(v, cfg, d, all);
        offers := Phase4All(v, cfg, d.index, d.detail, OfferWalk, rows, all) + Phase4All(v, cfg, d.index, d.detail, GateWalk, rows, all);
      }
      if cfg.supportsStatus {
        ghost var mid := pacs.calls;
        taken := FollowAll(v, cfg, d, all);
        states := Phase4All(v, cfg, d.index, d.detail, FollowWalk, rows, all);
      } else {
        NobodyFollowed(v, cfg, d.index, d.detail, rows);
      }
      r := States(all, taken, offers + states);
      assert pacs.calls == start + r.calls;
      StatesAreFollowed(v, cfg, d.index, d.detail, rows, table.rows, r);
    }

    // ---- phase 5 ----

    /** The second way a pass is issued: for a row whose issue failed. */
    method Retry(v: View, cfg: Config, k: Key) returns (ghost outcome: Outcome)
      requires Valid() && k in table.rows && table.rows[k].agCardId.None?
      modifies table, ag, pacs
      ensures Valid() && OnlyAt(old(table.rows), table.rows, k)
      ensures outcome != Untried <==> Retries(v, cfg, k)
      ensures OwnOutcome(outcome)
      ensures table.rows == AfterRetry(v, cfg, old(table.rows), k, outcome) && ag.calls == old(ag.calls) + AttemptCalls(k, outcome)
      ensures pacs.calls == old(pacs.calls) + PushesFor(v, cfg, k, outcome)
    {
      hide Balanced, OwnCalls, AfterAttempt, Offered;
      outcome := Untried;
      var cred := CredOf(v, k);
      if cred.Some? && cred.value.hold {
        return;
      }
      if k.person !in v.people || cred.None? || !cred.value.triggerActive {
        table.Remove(k);
        PassesUnchanged(old(table.rows), table.rows, k, ag.owner, ag.gone);
        return;
      }
      if !Reachable(v.people[k.person]) {
        table.RecordError(k);
        PassesUnchanged(old(table.rows), table.rows, k, ag.owner, ag.gone);
        return;
      }
      var hit := DedupeHit(v, cred.value, cfg.dedupe, cfg.site);
      if hit.Some? {
        Dedupe(k, hit.value.id);
        return;
      }
      if cfg.dryRun {
        return;
      }
      assert MayRetry(v, k, cred.value);
      var issued;
      issued, outcome := Issue(v, cfg, k, cred.value);
    }

    /** Asks again for exactly the failed passes whose credential still wants one, and leaves each
        failed row as that ended. */
    method Phase5(v: View, cfg: Config) returns (ghost r: Reissues)
      requires Valid()
      modifies table, ag, pacs
      ensures Valid()
      ensures forall k :: k in r.listing <==> k in old(table.rows) && Retryable(old(table.rows)[k])
      ensures AreReissues(v, cfg, old(table.rows), table.rows, r)
      ensures ag.calls == old(ag.calls) + r.calls && pacs.calls == old(pacs.calls) + r.pushes
    {
      hide BooksKept, Retries, OnlyAt, AreReissues, AfterRetry, PushesFor, AttemptCalls;
      var all := table.FailedRecords();
      ghost var rows := table.rows;
      NoReissues(v, cfg, rows);
      r := Reissues([], map[], [], []);
      for i := 0 to |all|
        invariant Valid()
        invariant Untouched(rows, table.rows, all, i) && r.listing == all[..i]
        invariant AreReissues(v, cfg, rows, table.rows, r)
        invariant ag.calls == old(ag.calls) + r.calls && pacs.calls == old(pacs.calls) + r.pushes
      {
        ghost var mid := table.rows;
        ghost var outcome := Retry(v, cfg, all[i]);
        StillUntouched(rows, mid, table.rows, all, i);
        OneMoreRetry(v, cfg, rows, mid, table.rows, all, i, r, outcome);
        r := AndRetry(v, cfg, r, all[i], outcome);
      }
      assert all[..|all|] == all;
    }

    // ---- a cycle, and any number of them ----

    /** Phases 3 to 5, after phases 1 and 2 left the trace `t0`. */
    method LaterPhases(v: View, cfg: Config, ghost rows: Rows, ghost t0: Trace) returns (completed: bool, ghost t: Trace)
      requires Valid() && t0.rows3 == table.rows && IsTrace(v, cfg, Complete(v, baseline), rows, t0)
      requires t0 == Reaching2(t0.issues, t0.rows2, t0.statuses, t0.rows3)
      modifies this`baseline, table, ag, pacs
      ensures Valid()
      ensures IsTrace(v, cfg, Complete(v, old(baseline)), rows, t) && SameSoFar(t0, t)
      ensures completed ==> Phase3Whole(v, cfg, t) && Phases45Whole(t) 
      ensures t.rows6 == table.rows
      ensures ag.calls == old(ag.calls) + t.revoked.calls + t.retries.calls
      ensures pacs.calls == old(pacs.calls) + t.revoked.retired + t.released.calls + t.states.calls + t.retries.pushes
      ensures baseline != old(baseline) ==> 10 * |v.people| >= 3 * old(baseline) && baseline == |v.people|
      ensures completed ==> baseline == if v.people != map[] && 10 * |v.people| >= 3 * old(baseline) then |v.people| else old(baseline)
    {
      hide BooksKept, AreIssues, AreReissues, Complete, ListsAll, CountPresent, Retryable, Remembered, FromIndex, Grown, AreStatuses,
           AreRevocations, AreReleases, AreStates, IsTrace, ShownRunOut, ShownMissing, CredOf, AgState;
      completed := false;
      var reader := new AgReads();
      var d := new Details(v.index, reader);
      var ok, complete;
      ghost var revoked, released;
      ok, complete, revoked, released := Phase3(v, cfg, d);
      t := ThirdTrace(v, cfg, complete, rows, t0, d.detail, reader.asked, revoked, table.rows, released);
      var late: bool := *;
      if !ok || late { return; }
      ghost var states := Phase4(v, cfg, d);
      t := FourthTrace(v, cfg, complete, rows, t, d.detail, reader.asked, states, table.rows);
      ghost var retries := Phase5(v, cfg);
      t := FifthTrace(v, cfg, complete, rows, t, retries, table.rows);
      completed := true;
    }

    /** The phases in order; a superseded configuration or a crash leaves out the rest. However
        far it gets, a cycle asks exactly what its phases ask, in their order; and one that
        completes has come to every row. */
    method Cycle(v: View, cfg: Config) returns (completed: bool, ghost t: Trace)
      requires Valid()
      modifies this`baseline, table, ag, pacs
      ensures Valid()
      ensures IsTrace(v, cfg, Complete(v, old(baseline)), old(table.rows), t)
      ensures completed ==> ComesToAll(v, cfg, t)
      ensures t.rows6 == table.rows
      ensures ag.calls == old(ag.calls) + t.issues.calls + t.statuses.calls + t.revoked.calls + t.retries.calls
      ensures pacs.calls == old(pacs.calls) + t.issues.pushes + t.revoked.retired + t.released.calls + t.states.calls + t.retries.pushes
      ensures Extends(v, Complete(v, old(baseline)), old(ag.calls), ag.calls)
      ensures baseline != old(baseline) ==> 10 * |v.people| >= 3 * old(baseline) && baseline == |v.people|
      ensures completed ==> baseline == if v.people != map[] && 10 * |v.people| >= 3 * old(baseline) then |v.people| else old(baseline)
      ensures cfg.dryRun ==> ag.calls == old(ag.calls)
      ensures forall c <- t.revoked.calls ::
                && c.Delete? && c.key in t.rows3 && t.rows3[c.key].agCardId == Some(c.id)
                && (ShownRunOut(v, c.key) || (10 * |v.people| >= 3 * old(baseline) && ShownMissing(v, c.key)))
      ensures completed && v.people != map[] && !cfg.dryRun ==>
                forall k <- t.rows3 | t.rows3[k].status !in {"deleted", "deduped"} && t.rows3[k].agCardId.GetOr("") != "" ::
                  var call := Call.Delete(k, t.rows3[k].agCardId.GetOr(""));
                  && (10 * |v.people| >= 3 * old(baseline) && ShownMissing(v, k) ==> call in t.revoked.calls)
                  && (ShownRunOut(v, k) ==> call in t.revoked.calls || CountPresent(v, t.revoked.calls) == 25)
    {
      hide BooksKept, Complete, IsTrace, ComesToAll, Extends, ShownRunOut, ShownMissing, CountPresent;
      completed, t := AllPhases(v, cfg);
      CycleDeletes(v, cfg, old(baseline), old(table.rows), t);
      if cfg.dryRun {
        DryRunAsksNothing(v, cfg, Complete(v, old(baseline)), old(table.rows), t);
      }
      TraceIsJustified(v, cfg, Complete(v, old(baseline)), old(table.rows), t, old(ag.calls), ag.calls);
    }

    method AllPhases(v: View, cfg: Config) returns (completed: bool, ghost t: Trace)
      requires Valid()
      modifies this`baseline, table, ag, pacs
      ensures Valid()
      ensures IsTrace(v, cfg, Complete(v, old(baseline)), old(table.rows), t)
      ensures completed ==> ComesToAll(v, cfg, t)
      ensures t.rows6 == table.rows
      ensures ag.calls == old(ag.calls) + t.issues.calls + t.statuses.calls + t.revoked.calls + t.retries.calls
      ensures pacs.calls == old(pacs.calls) + t.issues.pushes + t.revoked.retired + t.released.calls + t.states.calls + t.retries.pushes
      ensures baseline != old(baseline) ==> 10 * |v.people| >= 3 * old(baseline) && baseline == |v.people|
      ensures completed ==> baseline == if v.people != map[] && 10 * |v.people| >= 3 * old(baseline) then |v.people| else old(baseline)
    {
      hide BooksKept, Complete, ListsAll, AreIssues, IsTrace, Phase3Whole, Phases45Whole, AreStatuses;
      completed := false;
      ghost var complete, rows, issues := Complete(v, baseline), table.rows, Issues([], [], [], []);
      var provisioned, superseded;
      provisioned, superseded, issues := Phase1(v, cfg);
      t := FirstTrace(v, cfg, complete, rows, table.rows, issues);
      var late: bool := *;
      if superseded || late { return; }
      var ok;
      ghost var statuses;
      ok, statuses := Phase2(v, cfg);
      t := SecondTrace(v, cfg, complete, rows, t, statuses, table.rows);
      if !ok { return; }
      completed, t := LaterPhases(v, cfg, rows, t);
    }

    /** Over any run of cycles, however it is configured, whatever is read and whatever AccessGrid
        answers, the books balance: see `IssuedMinusDeleted` for what that says of every credential. */
    method Run(cycles: seq<(View, Config)>)
      requires Valid()
      modifies this`baseline, table, ag, pacs
      ensures Valid()
      ensures forall k: Key :: |IssuedTo(ag.owner, k)| - |IssuedTo(ag.owner, k) * ag.gone| == if OwnPassAt(table.rows, k) then 1 else 0
      ensures OwnCalls(ag.calls, ag.owner)
    {
      for i := 0 to |cycles|
        invariant Valid()
      {
        var completed, _ := Cycle(cycles[i].0, cycles[i].1);
      }
      forall k: Key
        ensures |IssuedTo(ag.owner, k)| - |IssuedTo(ag.owner, k) * ag.gone| == if OwnPassAt(table.rows, k) then 1 else 0
      {
        IssuedMinusDeleted(table.rows, ag.owner, ag.gone, k);
      }
    }
  }
}

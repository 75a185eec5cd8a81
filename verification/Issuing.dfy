/** Attempts to issue a pass, and the rows they leave: phase 1's, credential by credential, and
    phase 5's, row by row. */
module Issuing {
  import opened Base
  import opened Pacs
  import opened AgCards
  import opened Ledger
  import opened Tracking
  import opened Passes
  import opened Decisions
  import opened Asks
  import opened PhaseRecords

  /** How an attempt ended; an issued pass comes as its card, under the reference it was issued with. */
  datatype Outcome = Untried | Errored | Issued(card: AgCard, ref: string)

  function StateFor(card: AgCard): string {
    if card.state == "" then "active" else Lower(card.state)
  }

  predicate OwnOutcome(outcome: Outcome) {
    outcome.Issued? ==> outcome.card.id != "" && StateFor(outcome.card) != "deduped"
  }

  function AttemptCalls(k: Key, outcome: Outcome): seq<Call> {
    match outcome
    case Untried => []
    case Errored => [Call.Provision(k, None)]
    case Issued(card, _) => [Call.Provision(k, Some(card.id))]
  }

  /** A new pass whose card AccessGrid allocated has its identities handed to the PACS. */
  function AttemptPushes(cfg: Config, k: Key, cred: Credential, outcome: Outcome): seq<PacsCall> {
    if outcome.Issued? && cred.allocateIdentity && cfg.supportsWriteback && Offered([outcome.card]) != []
    then [PacsCall.WriteBack(k, Offered([outcome.card]))] else []
  }

  /** The table once an attempt for a row ended so. */
  function AfterAttempt(rows: Rows, k: Key, outcome: Outcome): Rows {
    match outcome
    case Untried => rows
    case Errored => ErrorRecorded(rows, k)
    case Issued(card, ref) =>
      var state := StateFor(card);
      Upserted(rows, k, Some(card.id), if state in {"active", "created"} then "active" else state, state, ref)
  }

  function Marked(rows: Rows, k: Key): Rows {
    Upserted(rows, k, None, "pending", "", "")
  }

  // ---- phase 1 ----

  datatype Step = Step(key: Key, cred: Credential, outcome: Outcome)

  /** The table after one credential: marked pending before an attempt, or passed over. */
  function AfterStep(v: View, cfg: Config, rows: Rows, s: Step): Rows {
    if s.outcome.Untried? then PassedOver(v, cfg, rows, s.key, s.cred) else AfterAttempt(Marked(rows, s.key), s.key, s.outcome)
  }

  function AfterSteps(v: View, cfg: Config, rows: Rows, steps: seq<Step>): Rows {
    if steps == [] then rows else AfterStep(v, cfg, AfterSteps(v, cfg, rows, steps[..|steps| - 1]), steps[|steps| - 1])
  }

  function StepCalls(steps: seq<Step>): seq<Call> {
    if steps == [] then [] else StepCalls(steps[..|steps| - 1]) + AttemptCalls(steps[|steps| - 1].key, steps[|steps| - 1].outcome)
  }

  function StepPushes(cfg: Config, steps: seq<Step>): seq<PacsCall> {
    if steps == [] then []
    else
      var s := steps[|steps| - 1];
      StepPushes(cfg, steps[..|steps| - 1]) + AttemptPushes(cfg, s.key, s.cred, s.outcome)
  }

  /** A pass is asked for: eligible, without one, no other tool's card in its place, the cap not reached. */
  predicate Tries(v: View, cfg: Config, rows: Rows, issued: nat, k: Key, cred: Credential) {
    && MayIssue(v, k, cred) && !PassAt(rows, k) && DedupeHit(v, cred, cfg.dedupe, cfg.site).None?
    && issued < cfg.cap && !cfg.dryRun
  }

  ghost predicate AreSteps(v: View, cfg: Config, rows: Rows, steps: seq<Step>) {
    forall i | 0 <= i < |steps| :: IsStep(v, cfg, AfterSteps(v, cfg, rows, steps[..i]), CountIssued(StepCalls(steps[..i])), steps[i])
  }

  predicate IsStep(v: View, cfg: Config, rows: Rows, issued: nat, s: Step) {
    (!s.outcome.Untried? <==> Tries(v, cfg, rows, issued, s.key, s.cred)) && OwnOutcome(s.outcome)
  }

  datatype Item = Item(key: Key, cred: Credential)

  /** A cardholder's credentials, as phase 1 comes to them: an active cardholder's only. */
  function ItemsOf(v: View, pid: string): (r: seq<Item>)
    requires pid in v.creds
  {
    if pid in v.people && v.people[pid].active
    then seq(|v.creds[pid]|, i requires 0 <= i < |v.creds[pid]| => Item(Key(pid, v.creds[pid][i].id), v.creds[pid][i]))
    else []
  }

  /** Cardholder by cardholder. */
  function Queue(v: View, order: seq<string>): seq<Item>
    requires forall pid <- order :: pid in v.creds
  {
    if order == [] then [] else Queue(v, order[..|order| - 1]) + ItemsOf(v, order[|order| - 1])
  }

  function Items(steps: seq<Step>): seq<Item> {
    seq(|steps|, i requires 0 <= i < |steps| => Item(steps[i].key, steps[i].cred))
  }

  /** Phase 1 came to this queue, and left the table so. */
  ghost predicate Walked(v: View, cfg: Config, before: Rows, after: Rows, queue: seq<Item>, steps: seq<Step>) {
    Items(steps) == queue && AreSteps(v, cfg, before, steps) && after == AfterSteps(v, cfg, before, steps)
  }

  lemma OneMoreStep(v: View, cfg: Config, before: Rows, mid: Rows, after: Rows, queue: seq<Item>, steps: seq<Step>, s: Step)
    requires Walked(v, cfg, before, mid, queue, steps)
    requires IsStep(v, cfg, mid, CountIssued(StepCalls(steps)), s) && after == AfterStep(v, cfg, mid, s)
    ensures Walked(v, cfg, before, after, queue + [Item(s.key, s.cred)], steps + [s])
    ensures StepCalls(steps + [s]) == StepCalls(steps) + AttemptCalls(s.key, s.outcome)
    ensures CountIssued(StepCalls(steps + [s])) == CountIssued(StepCalls(steps)) + if s.outcome.Issued? then 1 else 0
    ensures StepPushes(cfg, steps + [s]) == StepPushes(cfg, steps) + AttemptPushes(cfg, s.key, s.cred, s.outcome)
  {
    hide IsStep, AfterStep, StepCalls, CountIssued, AttemptPushes;
    var more := steps + [s];
    assert more[..|steps|] == steps;
    forall i | 0 <= i < |more|
      ensures IsStep(v, cfg, AfterSteps(v, cfg, before, more[..i]), CountIssued(StepCalls(more[..i])), more[i])
    {
      assert i < |steps| ==> more[..i] == steps[..i];
    }
    OneMoreCall(steps, s);
    assert Items(more) == Items(steps) + [Item(s.key, s.cred)];
  }

  lemma OneMoreCall(steps: seq<Step>, s: Step)
    ensures StepCalls(steps + [s]) == StepCalls(steps) + AttemptCalls(s.key, s.outcome)
    ensures CountIssued(StepCalls(steps + [s])) == CountIssued(StepCalls(steps)) + if s.outcome.Issued? then 1 else 0
  {
    hide CountIssued;
    assert (steps + [s])[..|steps|] == steps;
    var calls, more := StepCalls(steps), AttemptCalls(s.key, s.outcome);
    if more == [] {
      assert calls + more == calls;
    } else {
      OneMoreIssue(calls, more[0]);
    }
  }

  lemma OneMoreIssue(calls: seq<Call>, c: Call)
    ensures CountIssued(calls + [c]) == CountIssued(calls) + if c.Provision? && c.issued.Some? then 1 else 0
  {
    assert (calls + [c])[..|calls|] == calls;
  }

  predicate Distinctly(order: seq<string>) {
    forall i, j | 0 <= i < j < |order| :: order[i] != order[j]
  }

  /** The cardholders it came to, what it did at each credential, and the calls it made. */
  datatype Issues = Issues(order: seq<string>, steps: seq<Step>, calls: seq<Call>, pushes: seq<PacsCall>)

  /** Every call phase 1 owes these cardholders, within its cap, and no other; each row as its
      credential's attempt ended, or passed over. */
  ghost predicate AreIssues(v: View, cfg: Config, before: Rows, after: Rows, r: Issues) {
    && Distinctly(r.order) && (forall pid <- r.order :: pid in v.creds)
    && Walked(v, cfg, before, after, Queue(v, r.order), r.steps)
    && r.calls == StepCalls(r.steps) && r.pushes == StepPushes(cfg, r.steps) && CountIssued(r.calls) <= cfg.cap
  }

  lemma NobodyIssuedFor(v: View, cfg: Config, rows: Rows)
    ensures AreIssues(v, cfg, rows, rows, Issues([], [], [], [])) && CountIssued([]) == 0
  {
  }

  lemma OneMoreQueued(v: View, order: seq<string>, pid: string)
    requires (forall p <- order :: p in v.creds) && pid in v.creds
    ensures Queue(v, order + [pid]) == Queue(v, order) + ItemsOf(v, pid)
  {
    hide ItemsOf;
    assert (order + [pid])[..|order|] == order;
  }

  lemma NothingForThem(v: View, cfg: Config, before: Rows, after: Rows, r: Issues, pid: string)
    requires AreIssues(v, cfg, before, after, r) && pid in v.creds && pid !in r.order
    requires pid !in v.people || !v.people[pid].active
    ensures AreIssues(v, cfg, before, after, r.(order := r.order + [pid]))
  {
    hide Walked, StepCalls, StepPushes, CountIssued, Queue;
    OneMoreQueued(v, r.order, pid);
    assert Queue(v, r.order) + [] == Queue(v, r.order);
  }

  // ---- what becomes of one row ----

  lemma {:induction false} QueuedOnce(v: View, order: seq<string>)
    requires UniqueIds(v) && Distinctly(order) && forall pid <- order :: pid in v.creds
    ensures forall i, j | 0 <= i < j < |Queue(v, order)| :: Queue(v, order)[i].key != Queue(v, order)[j].key
    ensures forall x <- Queue(v, order) :: x.key.person in order
  {
    if order != [] {
      var front, last := order[..|order| - 1], order[|order| - 1];
      assert order == front + [last];
      QueuedOnce(v, front);
      assert last !in front;
      var q := Queue(v, front);
      forall i, j | 0 <= i < |q| <= j < |Queue(v, order)| ensures q[i].key != Queue(v, order)[j].key {
        assert q[i] in q;
      }
    }
  }

  /** A step touches its own row only. */
  lemma StepOnlyAt(v: View, cfg: Config, rows: Rows, s: Step)
    ensures OnlyAt(rows, AfterStep(v, cfg, rows, s), s.key)
  {
    hide AgState, MayIssue, DedupeHit;
  }

  lemma {:induction false} StepsElsewhere(v: View, cfg: Config, rows: Rows, steps: seq<Step>, k: Key)
    requires forall s <- steps :: s.key != k
    ensures SameAt(rows, AfterSteps(v, cfg, rows, steps), k)
  {
    if steps != [] {
      hide AfterStep;
      var front, last := steps[..|steps| - 1], steps[|steps| - 1];
      assert steps == front + [last];
      StepsElsewhere(v, cfg, rows, front, k);
      var mid := AfterSteps(v, cfg, rows, front);
      StepOnlyAt(v, cfg, mid, last);
      assert k in mid <==> k in AfterStep(v, cfg, mid, last);
    }
  }

  /** A step sees nothing of the table but its own row. */
  lemma StepSeesItsRow(v: View, cfg: Config, a: Rows, b: Rows, s: Step)
    requires SameAt(a, b, s.key)
    ensures SameAt(AfterStep(v, cfg, a, s), AfterStep(v, cfg, b, s), s.key) && PassAt(a, s.key) == PassAt(b, s.key)
  {
    hide AgState, MayIssue, DedupeHit;
  }

  /** The row a credential is left with is what its own step makes of the row it began with. */
  lemma {:induction false} RowAfterSteps(v: View, cfg: Config, rows: Rows, steps: seq<Step>, i: nat)
    requires i < |steps| && forall a, b | 0 <= a < b < |steps| :: steps[a].key != steps[b].key
    ensures SameAt(AfterStep(v, cfg, rows, steps[i]), AfterSteps(v, cfg, rows, steps), steps[i].key)
    ensures SameAt(rows, AfterSteps(v, cfg, rows, steps[..i]), steps[i].key)
  {
    hide AfterStep;
    var k, front, last := steps[i].key, steps[..|steps| - 1], steps[|steps| - 1];
    if i == |steps| - 1 {
      StepsElsewhere(v, cfg, rows, front, k);
      StepSeesItsRow(v, cfg, rows, AfterSteps(v, cfg, rows, front), last);
    } else {
      RowAfterSteps(v, cfg, rows, front, i);
      assert front[..i] == steps[..i];
      var mid := AfterSteps(v, cfg, rows, front);
      StepOnlyAt(v, cfg, mid, last);
      assert k in mid <==> k in AfterStep(v, cfg, mid, last);
    }
  }

  /** Waiting for a pass: eligible, with none yet, and no other tool's card in its place. */
  predicate Waiting(v: View, cfg: Config, rows: Rows, k: Key, cred: Credential) {
    MayIssue(v, k, cred) && !PassAt(rows, k) && DedupeHit(v, cred, cfg.dedupe, cfg.site).None?
  }

  /** A pass is asked for exactly when its credential was waiting for one as the phase began,
      and the cap had not been reached. */
  lemma WaitingIsAsked(v: View, cfg: Config, rows: Rows, order: seq<string>, steps: seq<Step>, after: Rows, i: nat)
    requires UniqueIds(v) && Distinctly(order) && (forall pid <- order :: pid in v.creds)
    requires Walked(v, cfg, rows, after, Queue(v, order), steps) && i < |steps|
    ensures steps[i].outcome != Untried <==>
              Waiting(v, cfg, rows, steps[i].key, steps[i].cred) && CountIssued(StepCalls(steps[..i])) < cfg.cap && !cfg.dryRun
    ensures SameAt(AfterStep(v, cfg, rows, steps[i]), after, steps[i].key)
  {
    hide MayIssue, AfterStep, StepCalls, CountIssued, DedupeHit, Queue, UniqueIds, Distinctly;
    SteppedOnce(v, order, steps);
    RowAfterSteps(v, cfg, rows, steps, i);
    assert IsStep(v, cfg, AfterSteps(v, cfg, rows, steps[..i]), CountIssued(StepCalls(steps[..i])), steps[i]);
  }

  lemma SteppedOnce(v: View, order: seq<string>, steps: seq<Step>)
    requires UniqueIds(v) && Distinctly(order) && (forall pid <- order :: pid in v.creds) && Items(steps) == Queue(v, order)
    ensures forall a, b | 0 <= a < b < |steps| :: steps[a].key != steps[b].key
  {
    hide Queue, UniqueIds, Distinctly;
    QueuedOnce(v, order);
    forall i | 0 <= i < |steps| ensures steps[i].key == Queue(v, order)[i].key {
      assert Items(steps)[i].key == steps[i].key;
    }
  }

  /** Phase 1 comes to a credential of its cardholders, and the step it takes there. */
  lemma {:induction false} QueuedAt(v: View, order: seq<string>, pid: string, j: nat) returns (i: nat)
    requires (forall p <- order :: p in v.creds) && pid in order && j < |v.creds[pid]| && pid in v.people && v.people[pid].active
    ensures i < |Queue(v, order)| && Queue(v, order)[i] == Item(Key(pid, v.creds[pid][j].id), v.creds[pid][j])
  {
    var front, last := order[..|order| - 1], order[|order| - 1];
    assert order == front + [last];
    if pid == last {
      i := |Queue(v, front)| + j;
    } else {
      i := QueuedAt(v, front, pid, j);
    }
  }

  /** Whatever it asks for is a pass it may issue. */
  lemma {:induction false} IssuesMayBe(v: View, cfg: Config, rows: Rows, steps: seq<Step>)
    requires AreSteps(v, cfg, rows, steps)
    ensures forall c <- StepCalls(steps) :: c.Provision? && exists cred <- CredsOf(v, c.key.person) :: MayIssue(v, c.key, cred)
  {
    if steps != [] {
      hide MayIssue, DedupeHit, CountIssued;
      var front, last := steps[..|steps| - 1], steps[|steps| - 1];
      StepsBefore(v, cfg, rows, steps);
      IssuesMayBe(v, cfg, rows, front);
      MayIssueIsRead(v, last.key, last.cred);
    }
  }

  lemma {:induction false} PushesMayBe(v: View, cfg: Config, rows: Rows, steps: seq<Step>)
    requires AreSteps(v, cfg, rows, steps)
    ensures PacsCallsAllowed(v, StepPushes(cfg, steps))
  {
    if steps != [] {
      hide MayIssue, DedupeHit, CountIssued, Offered;
      var front, last := steps[..|steps| - 1], steps[|steps| - 1];
      StepsBefore(v, cfg, rows, steps);
      PushesMayBe(v, cfg, rows, front);
      if last.outcome != Untried {
        MayIssueIsUnheld(v, last.key, last.cred);
      }
    }
  }

  /** Without a call for a credential, nothing is pushed for it either. */
  lemma {:induction false} PushesFollowCalls(cfg: Config, steps: seq<Step>, k: Key)
    requires forall c <- StepCalls(steps) :: c.key != k
    ensures forall c <- StepPushes(cfg, steps) :: c.key != k
  {
    if steps != [] {
      hide Offered;
      var front, last := steps[..|steps| - 1], steps[|steps| - 1];
      PushesFollowCalls(cfg, front, k);
      assert last.outcome.Issued? ==> last.key != k by {
        assert last.outcome.Issued? ==> StepCalls(steps)[|StepCalls(front)|].key == last.key;
      }
    }
  }

  lemma StepsBefore(v: View, cfg: Config, rows: Rows, steps: seq<Step>)
    requires AreSteps(v, cfg, rows, steps) && steps != []
    ensures var front := steps[..|steps| - 1];
            && AreSteps(v, cfg, rows, front)
            && IsStep(v, cfg, AfterSteps(v, cfg, rows, front), CountIssued(StepCalls(front)), steps[|steps| - 1])
  {
    hide IsStep, StepCalls, CountIssued, AfterStep;
    var front := steps[..|steps| - 1];
    forall i | 0 <= i < |front| ensures front[..i] == steps[..i] { }
  }

  lemma MayIssueIsUnheld(v: View, k: Key, cred: Credential)
    requires MayIssue(v, k, cred)
    ensures cred in CredsOf(v, k.person) && cred.id == k.credential && !cred.hold
  {
  }

  lemma MayIssueIsRead(v: View, k: Key, cred: Credential)
    ensures MayIssue(v, k, cred) ==> cred in CredsOf(v, k.person)
  {
  }

  /** It comes to each unheld, trigger-active credential. */
  predicate Refreshes(s: Step, k: Key) {
    s.key == k && !s.cred.hold && s.cred.triggerActive
  }

  lemma PassStep(v: View, cfg: Config, rows: Rows, issued: nat, s: Step, k: Key)
    requires IsStep(v, cfg, rows, issued, s) && PassAt(rows, k)
    ensures SameAt(if Refreshes(s, k) then Refreshed(v, rows, k) else rows, AfterStep(v, cfg, rows, s), k)
    ensures s.key == k ==> s.outcome == Untried
    ensures PassAt(AfterStep(v, cfg, rows, s), k)
  {
    RefreshedKeepsPass(v, rows, k);
    hide AgState, DedupeHit, Refreshed, MayIssue;
    if s.key != k {
      StepOnlyAt(v, cfg, rows, s);
      assert k in rows <==> k in AfterStep(v, cfg, rows, s);
    }
  }

  predicate AnyRefreshes(steps: seq<Step>, k: Key) {
    exists s <- steps :: Refreshes(s, k)
  }

  lemma AnyMore(front: seq<Step>, last: Step, k: Key)
    ensures AnyRefreshes(front + [last], k) <==> AnyRefreshes(front, k) || Refreshes(last, k)
  {
    hide Refreshes;
    assert last in front + [last];
  }

  lemma PassFurther(v: View, rows: Rows, mid: Rows, after: Rows, before: bool, now: bool, k: Key)
    requires PassAt(rows, k) && SameAt(if before then Refreshed(v, rows, k) else rows, mid, k) && k in mid
    requires SameAt(if now then Refreshed(v, mid, k) else mid, after, k)
    ensures SameAt(if before || now then Refreshed(v, rows, k) else rows, after, k)
  {
    RefreshedTwice(v, rows, mid, k);
    hide Refreshed;
  }

  predicate NoneAbout(calls: seq<Call>, k: Key) {
    forall c <- calls :: c.key != k
  }

  lemma NothingAbout(steps: seq<Step>, s: Step, k: Key)
    requires NoneAbout(StepCalls(steps), k) && (s.key == k ==> s.outcome == Untried)
    ensures NoneAbout(StepCalls(steps + [s]), k)
  {
    hide StepCalls, CountIssued;
    OneMoreCall(steps, s);
  }

  /** What phase 1 makes of a pass: never asked for again; its row changes in its remembered state
      alone, and exactly if phase 1 comes to an unheld, trigger-active credential of it. */
  predicate PassKept(v: View, cfg: Config, rows: Rows, steps: seq<Step>, k: Key)
    requires k in rows
  {
    var after := AfterSteps(v, cfg, rows, steps);
    && SameAt(if AnyRefreshes(steps, k) then Refreshed(v, rows, k) else rows, after, k)
    && PassAt(after, k) && NoneAbout(StepCalls(steps), k)
  }

  lemma PassKeptFurther(v: View, cfg: Config, rows: Rows, front: seq<Step>, last: Step, k: Key)
    requires PassAt(rows, k) && PassKept(v, cfg, rows, front, k)
    requires IsStep(v, cfg, AfterSteps(v, cfg, rows, front), CountIssued(StepCalls(front)), last)
    ensures PassKept(v, cfg, rows, front + [last], k)
  {
    hide IsStep, AfterStep, Refreshed, Refreshes, CountIssued, AnyRefreshes, StepCalls, SameAt, NoneAbout, AfterSteps;
    var mid := AfterSteps(v, cfg, rows, front);
    AfterOneMore(v, cfg, rows, front, last);
    PassStep(v, cfg, mid, CountIssued(StepCalls(front)), last, k);
    PassFurther(v, rows, mid, AfterStep(v, cfg, mid, last), AnyRefreshes(front, k), Refreshes(last, k), k);
    AnyMore(front, last, k);
    NothingAbout(front, last, k);
  }

  lemma AfterOneMore(v: View, cfg: Config, rows: Rows, front: seq<Step>, last: Step)
    ensures AfterSteps(v, cfg, rows, front + [last]) == AfterStep(v, cfg, AfterSteps(v, cfg, rows, front), last)
  {
    hide AfterStep;
    assert (front + [last])[..|front|] == front;
  }

  lemma PassKeptAtFirst(v: View, cfg: Config, rows: Rows, k: Key)
    requires PassAt(rows, k)
    ensures PassKept(v, cfg, rows, [], k)
  {
  }

  lemma {:induction false} PassRefreshed(v: View, cfg: Config, rows: Rows, steps: seq<Step>, k: Key)
    requires AreSteps(v, cfg, rows, steps) && PassAt(rows, k)
    ensures PassKept(v, cfg, rows, steps, k)
  {
    hide PassKept, IsStep, AfterSteps, AreSteps, CountIssued, StepCalls;
    if steps == [] {
      PassKeptAtFirst(v, cfg, rows, k);
    } else {
      var front, last := steps[..|steps| - 1], steps[|steps| - 1];
      assert steps == front + [last];
      StepsBefore(v, cfg, rows, steps);
      PassRefreshed(v, cfg, rows, front, k);
      PassKeptFurther(v, cfg, rows, front, last, k);
    }
  }

  lemma RefreshedKeepsPass(v: View, rows: Rows, k: Key)
    requires PassAt(rows, k)
    ensures PassAt(Refreshed(v, rows, k), k)
  {
    hide AgState;
  }

  lemma RefreshedTwice(v: View, rows: Rows, mid: Rows, k: Key)
    requires k in rows && k in mid && (SameAt(rows, mid, k) || SameAt(Refreshed(v, rows, k), mid, k))
    ensures SameAt(Refreshed(v, rows, k), Refreshed(v, mid, k), k)
  {
    StateIgnoresLastKnown(v, rows[k], mid[k], k);
    hide AgState;
  }

  lemma StateIgnoresLastKnown(v: View, before: Row, after: Row, k: Key)
    requires after == before.(lastKnown := after.lastKnown)
    ensures AgState(v, after, k, "") == AgState(v, before, k, "")
  {
  }

  lemma {:induction false} QueuedFrom(v: View, order: seq<string>)
    requires forall p <- order :: p in v.creds
    ensures forall x <- Queue(v, order) :: IsItem(v, x)
  {
    if order != [] {
      var front := order[..|order| - 1];
      assert order == front + [order[|order| - 1]];
      QueuedFrom(v, front);
    }
  }

  /** A credential read of an active cardholder. */
  predicate IsItem(v: View, x: Item) {
    && x.key.person in v.people && v.people[x.key.person].active
    && x.cred in CredsOf(v, x.key.person) && x.cred.id == x.key.credential
  }

  /** Read of an active cardholder, unheld, its trigger on. */
  predicate ComesTo(v: View, k: Key) {
    exists cred <- CredsOf(v, k.person) :: IsItem(v, Item(k, cred)) && !cred.hold && cred.triggerActive
  }

  /** What a phase 1 that comes to everybody makes of a pass. */
  lemma PassAfterPhase1(v: View, cfg: Config, rows: Rows, after: Rows, r: Issues, k: Key)
    requires AreIssues(v, cfg, rows, after, r) && (forall pid <- v.creds :: pid in r.order) && PassAt(rows, k)
    ensures SameAt(if ComesTo(v, k) then Refreshed(v, rows, k) else rows, after, k)
    ensures PassAt(after, k) && NoneAbout(r.calls, k)
  {
    hide Queue, AreSteps, AfterSteps, StepCalls, CountIssued, Refreshed, NoneAbout, AnyRefreshes, ComesTo;
    PassRefreshed(v, cfg, rows, r.steps, k);
    WhoIsRefreshed(v, r.order, r.steps, k);
  }

  lemma WhoIsRefreshed(v: View, order: seq<string>, steps: seq<Step>, k: Key)
    requires (forall p <- order :: p in v.creds) && (forall p <- v.creds :: p in order) && Items(steps) == Queue(v, order)
    ensures AnyRefreshes(steps, k) <==> ComesTo(v, k)
  {
    hide Queue;
    QueuedFrom(v, order);
    if AnyRefreshes(steps, k) {
      var i :| 0 <= i < |steps| && Refreshes(steps[i], k);
      assert Items(steps)[i] == Item(k, steps[i].cred) && Items(steps)[i] in Queue(v, order);
    }
    if ComesTo(v, k) {
      var cred :| cred in CredsOf(v, k.person) && IsItem(v, Item(k, cred)) && !cred.hold && cred.triggerActive;
      var j :| 0 <= j < |v.creds[k.person]| && v.creds[k.person][j] == cred;
      var i := QueuedAt(v, order, k.person, j);
      assert Items(steps)[i] == Item(k, cred);
      assert Refreshes(steps[i], k);
    }
  }

  // ---- phase 5 ----

  function OutcomeAt(tried: map<Key, Outcome>, k: Key): Outcome {
    if k in tried then tried[k] else Untried
  }

  /** The table after phase 5 came to a failed row. */
  function AfterRetry(v: View, cfg: Config, rows: Rows, k: Key, outcome: Outcome): Rows {
    if outcome.Untried? then NotRetried(v, cfg, rows, k) else AfterAttempt(rows, k, outcome)
  }

  function RetryCalls(failed: seq<Key>, tried: map<Key, Outcome>): seq<Call> {
    if failed == [] then []
    else RetryCalls(failed[..|failed| - 1], tried) + AttemptCalls(failed[|failed| - 1], OutcomeAt(tried, failed[|failed| - 1]))
  }

  function RetryPushes(v: View, cfg: Config, failed: seq<Key>, tried: map<Key, Outcome>): seq<PacsCall> {
    if failed == [] then []
    else
      var k := failed[|failed| - 1];
      RetryPushes(v, cfg, failed[..|failed| - 1], tried) + PushesFor(v, cfg, k, OutcomeAt(tried, k))
  }

  function PushesFor(v: View, cfg: Config, k: Key, outcome: Outcome): seq<PacsCall> {
    if CredOf(v, k).Some? then AttemptPushes(cfg, k, CredOf(v, k).value, outcome) else []
  }

  /** The failed rows it came to, how each attempt ended, and the calls it made. */
  datatype Reissues = Reissues(listing: seq<Key>, tried: map<Key, Outcome>, calls: seq<Call>, pushes: seq<PacsCall>)

  /** Exactly the failed passes whose credential still wants one asked for again, in order; and
      each failed row as that ended, or as it is left without. */
  ghost predicate AreReissues(v: View, cfg: Config, before: Rows, after: Rows, r: Reissues) {
    && r.calls == RetryCalls(r.listing, r.tried) && r.pushes == RetryPushes(v, cfg, r.listing, r.tried)
    && RowsAsTried(v, cfg, before, after, r.listing, r.tried)
  }

  ghost predicate RowsAsTried(v: View, cfg: Config, before: Rows, after: Rows, failed: seq<Key>, tried: map<Key, Outcome>) {
    && (forall k <- failed :: (k in tried <==> Retries(v, cfg, k)))
    && (forall k <- tried :: k in failed && !tried[k].Untried? && OwnOutcome(tried[k]))
    && (forall k <- failed :: SameAt(AfterRetry(v, cfg, before, k, OutcomeAt(tried, k)), after, k))
    && (forall k: Key :: k !in failed ==> SameAt(before, after, k))
  }

  lemma NoReissues(v: View, cfg: Config, rows: Rows)
    ensures AreReissues(v, cfg, rows, rows, Reissues([], map[], [], []))
  {
  }

  lemma RetryAt(v: View, cfg: Config, rows: Rows, mid: Rows, k: Key, outcome: Outcome)
    requires SameAt(rows, mid, k)
    ensures SameAt(AfterRetry(v, cfg, rows, k, outcome), AfterRetry(v, cfg, mid, k, outcome), k)
    ensures OnlyAt(mid, AfterRetry(v, cfg, mid, k, outcome), k)
  {
    hide DedupeHit, CredOf;
  }

  lemma {:induction false} RetryCallsStay(v: View, cfg: Config, failed: seq<Key>, tried: map<Key, Outcome>, more: map<Key, Outcome>)
    requires forall k <- failed :: OutcomeAt(more, k) == OutcomeAt(tried, k)
    ensures RetryCalls(failed, more) == RetryCalls(failed, tried) && RetryPushes(v, cfg, failed, more) == RetryPushes(v, cfg, failed, tried)
  {
    hide AttemptCalls, PushesFor;
    if failed != [] {
      assert failed == failed[..|failed| - 1] + [failed[|failed| - 1]];
      RetryCallsStay(v, cfg, failed[..|failed| - 1], tried, more);
    }
  }

  ghost function AndTried(tried: map<Key, Outcome>, k: Key, outcome: Outcome): map<Key, Outcome> {
    if outcome.Untried? then tried else tried[k := outcome]
  }

  lemma OneMoreTried(v: View, cfg: Config, rows: Rows, mid: Rows, after: Rows, before: seq<Key>, k: Key, tried: map<Key, Outcome>, outcome: Outcome)
    requires RowsAsTried(v, cfg, rows, mid, before, tried) && OwnOutcome(outcome) && k !in before
    requires !outcome.Untried? <==> Retries(v, cfg, k)
    requires after == AfterRetry(v, cfg, mid, k, outcome)
    ensures RowsAsTried(v, cfg, rows, after, before + [k], AndTried(tried, k, outcome)) && k !in tried
  {
    hide Retries, AfterRetry, SameAt;
    var next := AndTried(tried, k, outcome);
    RetryAt(v, cfg, rows, mid, k, outcome);
    forall x: Key | x !in before + [k] ensures SameAt(rows, after, x) {
      SameAlong(rows, mid, after, k, x);
    }
    forall x | x in before + [k] ensures SameAt(AfterRetry(v, cfg, rows, x, OutcomeAt(next, x)), after, x) {
      if x in before {
        assert SameAt(AfterRetry(v, cfg, rows, x, OutcomeAt(tried, x)), mid, x);
        SameAlong(AfterRetry(v, cfg, rows, x, OutcomeAt(tried, x)), mid, after, k, x);
      }
    }
  }

  ghost function AndRetry(v: View, cfg: Config, r: Reissues, k: Key, outcome: Outcome): Reissues {
    Reissues(r.listing + [k], AndTried(r.tried, k, outcome), r.calls + AttemptCalls(k, outcome), r.pushes + PushesFor(v, cfg, k, outcome))
  }

  lemma OneMoreRetry(v: View, cfg: Config, rows: Rows, mid: Rows, after: Rows, all: seq<Key>, i: nat, r: Reissues, outcome: Outcome)
    requires i < |all| && (forall a, b | 0 <= a < b < |all| :: all[a] != all[b])
    requires r.listing == all[..i] && AreReissues(v, cfg, rows, mid, r) && OwnOutcome(outcome)
    requires !outcome.Untried? <==> Retries(v, cfg, all[i])
    requires after == AfterRetry(v, cfg, mid, all[i], outcome)
    ensures AreReissues(v, cfg, rows, after, AndRetry(v, cfg, r, all[i], outcome)) && AndRetry(v, cfg, r, all[i], outcome).listing == all[..i + 1]
  {
    hide Retries, AfterRetry, AttemptCalls, PushesFor, RowsAsTried;
    var k, next := all[i], AndTried(r.tried, all[i], outcome);
    assert all[..i + 1] == all[..i] + [k];
    assert k !in all[..i];
    OneMoreTried(v, cfg, rows, mid, after, all[..i], k, r.tried, outcome);
    RetryCallsStay(v, cfg, all[..i], r.tried, next);
    assert all[..i + 1][..i] == all[..i];
  }

  /** Whatever it asks for again, or hands to the PACS, is a failed row's, whose credential still
      wants a pass. */
  lemma {:induction false} RetriesAreTried(v: View, cfg: Config, failed: seq<Key>, tried: map<Key, Outcome>)
    ensures forall c <- RetryCalls(failed, tried) :: c.Provision? && c.key in failed && c.key in tried
    ensures forall c <- RetryPushes(v, cfg, failed, tried) :: c.WriteBack? && c.key in failed && c.key in tried
  {
    if failed != [] {
      hide Offered, CredOf;
      var front, last := failed[..|failed| - 1], failed[|failed| - 1];
      assert failed == front + [last];
      RetriesAreTried(v, cfg, front, tried);
    }
  }
}

/** What each phase asks of AccessGrid and tells the PACS, and why it may. */
module Asks {
  import opened Base
  import opened Pacs
  import opened Ledger
  import opened AgCards
  import opened Snapshot
  import opened Tracking
  import opened Passes
  import opened Decisions

  // ---- why a call is made ----

  /** Why any call of a cycle is made. */
  predicate Justified(v: View, complete: bool, call: Call) {
    match call
    case Provision(k, _) => exists cred <- CredsOf(v, k.person) :: MayRetry(v, k, cred)
    case Delete(k, _) => (CredOf(v, k).Some? && !Held(v, k) && !CredOf(v, k).value.triggerActive) || Evidence(v, complete, k)
    case Suspend(k, _) => CredOf(v, k).Some? && !Held(v, k) && CredOf(v, k).value.status !in {Active, AwaitingInstall}
    case Resume(k, _) => CredOf(v, k).Some? && !Held(v, k) && CredOf(v, k).value.status == Active
  }

  /** What both ways of issuing a pass check. */
  predicate MayRetry(v: View, k: Key, cred: Credential) {
    && k.person in v.people && Reachable(v.people[k.person])
    && cred in CredsOf(v, k.person) && cred.id == k.credential && !cred.hold && cred.triggerActive
  }

  predicate AllJustified(v: View, complete: bool, calls: seq<Call>) {
    forall c <- calls :: Justified(v, complete, c)
  }

  /** What phases 1, 4 and 5 may tell the PACS; the retirements of phase 3 are stated exactly. */
  predicate PacsCallAllowed(v: View, call: PacsCall) {
    !call.Retire? && exists cred <- CredsOf(v, call.key.person) :: cred.id == call.key.credential && !cred.hold
  }

  predicate PacsCallsAllowed(v: View, calls: seq<PacsCall>) {
    forall c <- calls :: PacsCallAllowed(v, c)
  }

  ghost predicate Extends(v: View, complete: bool, before: seq<Call>, after: seq<Call>) {
    before <= after && AllJustified(v, complete, after[|before|..])
  }

  // ---- provisions ----

  lemma MayIssueMayRetry(v: View, k: Key, cred: Credential)
    requires MayIssue(v, k, cred)
    ensures MayRetry(v, k, cred)
  {
  }

  function CountIssued(calls: seq<Call>): nat {
    if calls == [] then 0
    else CountIssued(calls[..|calls| - 1]) + if calls[|calls| - 1].Provision? && calls[|calls| - 1].issued.Some? then 1 else 0
  }

  /** Deletions of passes whose credential the PACS still reports. */
  function CountPresent(v: View, calls: seq<Call>): nat {
    if calls == [] then 0
    else
      var c := calls[|calls| - 1];
      CountPresent(v, calls[..|calls| - 1]) + if c.Delete? && c.key.person in v.people && CredOf(v, c.key).Some? then 1 else 0
  }

  lemma CountStep(v: View, calls: seq<Call>, c: Call)
    ensures CountPresent(v, calls + [c]) == CountPresent(v, calls) + if c.Delete? && c.key.person in v.people && CredOf(v, c.key).Some? then 1 else 0
  {
    assert (calls + [c])[..|calls|] == calls;
  }

  // ---- phase 1, where it asks for nothing ----

  /** Phase 1's refresh of a pass's remembered state, looked up without its reference. */
  function Refreshed(v: View, rows: Rows, k: Key): Rows
    requires k in rows
  {
    var state := AgState(v, rows[k], k, "");
    if rows[k].status == "deduped" || state == "" then rows else LastKnownUpdated(rows, k, state)
  }

  /** The table after phase 1 passed over a credential without asking for a pass. */
  function PassedOver(v: View, cfg: Config, rows: Rows, k: Key, cred: Credential): Rows {
    var hit := DedupeHit(v, cred, cfg.dedupe, cfg.site);
    if cred.hold || !cred.triggerActive then rows
    else if PassAt(rows, k) then Refreshed(v, rows, k)
    else if MayIssue(v, k, cred) && hit.Some? then Deduped(rows, k, Some(hit.value.id))
    else rows
  }

  // ---- phase 2 ----

  function CallAs(k: Key, id: string, call: StatusCall): seq<Call> {
    match call
    case Nothing => []
    case Terminate => [Call.Delete(k, id)]
    case SuspendIt => [Call.Suspend(k, id)]
    case ResumeIt => [Call.Resume(k, id)]
  }

  /** What phase 2 asks of AccessGrid for a row. */
  function Phase2Asks(v: View, cfg: Config, k: Key, row: Row): seq<Call> {
    var cred := CredOf(v, k);
    if !Driven(row) || cred.None? || cred.value.hold || cfg.dryRun then []
    else
      CallAs(k, row.agCardId.value, Phase2Call(row, cred.value, AgState(v, row, k, row.syncRef)))
  }

  /** The table once a phase 2 call was answered without error. */
  function AfterDone(rows: Rows, call: Call): Rows {
    match call
    case Delete(k, _) => Deleted(rows, k)
    case Suspend(k, _) => StatusUpdated(rows, k, "suspended", "suspended")
    case Resume(k, _) => StatusUpdated(rows, k, "active", "active")
    case Provision(_, _) => rows
  }

  lemma AsksAbout(v: View, cfg: Config, k: Key, row: Row)
    ensures forall c <- Phase2Asks(v, cfg, k, row) :: c.key == k && !c.Provision?
  {
  }

  lemma Phase2AsksWithCause(v: View, cfg: Config, complete: bool, k: Key, row: Row)
    ensures AllJustified(v, complete, Phase2Asks(v, cfg, k, row))
  {
    hide AgState;
  }

  /** Phase 2 over the whole table, row by row. */
  function Phase2All(v: View, cfg: Config, rows: Rows, listing: seq<Key>): seq<Call>
    requires forall k <- listing :: k in rows
  {
    if listing == [] then []
    else
      var k := listing[|listing| - 1];
      Phase2All(v, cfg, rows, listing[..|listing| - 1]) + Phase2Asks(v, cfg, k, rows[k])
  }

  lemma Phase2Step(v: View, cfg: Config, rows: Rows, listing: seq<Key>, i: nat)
    requires i < |listing| && forall k <- listing :: k in rows
    ensures Phase2All(v, cfg, rows, listing[..i + 1]) ==
            Phase2All(v, cfg, rows, listing[..i]) + Phase2Asks(v, cfg, listing[i], rows[listing[i]])
  {
    assert listing[..i + 1][..i] == listing[..i];
  }

  lemma {:induction false} StatusesAreJustified(v: View, cfg: Config, complete: bool, rows: Rows, listing: seq<Key>)
    requires forall k <- listing :: k in rows
    ensures AllJustified(v, complete, Phase2All(v, cfg, rows, listing))
  {
    if listing != [] {
      hide AgState, Phase2Call;
      StatusesAreJustified(v, cfg, complete, rows, listing[..|listing| - 1]);
      var k := listing[|listing| - 1];
      Phase2AsksWithCause(v, cfg, complete, k, rows[k]);
    }
  }

  /** A row phase 2 acts on, whose state in the listing is not the one remembered. */
  predicate StateMoved(v: View, k: Key, row: Row) {
    && Driven(row) && CredOf(v, k).Some? && !Held(v, k) && CredOf(v, k).value.triggerActive
    && AgState(v, row, k, row.syncRef) != "" && row.lastKnown != "" && AgState(v, row, k, row.syncRef) != row.lastKnown
  }

  /** Where the guard does not look: what carries the credential's status to a pass in this state. */
  function Carries(cred: Credential, state: string): StatusCall {
    if cred.status == Active && state == "suspended" then ResumeIt
    else if cred.status !in {Active, AwaitingInstall} && (state == "active" || (state == "created" && !cred.allocateIdentity)) then SuspendIt
    else Nothing
  }

  lemma KnownIsCarried(row: Row, cred: Credential, state: string)
    requires cred.triggerActive && state != ""
    ensures row.lastKnown == state ==> Phase2Call(row, cred, state) == Carries(cred, state)
    ensures row.lastKnown != "" && row.lastKnown != state ==> Phase2Call(row, cred, state) == Nothing
  {
    assert "active" != "suspended" && "active" != "created" && "suspended" != "created" by {
      assert |"active"| == 6 && |"created"| == 7 && |"suspended"| == 9;
    }
  }

  /** Phase 2 leaves alone a pass whose state moved since it was last known. But phase 1 has refreshed
      what is known: if it read the state phase 2 reads, the pass is treated as if it never moved. */
  lemma RefreshedIsCarried(v: View, cfg: Config, k: Key, rows: Rows)
    requires k in rows && StateMoved(v, k, rows[k]) && !cfg.dryRun
    ensures Phase2Asks(v, cfg, k, rows[k]) == [] && k in Refreshed(v, rows, k)
    ensures var row := rows[k];
            var state := AgState(v, row, k, row.syncRef);
            Phase2Asks(v, cfg, k, Refreshed(v, rows, k)[k]) ==
            CallAs(k, row.agCardId.value, if AgState(v, row, k, "") == state then Carries(CredOf(v, k).value, state) else Nothing)
  {
    var after := Refreshed(v, rows, k)[k];
    var state := AgState(v, rows[k], k, rows[k].syncRef);
    assert AgState(v, after, k, after.syncRef) == state by { hide Resolve; }
    hide AgState, CredOf, Phase2Call, Carries;
    KnownIsCarried(rows[k], CredOf(v, k).value, state);
    KnownIsCarried(after, CredOf(v, k).value, state);
  }

  // ---- phase 3 ----

  /** What phase 3 asks for a row, when `expired` passes have already run out this cycle. */
  function Phase3Asks(v: View, cfg: Config, complete: bool, k: Key, row: Row, expired: nat): seq<Call> {
    var reason := Phase3Reason(v, complete, k);
    if row.status in {"deleted", "deduped"} || !HasPass(row) || cfg.dryRun || reason == Keep
       || (reason == RanOut && expired >= MAX_EXPIRIES)
    then [] else [Call.Delete(k, row.agCardId.value)]
  }

  /** A row that uses up one of the cycle's expiries. */
  predicate RunsOut(v: View, complete: bool, k: Key, row: Row, expired: nat) {
    row.status !in {"deleted", "deduped"} && HasPass(row) && Phase3Reason(v, complete, k) == RanOut && expired < MAX_EXPIRIES
  }

  function ExpiredIn(v: View, complete: bool, rows: Rows, listing: seq<Key>): (n: nat)
    requires forall k <- listing :: k in rows
    ensures n <= MAX_EXPIRIES
  {
    if listing == [] then 0
    else
      var k := listing[|listing| - 1];
      var before := ExpiredIn(v, complete, rows, listing[..|listing| - 1]);
      before + if RunsOut(v, complete, k, rows[k], before) then 1 else 0
  }

  /** Phase 3 over the whole table, the expiries rationed in its order. */
  function Phase3All(v: View, cfg: Config, complete: bool, rows: Rows, listing: seq<Key>): seq<Call>
    requires forall k <- listing :: k in rows
  {
    if listing == [] then []
    else
      var k, front := listing[|listing| - 1], listing[..|listing| - 1];
      Phase3All(v, cfg, complete, rows, front) + Phase3Asks(v, cfg, complete, k, rows[k], ExpiredIn(v, complete, rows, front))
  }

  lemma Phase3Step(v: View, cfg: Config, complete: bool, rows: Rows, listing: seq<Key>, i: nat)
    requires i < |listing| && forall k <- listing :: k in rows
    ensures var expired := ExpiredIn(v, complete, rows, listing[..i]);
            && ExpiredIn(v, complete, rows, listing[..i + 1]) ==
               expired + (if RunsOut(v, complete, listing[i], rows[listing[i]], expired) then 1 else 0)
            && Phase3All(v, cfg, complete, rows, listing[..i + 1]) ==
               Phase3All(v, cfg, complete, rows, listing[..i]) + Phase3Asks(v, cfg, complete, listing[i], rows[listing[i]], expired)
  {
    assert listing[..i + 1][..i] == listing[..i];
  }

  /** Of the passes whose credential the PACS still reports, only those that ran out are deleted. */
  lemma AsksWithinExpiries(v: View, cfg: Config, complete: bool, calls: seq<Call>, k: Key, row: Row, expired: nat)
    requires v.people != map[]
    ensures var asks := Phase3Asks(v, cfg, complete, k, row, expired);
            CountPresent(v, calls + asks) <= CountPresent(v, calls) + if RunsOut(v, complete, k, row, expired) then 1 else 0
  {
    hide CountPresent, Phase3Reason, CredOf;
    ReasonIsEvidence(v, complete, k);
    var asks := Phase3Asks(v, cfg, complete, k, row, expired);
    if asks == [] {
      assert calls + asks == calls;
    } else {
      CountStep(v, calls, asks[0]);
    }
  }

  /** Every deletion of phase 3 has its evidence. */
  lemma {:induction false} RevokedOnEvidence(v: View, cfg: Config, complete: bool, rows: Rows, listing: seq<Key>)
    requires v.people != map[] && forall k <- listing :: k in rows
    ensures forall c <- Phase3All(v, cfg, complete, rows, listing) :: c.Delete? && Evidence(v, complete, c.key)
  {
    hide Phase3Reason, Evidence, ExpiredIn;
    if listing != [] {
      RevokedOnEvidence(v, cfg, complete, rows, listing[..|listing| - 1]);
      ReasonIsEvidence(v, complete, listing[|listing| - 1]);
    }
  }

  // ---- phase 4 ----

  /** The three walks phase 4 takes over the table. */
  datatype Walk = OfferWalk | GateWalk | FollowWalk

  /** A pass whose cards AccessGrid allocated, and that phase 4 may act for. */
  predicate Minted(v: View, k: Key, row: Row) {
    Driven(row) && CredOf(v, k).Some? && !Held(v, k) && CredOf(v, k).value.allocateIdentity
  }

  /** What phase 4 tells the PACS for a row: the identities its pass backs; the box its pass
      says; and, for a card that is the customer's own, its pass's new state. */
  function Phase4Asks(v: View, cfg: Config, index: Index, detail: map<string, AgCard>, walk: Walk, k: Key, row: Row): seq<PacsCall> {
    match walk
    case OfferWalk =>
      var cards := CardsOf(index, detail, k, row);
      if Minted(v, k, row) && cards != [] && cfg.supportsWriteback && Offered(cards) != [] then [PacsCall.WriteBack(k, Offered(cards))] else []
    case GateWalk =>
      var cards := CardsOf(index, detail, k, row);
      if Minted(v, k, row) && cards != [] && !InLine(CredOf(v, k).value.status, DesiredStatus(cards))
      then [PacsCall.SetStatus(k, DesiredStatus(cards) == Active)] else []
    case FollowWalk =>
      if row.status in {"deleted", "deduped"} || !HasPass(row) then []
      else
        var state := AgState(v, row, k, row.syncRef);
        if state != "" && state != row.lastKnown && state in AG_TO_CRED && CredOf(v, k).Some? && !Held(v, k)
           && !CredOf(v, k).value.allocateIdentity && CredOf(v, k).value.status != AG_TO_CRED[state]
        then [PacsCall.SetStatus(k, AG_TO_CRED[state] == Active)] else []
  }

  function Phase4All(v: View, cfg: Config, index: Index, detail: map<string, AgCard>, walk: Walk, rows: Rows, listing: seq<Key>): seq<PacsCall>
    requires forall k <- listing :: k in rows
  {
    if listing == [] then []
    else
      var k := listing[|listing| - 1];
      Phase4All(v, cfg, index, detail, walk, rows, listing[..|listing| - 1]) + Phase4Asks(v, cfg, index, detail, walk, k, rows[k])
  }

  lemma Phase4Step(v: View, cfg: Config, index: Index, detail: map<string, AgCard>, walk: Walk, rows: Rows, listing: seq<Key>, i: nat)
    requires i < |listing| && forall k <- listing :: k in rows
    ensures Phase4All(v, cfg, index, detail, walk, rows, listing[..i + 1]) ==
            Phase4All(v, cfg, index, detail, walk, rows, listing[..i]) + Phase4Asks(v, cfg, index, detail, walk, listing[i], rows[listing[i]])
  {
    assert listing[..i + 1][..i] == listing[..i];
  }

  predicate AllKnown(v: View, index: Index, detail: map<string, AgCard>, rows: Rows, listing: seq<Key>)
    requires forall k <- listing :: k in rows
  {
    forall k <- listing :: Minted(v, k, rows[k]) ==> KnownIn(index, detail, k, rows[k])
  }

  lemma {:induction false} AsksStay(v: View, cfg: Config, index: Index, before: map<string, AgCard>, after: map<string, AgCard>,
                                    walk: Walk, rows: Rows, listing: seq<Key>)
    requires (forall k <- listing :: k in rows) && AllKnown(v, index, before, rows, listing) && Grown(before, after)
    ensures Phase4All(v, cfg, index, after, walk, rows, listing) == Phase4All(v, cfg, index, before, walk, rows, listing)
    ensures AllKnown(v, index, after, rows, listing)
  {
    hide CardsOf, KnownIn, Grown, Minted, AgState, DesiredStatus, Offered;
    if listing != [] {
      var k := listing[|listing| - 1];
      var front := listing[..|listing| - 1];
      assert listing == front + [k];
      AsksStay(v, cfg, index, before, after, walk, rows, front);
      if Minted(v, k, rows[k]) {
        CardsStay(index, before, after, k, rows[k]);
      }
    }
  }

  lemma NothingAsked(v: View, cfg: Config, index: Index, detail: map<string, AgCard>, walk: Walk, rows: Rows)
    ensures Phase4All(v, cfg, index, detail, walk, rows, []) == [] && AllKnown(v, index, detail, rows, [])
  {
  }

  lemma OneMoreKnown(v: View, index: Index, detail: map<string, AgCard>, rows: Rows, listing: seq<Key>, i: nat)
    requires i < |listing| && (forall k <- listing :: k in rows) && AllKnown(v, index, detail, rows, listing[..i])
    requires Minted(v, listing[i], rows[listing[i]]) ==> KnownIn(index, detail, listing[i], rows[listing[i]])
    ensures AllKnown(v, index, detail, rows, listing[..i + 1])
  {
    hide KnownIn, Minted;
    assert listing[..i + 1] == listing[..i] + [listing[i]];
  }

  // ---- phase 5 ----

  /** What phase 5 asks for again. */
  predicate Retries(v: View, cfg: Config, k: Key) {
    CredOf(v, k).Some? && MayRetry(v, k, CredOf(v, k).value)
    && DedupeHit(v, CredOf(v, k).value, cfg.dedupe, cfg.site).None? && !cfg.dryRun
  }

  /** The table after phase 5 did not ask for a failed pass again. */
  function NotRetried(v: View, cfg: Config, rows: Rows, k: Key): Rows {
    var cred := CredOf(v, k);
    if Held(v, k) then rows
    else if k.person !in v.people || cred.None? || !cred.value.triggerActive then rows - {k}
    else if !Reachable(v.people[k.person]) then ErrorRecorded(rows, k)
    else
      var hit := DedupeHit(v, cred.value, cfg.dedupe, cfg.site);
      if hit.Some? then Deduped(rows, k, Some(hit.value.id)) else rows
  }

  // ---- what the justifications rule out ----

  predicate UniqueIds(v: View) {
    forall p <- v.creds :: forall i, j | 0 <= i < j < |v.creds[p]| :: v.creds[p][i].id != v.creds[p][j].id
  }

  lemma {:induction false} OnlyCredential(creds: seq<Credential>, c: Credential)
    requires c in creds && forall i, j | 0 <= i < j < |creds| :: creds[i].id != creds[j].id
    ensures FirstWithId(creds, c.id) == Some(c)
  {
    if creds[0] != c {
      assert creds == [creds[0]] + creds[1..];
      OnlyCredential(creds[1..], c);
      var j :| 0 <= j < |creds| && creds[j] == c;
      assert creds[0].id != creds[j].id;
    }
  }

  /** A held credential gets no AccessGrid call, and no status or write-back call, from any phase. */
  lemma HeldGetsNothing(v: View, complete: bool, call: Call, pacsCall: PacsCall)
    requires UniqueIds(v)
    ensures Justified(v, complete, call) ==> !Held(v, call.key)
    ensures PacsCallAllowed(v, pacsCall) ==> !Held(v, pacsCall.key)
  {
    forall k: Key, cred | cred in CredsOf(v, k.person) && cred.id == k.credential && !cred.hold
      ensures !Held(v, k)
    {
      OnlyCredential(CredsOf(v, k.person), cred);
    }
  }

  /** Phase 1 issues nothing that phase 3 of the same cycle would delete. */
  lemma IssuedIsNotDeletedAtOnce(v: View, complete: bool, k: Key, cred: Credential)
    requires UniqueIds(v) && MayIssue(v, k, cred)
    ensures !Evidence(v, complete, k)
  {
    OnlyCredential(v.creds[k.person], cred);
  }

  /** Phase 5 does not look at the date: what it issues again is deleted by the next phase 3 that
      sees the same snapshot exactly when the credential has run out. */
  lemma RetriedIsDeletedIfExpired(v: View, cfg: Config, complete: bool, k: Key)
    requires Retries(v, cfg, k)
    ensures Evidence(v, complete, k) <==> Expired(CredOf(v, k).value, v.now)
  {
    assert k.person in v.creds && v.people != map[];
  }

  /** Nor does it look at what else phase 1 looks at: it issues again for a credential phase 1 would
      not issue for exactly when it has run out, or its person has no name or is inactive. */
  lemma RetriedUnchecked(v: View, cfg: Config, k: Key)
    requires Retries(v, cfg, k)
    ensures var cred, person := CredOf(v, k).value, v.people[k.person];
            !MayIssue(v, k, cred) <==> Expired(cred, v.now) || person.fullName == "" || !person.active
  {
    assert k.person in v.creds;
  }

  /** One such: a nameless cardholder's credential that has run out. */
  lemma RunOutIsRetried(cfg: Config, complete: bool, k: Key, end: int, now: int)
    requires end < now && !cfg.dryRun
    ensures var cred := Credential(k.credential, "", "", true, false, Suspended, None, Some(end), true);
            var v := View(map[k.person := Person("", "mail", "", true)], map[k.person := [cred]], Index(map[], map[], map[], map[], map[]), now);
            CredOf(v, k) == Some(cred) && Retries(v, cfg, k) && Evidence(v, complete, k) && !MayIssue(v, k, cred)
  {
    var cred := Credential(k.credential, "", "", true, false, Suspended, None, Some(end), true);
    assert cred in [cred];
  }

  /** A cardholder who was not read gets no call at all. */
  lemma UnreadGetsNothing(v: View, complete: bool, call: Call)
    ensures Unread(v, call.key.person) ==> !Justified(v, complete, call)
  {
    if Unread(v, call.key.person) {
      assert CredsOf(v, call.key.person) == [];
      assert CredOf(v, call.key).None?;
    }
  }

  /** A pass is deleted for being missing only on a complete read that shows it missing. */
  lemma DeletedOnEvidence(v: View, complete: bool, call: Call)
    requires Justified(v, complete, call) && call.Delete?
    ensures v.people == map[] ==> CredOf(v, call.key).Some? && !CredOf(v, call.key).value.triggerActive
    ensures !complete ==> CredOf(v, call.key).Some?
    ensures CredOf(v, call.key).None? ==> complete && (call.key.person !in v.people || call.key.person in v.creds)
  {
  }
}

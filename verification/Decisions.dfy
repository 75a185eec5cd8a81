/** What each phase decides from one snapshot, apart from the calls that carry it out. */
module Decisions {
  import opened Base
  import opened Pacs
  import opened Ledger
  import opened AgCards
  import opened Snapshot
  import opened Tracking

  /** One cycle's snapshot; a cardholder with no entry in `creds` was not read. */
  datatype View = View(people: map<string, Person>, creds: map<string, seq<Credential>>, index: Index, now: int)

  datatype Config = Config(
    cap: nat, dedupe: bool, site: string, dryRun: bool,
    supportsWriteback: bool, supportsStatus: bool, supportsRetirement: bool)

  /** What the PACS is told; a retirement also remembers how many cards it answered it
      retired, or None when it raised an error. */
  datatype PacsCall =
    | WriteBack(key: Key, identities: seq<Identity>)
    | SetStatus(key: Key, want: bool)
    | Retire(key: Key, identities: seq<Identity>, count: Option<nat>)

  function CredsOf(v: View, person: string): seq<Credential> {
    if person in v.creds then v.creds[person] else []
  }

  function CredOf(v: View, k: Key): Option<Credential> {
    FirstWithId(CredsOf(v, k.person), k.credential)
  }

  predicate Held(v: View, k: Key) {
    CredOf(v, k).Some? && CredOf(v, k).value.hold
  }

  /** On the roster, but not read this cycle. */
  predicate Unread(v: View, person: string) {
    person in v.people && person !in v.creds
  }

  /** The state the listing gives for a row's pass; "" when it is not listed. */
  function AgState(v: View, row: Row, k: Key, ref: string): string {
    var cards := Resolve(v.index, row.agCardId.GetOr(""), k.person, k.credential, ref);
    if cards == [] then "" else cards[0].ListedState()
  }

  /** The listed cards of a row's pass. */
  function ResolvedFor(index: Index, k: Key, row: Row): seq<AgCard> {
    Resolve(index, row.agCardId.GetOr(""), k.person, k.credential, row.syncRef)
  }

  /** A row's cards, each with its own detail. */
  function CardsOf(index: Index, detail: map<string, AgCard>, k: Key, row: Row): (r: seq<AgCard>) {
    DetailedAll(detail, ResolvedFor(index, k, row))
  }

  /** Every card of a row's pass has been read. */
  predicate KnownIn(index: Index, detail: map<string, AgCard>, k: Key, row: Row) {
    AllRead(detail, ResolvedFor(index, k, row))
  }

  lemma CardsStay(index: Index, before: map<string, AgCard>, after: map<string, AgCard>, k: Key, row: Row)
    requires KnownIn(index, before, k, row) && Grown(before, after)
    ensures CardsOf(index, after, k, row) == CardsOf(index, before, k, row) && KnownIn(index, after, k, row)
  {
    ReadCardsStay(before, after, ResolvedFor(index, k, row));
  }

  // ---- phase 1 ----

  predicate Reachable(p: Person) { p.email != "" || p.phone != "" }

  /** Phase 1 issues a pass only for this. */
  predicate MayIssue(v: View, k: Key, cred: Credential) {
    && k.person in v.people && v.people[k.person].active && v.people[k.person].fullName != "" && Reachable(v.people[k.person])
    && k.person in v.creds && cred in v.creds[k.person] && cred.id == k.credential
    && !cred.hold && cred.triggerActive && !Expired(cred, v.now)
  }

  function SiteOf(cred: Credential, site: string): string {
    if cred.siteCode != "" then cred.siteCode else site
  }

  /** The card another tool issued for the same physical credential. */
  function DedupeHit(v: View, cred: Credential, dedupe: bool, site: string): Option<AgCard> {
    if dedupe && !cred.allocateIdentity && SiteOf(cred, site) != "" && cred.cardNumber != ""
    then CardAtKey(v.index.bySiteCard, (SiteOf(cred, site), cred.cardNumber))
    else None
  }

  // ---- phase 2 ----

  datatype StatusCall = Nothing | Terminate | SuspendIt | ResumeIt

  predicate Driven(row: Row) {
    row.status !in {"deleted", "pending", "deduped"} && HasPass(row)
  }

  function Phase2Call(row: Row, cred: Credential, agState: string): StatusCall {
    if !cred.triggerActive then Terminate
    else if agState != "" && agState != row.lastKnown && row.lastKnown != "" then Nothing
    else if cred.status == AwaitingInstall then Nothing
    else
      var desired := if cred.status == Active then "active" else "suspended";
      if agState == desired then Nothing
      else if desired == "suspended" && agState == "created" && cred.allocateIdentity then Nothing
      else if desired == "suspended" && agState in {"active", "created", ""} then SuspendIt
      else if desired == "active" && agState == "suspended" then ResumeIt
      else Nothing
  }

  // ---- phase 3 ----

  const MAX_EXPIRIES := 25
  const MAX_RETIREMENTS := 25

  /** At least 30% of the last complete read's people. */
  predicate Complete(v: View, previous: nat) {
    10 * |v.people| >= 3 * previous
  }

  datatype Reason = Keep | Missing | RanOut

  /** Why phase 3 would delete a row's pass. */
  function Phase3Reason(v: View, complete: bool, k: Key): Reason {
    var cred := CredOf(v, k);
    if Held(v, k) || Unread(v, k.person) then Keep
    else if k.person !in v.people || cred.None? then if complete then Missing else Keep
    else if Expired(cred.value, v.now) then RanOut
    else Keep
  }

  /** The evidence a revocation needs, stated without the phase's order of checks. */
  predicate Evidence(v: View, complete: bool, k: Key) {
    && v.people != map[] && !Held(v, k)
    && ( || (complete && k.person !in v.people)
         || (complete && k.person in v.creds && CredOf(v, k).None?)
         || (k.person in v.people && k.person in v.creds && CredOf(v, k).Some? && Expired(CredOf(v, k).value, v.now)))
  }

  lemma ReasonIsEvidence(v: View, complete: bool, k: Key)
    requires v.people != map[]
    ensures Phase3Reason(v, complete, k) != Keep <==> Evidence(v, complete, k)
    ensures Phase3Reason(v, complete, k) == RanOut ==> k.person in v.people && CredOf(v, k).Some?
    ensures Phase3Reason(v, complete, k) == Missing ==> k.person !in v.people || CredOf(v, k).None?
  {
  }

  // ---- phase 4 ----

  /** What a pass's PACS cards should be: suspended before installed, installed before awaited. */
  function DesiredStatus(cards: seq<AgCard>): CredentialStatus {
    var live := Filter((c: AgCard) => !CardDead(c), cards);
    if live == [] then Suspended
    else if exists c <- live :: StateText(c.state, c.status) == "suspended" then Suspended
    else if Installed(live) then Active
    else AwaitingInstall
  }

  /** The adapter reads "off" with no reason attached: any off is as good as another. */
  predicate InLine(status: CredentialStatus, desired: CredentialStatus) {
    (status == Active) == (desired == Active)
  }

  const AG_TO_CRED: map<string, CredentialStatus> := map["active" := Active, "created" := Active, "suspended" := Suspended]
}

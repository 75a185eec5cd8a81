/** The vendor-neutral models the sync engine passes around. */
module Pacs {
  import opened Base
  import opened Export

  datatype CredentialStatus = Active | Suspended | AwaitingInstall | Unknown

  datatype Person = Person(fullName: string, email: string, phone: string, active: bool)

  datatype Credential = Credential(
    id: string, siteCode: string, cardNumber: string, allocateIdentity: bool, hold: bool,
    status: CredentialStatus, activate: Option<int>, deactivate: Option<int>, triggerActive: bool)

  /** An AccessGrid-allocated card on its way into the PACS; `deviceType` is "" for the pass's own card. */
  datatype Identity = Identity(card: Card, deviceType: string)

  /** Past the date the PACS gave it; a credential with no date never is. */
  predicate Expired(cred: Credential, now: int) {
    cred.deactivate.Some? && cred.deactivate.value < now
  }

  /** `next((c for c in creds if c.id == id), None)` */
  function FirstWithId(creds: seq<Credential>, id: string): (r: Option<Credential>)
    ensures r.Some? ==> r.value in creds && r.value.id == id
    ensures r.None? ==> forall c <- creds :: c.id != id
  {
    if creds == [] then None
    else if creds[0].id == id then Some(creds[0])
    else FirstWithId(creds[1..], id)
  }
}

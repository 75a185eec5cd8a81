/** What a Seos pass reads as, from the cards we wrote for it. */
module SeosStatus {
  import opened Base
  import opened Export
  import opened Pacs
  import opened Ledger

  /** Not yet in Millennium's final state. */
  predicate Unwritten(e: Entry) {
    e.pending == Write || e.pending == Insert
  }

  predicate IsOff(live: map<Card, Slot>, e: Entry) {
    e.card in live && !live[e.card].active
  }

  /** Gone from the cardholder, or switched off by somebody else. */
  predicate Revoked(live: map<Card, Slot>, e: Entry) {
    e.card !in live || (IsOff(live, e) && e.active != Some(false))
  }

  predicate StartsLater(live: map<Card, Slot>, e: Entry, now: int) {
    e.card in live && live[e.card].activation.Some? && live[e.card].activation.value > now
  }

  /** The rule, with no order in it. */
  function StatusOf(entries: seq<Entry>, live: map<Card, Slot>, now: int): CredentialStatus {
    if exists e <- entries :: !Unwritten(e) && Revoked(live, e) then Suspended
    else if exists e <- entries :: !Unwritten(e) && IsOff(live, e) then AwaitingInstall
    else if exists e <- entries :: !Unwritten(e) && StartsLater(live, e, now) then Suspended
    else Active
  }

  /** The latest of the present cards' starts, and the earliest of their ends. */
  function LatestStart(ledger: seq<Entry>, live: map<Card, Slot>): Option<int> {
    if ledger == [] then None
    else
      var before, e := LatestStart(ledger[..|ledger| - 1], live), ledger[|ledger| - 1];
      if e.card !in live || live[e.card].activation.None? then before
      else if before.Some? && before.value >= live[e.card].activation.value then before
      else live[e.card].activation
  }

  function EarliestEnd(ledger: seq<Entry>, live: map<Card, Slot>): Option<int> {
    if ledger == [] then None
    else
      var before, e := EarliestEnd(ledger[..|ledger| - 1], live), ledger[|ledger| - 1];
      if e.card !in live || live[e.card].expiration.None? then before
      else if before.Some? && before.value <= live[e.card].expiration.value then before
      else live[e.card].expiration
  }

  lemma {:induction false} LatestStartAfter(ledger: seq<Entry>, live: map<Card, Slot>, now: int)
    ensures LatestStart(ledger, live).Some? && LatestStart(ledger, live).value > now
       <==> exists e <- ledger :: StartsLater(live, e, now)
  {
    if ledger != [] {
      var front, last := ledger[..|ledger| - 1], ledger[|ledger| - 1];
      LatestStartAfter(front, live, now);
      assert ledger == front + [last];
      if e :| e in front && StartsLater(live, e, now) {
        assert e in ledger;
      }
      assert last in ledger && forall e <- ledger :: e in front || e == last;
    }
  }

  /** A pass has run out exactly when one of its present cards has. */
  lemma {:induction false} EarliestEndBefore(ledger: seq<Entry>, live: map<Card, Slot>, now: int)
    ensures EarliestEnd(ledger, live).Some? && EarliestEnd(ledger, live).value < now
       <==> exists e <- ledger :: e.card in live && live[e.card].expiration.Some? && live[e.card].expiration.value < now
  {
    if ledger != [] {
      var front, last := ledger[..|ledger| - 1], ledger[|ledger| - 1];
      EarliestEndBefore(front, live, now);
      assert ledger == front + [last];
    }
  }

  function Written(entries: seq<Entry>): seq<Entry> {
    Filter((e: Entry) => !Unwritten(e), entries)
  }

  /** The credential as the adapter reports it, before any hold. */
  function SeosCredential(id: string, entries: seq<Entry>, live: map<Card, Slot>, now: int): Credential {
    Credential(
      id, "", "", true, false, StatusOf(entries, live, now),
      LatestStart(Written(entries), live), EarliestEnd(Written(entries), live), true)
  }

  /** The pass is only as valid as its shortest-lived card, and live once its latest-starting one is. */
  method Validity(ledger: seq<Entry>, live: map<Card, Slot>) returns (starts: Option<int>, ends: Option<int>)
    ensures starts == LatestStart(ledger, live)
    ensures ends == EarliestEnd(ledger, live)
  {
    starts, ends := None, None;
    for i := 0 to |ledger|
      invariant starts == LatestStart(ledger[..i], live)
      invariant ends == EarliestEnd(ledger[..i], live)
    {
      assert ledger[..i + 1][..i] == ledger[..i];
      if ledger[i].card in live {
        var slot := live[ledger[i].card];
        if slot.activation.Some? && !(starts.Some? && starts.value >= slot.activation.value) {
          starts := slot.activation;
        }
        if slot.expiration.Some? && !(ends.Some? && ends.value <= slot.expiration.value) {
          ends := slot.expiration;
        }
      }
    }
    assert ledger[..|ledger|] == ledger;
  }

  /** The scan as written: the first revoking card ends it, own holds are only remembered. */
  method ScanCards(ledger: seq<Entry>, live: map<Card, Slot>) returns (status: CredentialStatus)
    ensures status == (if exists e <- ledger :: Revoked(live, e) then Suspended
                       else if exists e <- ledger :: IsOff(live, e) then AwaitingInstall
                       else Active)
  {
    status := Active;
    var heldForInstall := false;
    for i := 0 to |ledger|
      invariant forall j | 0 <= j < i :: !Revoked(live, ledger[j])
      invariant heldForInstall <==> exists j | 0 <= j < i :: IsOff(live, ledger[j])
    {
      var entry := ledger[i];
      if entry.card !in live {
        assert entry in ledger && Revoked(live, entry);
        return Suspended;
      }
      if !live[entry.card].active {
        if entry.active == Some(false) {
          assert IsOff(live, ledger[i]);
          heldForInstall := true;
        } else {
          assert entry in ledger && Revoked(live, entry);
          return Suspended;
        }
      }
    }
    if heldForInstall {
      status := AwaitingInstall;
    }
  }

  method ReadSeosCredential(id: string, entries: seq<Entry>, slots: seq<Slot>, now: int) returns (credential: Credential)
    ensures credential == SeosCredential(id, entries, Present(slots), now)
  {
    hide Written, Present, Revoked, IsOff, StartsLater, LatestStart, EarliestEnd;
    var ledger := Written(entries);
    var live := Present(slots);
    var starts, ends := Validity(ledger, live);
    var status := ScanCards(ledger, live);
    LatestStartAfter(ledger, live, now);
    if status == Active && starts.Some? && starts.value > now {
      status := Suspended;
    }
    StatusOfWritten(entries, live, now);
    credential := Credential(id, "", "", true, false, status, starts, ends, true);
  }

  lemma StatusOfWritten(entries: seq<Entry>, live: map<Card, Slot>, now: int)
    ensures StatusOf(entries, live, now) == StatusOf(Written(entries), live, now)
    ensures forall e <- Written(entries) :: !Unwritten(e)
  {
    var ledger := Written(entries);
    assert forall e :: e in ledger <==> e in entries && !Unwritten(e);
  }

  /** The order of the ledger says nothing about the pass. */
  lemma StatusIgnoresOrder(a: seq<Entry>, b: seq<Entry>, live: map<Card, Slot>, now: int)
    requires multiset(a) == multiset(b)
    ensures StatusOf(a, live, now) == StatusOf(b, live, now)
    ensures Expired(SeosCredential("", a, live, now), now) == Expired(SeosCredential("", b, live, now), now)
  {
    assert forall e :: e in a <==> e in multiset(a);
    assert forall e :: e in b <==> e in multiset(b);
    EarliestEndBefore(Written(a), live, now);
    EarliestEndBefore(Written(b), live, now);
  }

  /** Exactly when a pass reads suspended, exactly when it reads as awaiting its install, and exactly when it
      reads active; a card still to be written or inserted says nothing. */
  lemma StatusCharacterised(entries: seq<Entry>, live: map<Card, Slot>, now: int)
    ensures StatusOf(entries, live, now) == Suspended <==>
            || (exists e <- entries :: e.pending != Write && e.pending != Insert
                                       && (e.card !in live || (!live[e.card].active && e.active != Some(false))))
            || ((forall e <- entries :: e.pending == Write || e.pending == Insert || (e.card in live && live[e.card].active))
                && exists e <- entries :: e.pending != Write && e.pending != Insert
                                          && live[e.card].activation.Some? && live[e.card].activation.value > now)
    ensures StatusOf(entries, live, now) == AwaitingInstall <==>
            && (forall e <- entries :: e.pending == Write || e.pending == Insert || (e.card in live && (live[e.card].active || e.active == Some(false))))
            && exists e <- entries :: e.pending != Write && e.pending != Insert && !live[e.card].active
    ensures StatusOf(entries, live, now) == Active <==>
            forall e <- entries :: e.pending == Write || e.pending == Insert
                                   || (e.card in live && live[e.card].active && (live[e.card].activation.Some? ==> live[e.card].activation.value <= now))
  {
    if e :| e in entries && !Unwritten(e) && Revoked(live, e) {
    } else if e :| e in entries && !Unwritten(e) && IsOff(live, e) {
    }
  }

  /** A pass starts with the last of its written, present cards to start, and ends with the first to end. */
  lemma ValidityIs(id: string, entries: seq<Entry>, live: map<Card, Slot>, now: int)
    ensures var c := SeosCredential(id, entries, live, now);
            && (forall e <- entries | e.pending != Write && e.pending != Insert && e.card in live ::
                  && (live[e.card].activation.Some? ==> c.activate.Some? && live[e.card].activation.value <= c.activate.value)
                  && (live[e.card].expiration.Some? ==> c.deactivate.Some? && c.deactivate.value <= live[e.card].expiration.value))
            && (c.activate.Some? ==> exists e <- entries :: e.pending != Write && e.pending != Insert && e.card in live && live[e.card].activation == c.activate)
            && (c.deactivate.Some? ==> exists e <- entries :: e.pending != Write && e.pending != Insert && e.card in live && live[e.card].expiration == c.deactivate)
  {
    StartsAndEnds(Written(entries), live);
    assert forall e :: e in Written(entries) <==> e in entries && !Unwritten(e);
  }

  lemma {:induction false} StartsAndEnds(ledger: seq<Entry>, live: map<Card, Slot>)
    ensures forall e <- ledger | e.card in live ::
              && (live[e.card].activation.Some? ==> LatestStart(ledger, live).Some? && live[e.card].activation.value <= LatestStart(ledger, live).value)
              && (live[e.card].expiration.Some? ==> EarliestEnd(ledger, live).Some? && EarliestEnd(ledger, live).value <= live[e.card].expiration.value)
    ensures LatestStart(ledger, live).Some? ==> exists e <- ledger :: e.card in live && live[e.card].activation == LatestStart(ledger, live)
    ensures EarliestEnd(ledger, live).Some? ==> exists e <- ledger :: e.card in live && live[e.card].expiration == EarliestEnd(ledger, live)
  {
    if ledger != [] {
      var front, last := ledger[..|ledger| - 1], ledger[|ledger| - 1];
      assert ledger == front + [last];
      StartsAndEnds(front, live);
      assert last in ledger && forall e <- front :: e in ledger;
    }
  }
}

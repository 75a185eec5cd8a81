/** Changes the phases ask for, recorded as pending until the cycle's import:
    switching a pass's cards on or off, and marking deleted ones for deletion. */
module CardChanges {
  import opened Base
  import opened Export
  import opened Ledger
  import opened SeosStatus

  // ---- update_credential_status ----

  /** On the cardholder, and not a card that is still to be written or deleted. */
  predicate Switchable(e: Entry, live: map<Card, Slot>) {
    e.card in live && !Unwritten(e) && e.pending != Delete
  }

  /** A card we switched on that is off now: an operator switched it off. */
  predicate OperatorOff(e: Entry, live: map<Card, Slot>) {
    Switchable(e, live) && e.active == Some(true) && !live[e.card].active
  }

  predicate SwitchAllowed(entries: seq<Entry>, live: map<Card, Slot>, want: bool) {
    && (exists e <- entries :: Switchable(e, live))
    && (want ==> forall e <- entries :: !OperatorOff(e, live))
  }

  function SwitchedEntry(e: Entry, live: map<Card, Slot>, want: bool): Entry {
    if !Switchable(e, live) then e
    else if live[e.card].active == want then e.(active := Some(want), pending := Settled)
    else e.(pending := if want then Activate else Deactivate)
  }

  function Switched(entries: seq<Entry>, live: map<Card, Slot>, want: bool): (r: seq<Entry>)
    ensures |r| == |entries| && forall i | 0 <= i < |r| :: r[i] == SwitchedEntry(entries[i], live, want)
  {
    seq(|entries|, i requires 0 <= i < |entries| => SwitchedEntry(entries[i], live, want))
  }

  /** A switch goes to the written, undoomed cards on the cardholder: it is refused without one, and a switch
      on where an operator switched one off; a card it finds as wanted is settled so, any other is to be sent. */
  lemma SwitchSays(entries: seq<Entry>, live: map<Card, Slot>, want: bool)
    ensures SwitchAllowed(entries, live, want) <==>
              && (exists e <- entries :: e.card in live && e.pending != Write && e.pending != Insert && e.pending != Delete)
              && (want ==> forall e <- entries ::
                    e.card in live && e.pending != Write && e.pending != Insert && e.pending != Delete && e.active == Some(true) ==> live[e.card].active)
    ensures forall i | 0 <= i < |entries| ::
              var e := entries[i];
              Switched(entries, live, want)[i] ==
              if e.card !in live || e.pending == Write || e.pending == Insert || e.pending == Delete then e
              else if live[e.card].active != want then e.(pending := if want then Activate else Deactivate)
              else e.(active := Some(want), pending := Settled)
  {
  }

  method SwitchCards(entries: seq<Entry>, slots: seq<Slot>, want: bool) returns (ok: bool, changed: seq<Entry>)
    ensures ok == SwitchAllowed(entries, Present(slots), want)
    ensures changed == if ok then Switched(entries, Present(slots), want) else entries
  {
    var live := Present(slots);
    changed := entries;
    ok := MayBeSwitched(entries, live, want);
    if !ok {
      return;
    }
    for i := 0 to |entries|
      invariant |changed| == |entries|
      invariant forall j | 0 <= j < i :: changed[j] == SwitchedEntry(entries[j], live, want)
      invariant forall j | i <= j < |entries| :: changed[j] == entries[j]
    {
      changed := changed[i := SwitchedEntry(entries[i], live, want)];
    }
  }

  method MayBeSwitched(entries: seq<Entry>, live: map<Card, Slot>, want: bool) returns (ok: bool)
    ensures ok == SwitchAllowed(entries, live, want)
  {
    ok := false;
    for i := 0 to |entries|
      invariant ok <==> exists j | 0 <= j < i :: Switchable(entries[j], live)
      invariant want ==> forall j | 0 <= j < i :: !OperatorOff(entries[j], live)
    {
      if Switchable(entries[i], live) {
        ok := true;
      }
      if want && OperatorOff(entries[i], live) {
        assert entries[i] in entries;
        return false;
      }
    }
  }

  /** Switching never moves, adds or drops a card, and forgets no box. */
  lemma SwitchedKeepsCards(entries: seq<Entry>, live: map<Card, Slot>, want: bool)
    requires Distinct(entries) && SlotSorted(entries)
    ensures Distinct(Switched(entries, live, want)) && SlotSorted(Switched(entries, live, want))
    ensures Stored(entries, Switched(entries, live, want)) == Switched(entries, live, want)
  {
    StoredInPlace(entries, Switched(entries, live, want));
  }

  // ---- retire_credentials ----

  predicate Retirable(e: Entry, gone: set<Card>) {
    e.card in gone && !Unwritten(e) && e.pending != Delete && !e.dormant
  }

  function RetiredEntry(e: Entry, gone: set<Card>): Entry {
    if Retirable(e, gone) then e.(pending := Delete) else e
  }

  function Retired(entries: seq<Entry>, gone: set<Card>): (r: seq<Entry>)
    ensures |r| == |entries| && forall i | 0 <= i < |r| :: r[i] == RetiredEntry(entries[i], gone)
  {
    seq(|entries|, i requires 0 <= i < |entries| => RetiredEntry(entries[i], gone))
  }

  function CountRetirable(entries: seq<Entry>, gone: set<Card>): (n: nat)
    ensures n <= |entries|
    ensures n == 0 <==> forall e <- entries :: !Retirable(e, gone)
  {
    if entries == [] then 0
    else
      assert entries == entries[..|entries| - 1] + [entries[|entries| - 1]];
      CountRetirable(entries[..|entries| - 1], gone) + if Retirable(entries[|entries| - 1], gone) then 1 else 0
  }

  /** Marked are the written cards among those gone that are not marked yet, and not dormant. */
  lemma {:induction false} MarksSay(entries: seq<Entry>, gone: set<Card>)
    ensures forall i | 0 <= i < |entries| ::
              var e := entries[i];
              Retired(entries, gone)[i] ==
              if e.card in gone && e.pending != Write && e.pending != Insert && !e.dormant then e.(pending := Delete) else e
    ensures CountRetirable(entries, gone) ==
            |Filter((e: Entry) => e.card in gone && !e.dormant && (e.pending == Settled || e.pending == Activate || e.pending == Deactivate), entries)|
  {
    if entries != [] {
      MarksSay(entries[..|entries| - 1], gone);
    }
  }

  method MarkForDeletion(entries: seq<Entry>, gone: set<Card>) returns (marked: nat, changed: seq<Entry>)
    ensures changed == Retired(entries, gone)
    ensures marked == CountRetirable(entries, gone)
  {
    changed := entries;
    marked := 0;
    for i := 0 to |entries|
      invariant |changed| == |entries|
      invariant forall j | 0 <= j < |entries| ::
        changed[j] == if j < i then RetiredEntry(entries[j], gone) else entries[j]
      invariant marked == CountRetirable(entries[..i], gone)
    {
      assert entries[..i + 1][..i] == entries[..i];
      if Retirable(entries[i], gone) {
        changed := changed[i := entries[i].(pending := Delete)];
        marked := marked + 1;
      }
    }
    assert entries[..|entries|] == entries;
  }

  lemma RetiredKeepsCards(entries: seq<Entry>, gone: set<Card>)
    requires Distinct(entries) && SlotSorted(entries)
    ensures Stored(entries, Retired(entries, gone)) == Retired(entries, gone)
    ensures CountRetirable(entries, gone) == 0 ==> Retired(entries, gone) == entries
  {
    StoredInPlace(entries, Retired(entries, gone));
  }
}

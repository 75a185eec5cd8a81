/** The tracking table: one row per credential, which remembers the pass issued for it. */
module Tracking {
  import opened Base
  import opened Ledger

  /** `agCardId` is None for SQL's NULL; "" counts as no pass too. */
  datatype Row = Row(
    agCardId: Option<string>, status: string, lastKnown: string, syncRef: string, syncError: bool, retries: nat)

  type Rows = map<Key, Row>

  predicate HasPass(row: Row) {
    row.agCardId.Some? && row.agCardId.value != ""
  }

  /** A pass of ours, rather than a card another tool issued. */
  predicate OwnPass(row: Row) {
    HasPass(row) && row.status != "deduped"
  }

  predicate PassAt(rows: Rows, k: Key) {
    k in rows && HasPass(rows[k])
  }

  predicate OwnPassAt(rows: Rows, k: Key) {
    k in rows && OwnPass(rows[k])
  }

  const MAX_RETRIES := 3

  predicate Retryable(row: Row) {
    row.syncError && row.retries < MAX_RETRIES && row.agCardId.None?
  }

  // ---- what each writer does to the table ----

  function Upserted(rows: Rows, k: Key, id: Option<string>, status: string, lastKnown: string, syncRef: string): Rows {
    var keptRef := if syncRef != "" then syncRef else if k in rows then rows[k].syncRef else "";
    rows[k := Row(id, status, lastKnown, keptRef, false, if k in rows then rows[k].retries else 0)]
  }

  function WithStatus(row: Row, status: string, lastKnown: string): Row {
    row.(status := status, lastKnown := if lastKnown != "" then lastKnown else row.lastKnown, syncError := false, retries := 0)
  }

  function StatusUpdated(rows: Rows, k: Key, status: string, lastKnown: string): Rows {
    if k !in rows then rows else rows[k := WithStatus(rows[k], status, lastKnown)]
  }

  function Deleted(rows: Rows, k: Key): Rows {
    if k !in rows then rows
    else rows[k := rows[k].(status := "deleted", lastKnown := "deleted", agCardId := None, syncError := false, retries := 0)]
  }

  function ErrorRecorded(rows: Rows, k: Key): Rows {
    if k !in rows then rows else rows[k := rows[k].(syncError := true, retries := rows[k].retries + 1)]
  }

  function LastKnownUpdated(rows: Rows, k: Key, state: string): Rows {
    if k !in rows then rows else rows[k := rows[k].(lastKnown := state)]
  }

  function Deduped(rows: Rows, k: Key, foreign: Option<string>): Rows {
    if k in rows then rows[k := rows[k].(agCardId := foreign, status := "deduped", syncError := false)]
    else rows[k := Row(foreign, "deduped", "", "", false, 0)]
  }

  /** Changed at most at one key. */
  ghost predicate OnlyAt(before: Rows, after: Rows, k: Key) {
    forall x :: x != k ==> (x in before <==> x in after) && (x in before ==> before[x] == after[x])
  }

  predicate SameAt(before: Rows, after: Rows, k: Key) {
    (k in before <==> k in after) && (k in before ==> before[k] == after[k])
  }

  /** Attempts to issue that failed: by phase 1, which marks the row pending first, or by phase 5. */
  function AfterFailures(rows: Rows, k: Key, marked: seq<bool>): Rows {
    if marked == [] then rows
    else
      var before := AfterFailures(rows, k, marked[..|marked| - 1]);
      ErrorRecorded(if marked[|marked| - 1] then Upserted(before, k, None, "pending", "", "") else before, k)
  }

  /** Marking a row pending forgets neither its reference nor how often it failed: whichever
      phase tries, phase 5 tries again exactly while fewer than three failures are counted. */
  lemma {:induction false} FailuresAreCounted(rows: Rows, k: Key, marked: seq<bool>)
    requires marked != [] && (k in rows || marked[0]) && (k in rows ==> rows[k].agCardId.None?)
    ensures var after, before := AfterFailures(rows, k, marked), if k in rows then rows[k].retries else 0;
            && k in after && after[k].retries == before + |marked|
            && after[k].syncRef == (if k in rows then rows[k].syncRef else "")
            && (Retryable(after[k]) <==> before + |marked| < 3)
            && (k in rows && (forall i | 0 <= i < |marked| :: !marked[i]) ==> after[k] == rows[k].(syncError := true, retries := before + |marked|))
            && (marked[|marked| - 1] ==> after[k].status == "pending" && after[k].lastKnown == "")
            && OnlyAt(rows, after, k)
  {
    var front := marked[..|marked| - 1];
    if front == [] {
      assert AfterFailures(rows, k, front) == rows;
    } else {
      FailuresAreCounted(rows, k, front);
      assert AfterFailures(rows, k, front)[k].agCardId.None? by {
        FailedHasNoPass(rows, k, front);
      }
    }
  }

  lemma {:induction false} FailedHasNoPass(rows: Rows, k: Key, marked: seq<bool>)
    requires k in rows ==> rows[k].agCardId.None?
    ensures var after := AfterFailures(rows, k, marked); k in after ==> after[k].agCardId.None?
  {
    if marked != [] {
      FailedHasNoPass(rows, k, marked[..|marked| - 1]);
    }
  }

  /** A released row can be issued for again, and then reads as if it had never been issued before. */
  lemma ReleasedIsIssuedAfresh(rows: Rows, k: Key, id: Option<string>, status: string, lastKnown: string, syncRef: string)
    requires k in rows && syncRef != ""
    ensures k in Deleted(rows, k) && !PassAt(Deleted(rows, k), k) && !Retryable(Deleted(rows, k)[k])
    ensures Upserted(Deleted(rows, k), k, id, status, lastKnown, syncRef) == Upserted(rows - {k}, k, id, status, lastKnown, syncRef)
  {
    var a, b := Upserted(Deleted(rows, k), k, id, status, lastKnown, syncRef), Upserted(rows - {k}, k, id, status, lastKnown, syncRef);
    assert a.Keys == b.Keys;
    assert forall x <- a.Keys :: a[x] == b[x];
  }

  /** A listing of the table: every row once. */
  ghost predicate ListsAll(listing: seq<Key>, rows: Rows) {
    && (forall k :: k in listing <==> k in rows)
    && forall i, j | 0 <= i < j < |listing| :: listing[i] != listing[j]
  }

  class Table {
    var rows: Rows

    constructor ()
      ensures rows == map[]
    {
      rows := map[];
    }

    /** Every row once; the source lists the oldest first, any order will do here. */
    method AllTracked() returns (listing: seq<Key>)
      ensures ListsAll(listing, rows)
    {
      listing := [];
      var todo := rows.Keys;
      while todo != {}
        invariant todo <= rows.Keys
        invariant forall k :: k in listing <==> k in rows && k !in todo
        invariant forall i, j | 0 <= i < j < |listing| :: listing[i] != listing[j]
        decreases todo
      {
        var k :| k in todo;
        listing, todo := listing + [k], todo - {k};
      }
    }

    method Get(k: Key) returns (row: Option<Row>)
      ensures row == if k in rows then Some(rows[k]) else None
    {
      row := if k in rows then Some(rows[k]) else None;
    }

    method Upsert(k: Key, id: Option<string>, status: string, lastKnown: string, syncRef: string)
      modifies this
      ensures k in rows && rows[k].agCardId == id && rows[k].status == status && rows[k].lastKnown == lastKnown && !rows[k].syncError
      ensures k !in old(rows) ==> rows[k].syncRef == syncRef && rows[k].retries == 0
      ensures k in old(rows) ==> rows[k].syncRef == (if syncRef == "" then old(rows)[k].syncRef else syncRef)
                                 && rows[k].retries == old(rows)[k].retries
      ensures OnlyAt(old(rows), rows, k)
      ensures rows == Upserted(old(rows), k, id, status, lastKnown, syncRef)
    {
      if k !in rows {
        rows := rows[k := Row(id, status, lastKnown, syncRef, false, 0)];
      } else {
        var row := rows[k].(agCardId := id, status := status, lastKnown := lastKnown, syncError := false);
        rows := rows[k := if syncRef == "" then row else row.(syncRef := syncRef)];
      }
    }

    method UpdateStatus(k: Key, status: string, lastKnown: string)
      modifies this
      ensures rows == StatusUpdated(old(rows), k, status, lastKnown)
    {
      rows := StatusUpdated(rows, k, status, lastKnown);
    }

    method MarkDeleted(k: Key)
      modifies this
      ensures rows.Keys == old(rows).Keys && OnlyAt(old(rows), rows, k)
      ensures k in rows ==> !HasPass(rows[k]) && !Retryable(rows[k]) && rows[k].retries == 0
                            && rows[k].status == rows[k].lastKnown == "deleted" && rows[k].syncRef == old(rows)[k].syncRef
      ensures rows == Deleted(old(rows), k)
    {
      if k in rows {
        rows := rows[k := Row(None, "deleted", "deleted", rows[k].syncRef, false, 0)];
      }
    }

    method RecordError(k: Key)
      modifies this
      ensures rows == ErrorRecorded(old(rows), k)
    {
      rows := ErrorRecorded(rows, k);
    }

    method Remove(k: Key)
      modifies this
      ensures rows == old(rows) - {k}
    {
      rows := rows - {k};
    }

    method UpdateLastKnown(k: Key, state: string)
      modifies this
      ensures rows == LastKnownUpdated(old(rows), k, state)
    {
      rows := LastKnownUpdated(rows, k, state);
    }

    method MarkDeduped(k: Key, foreign: Option<string>)
      modifies this
      ensures rows == Deduped(old(rows), k, foreign)
    {
      rows := Deduped(rows, k, foreign);
    }

    /** The rows phase 5 retries: never one that holds a pass. */
    method FailedRecords() returns (listing: seq<Key>)
      ensures forall k :: k in listing <==> k in rows && Retryable(rows[k])
      ensures forall i, j | 0 <= i < j < |listing| :: listing[i] != listing[j]
      ensures forall k <- listing :: !PassAt(rows, k)
    {
      var all := AllTracked();
      listing := [];
      for i := 0 to |all|
        invariant forall k :: k in listing <==> k in all[..i] && Retryable(rows[k])
        invariant forall a, b | 0 <= a < b < |listing| :: listing[a] != listing[b]
      {
        if Retryable(rows[all[i]]) {
          forall a | 0 <= a < |listing| ensures listing[a] != all[i] { assert listing[a] in listing; }
          listing := listing + [all[i]];
        }
      }
    }
  }
}

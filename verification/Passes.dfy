/** AccessGrid as the sync sees it, and the books kept between its passes and the tracking table. */
module Passes {
  import opened Base
  import opened Ledger
  import opened AgCards
  import opened Tracking

  /** What was asked, and on whose behalf; a provision also remembers the pass it returned. */
  datatype Call =
    | Provision(key: Key, issued: Option<string>)
    | Delete(key: Key, id: string)
    | Suspend(key: Key, id: string)
    | Resume(key: Key, id: string)

  datatype Answer = Done | NotFound | Failed | Crashed

  class AccessGrid {
    var owner: map<string, Key>      // every pass issued, and for which credential
    var gone: set<string>            // passes known to be deleted
    var calls: seq<Call>

    constructor ()
      ensures owner == map[] && gone == {} && calls == []
    {
      owner, gone, calls := map[], {}, [];
    }

    /** A failed provision issues nothing; a success returns a pass with an id of its own. */
    method Provision(k: Key) returns (card: Option<AgCard>)
      modifies this
      ensures gone == old(gone)
      ensures calls == old(calls) + [Call.Provision(k, if card.Some? then Some(card.value.id) else None)]
      ensures card.None? ==> owner == old(owner)
      ensures card.Some? ==> card.value.id != "" && card.value.id !in old(owner) && Lower(card.value.state) != "deduped"
                             && owner == old(owner)[card.value.id := k]
    {
      card := *;
      if card.Some? && (card.value.id == "" || card.value.id in owner || Lower(card.value.state) == "deduped") {
        card := None;
      }
      if card.Some? {
        owner := owner[card.value.id := k];
      }
      calls := calls + [Call.Provision(k, if card.Some? then Some(card.value.id) else None)];
    }

    method Delete(k: Key, id: string) returns (answer: Answer)
      modifies this
      ensures owner == old(owner) && calls == old(calls) + [Call.Delete(k, id)]
      ensures gone == if answer.Done? then old(gone) + {id} else old(gone)
    {
      answer := *;
      calls := calls + [Call.Delete(k, id)];
      if answer.Done? {
        gone := gone + {id};
      }
    }

    /** "Not found" means gone, when that is what the caller goes by. */
    method KnownGone(id: string)
      modifies this
      ensures owner == old(owner) && calls == old(calls) && gone == old(gone) + {id}
    {
      gone := gone + {id};
    }

    method Suspend(k: Key, id: string) returns (answer: Answer)
      modifies this
      ensures owner == old(owner) && gone == old(gone) && calls == old(calls) + [Call.Suspend(k, id)]
    {
      answer := *;
      calls := calls + [Call.Suspend(k, id)];
    }

    method Resume(k: Key, id: string) returns (answer: Answer)
      modifies this
      ensures owner == old(owner) && gone == old(gone) && calls == old(calls) + [Call.Resume(k, id)]
    {
      answer := *;
      calls := calls + [Call.Resume(k, id)];
    }
  }

  // ---- the books ----

  /** The pass of ours a row holds. */
  function PassOf(rows: Rows, k: Key): Option<string> {
    if OwnPassAt(rows, k) then rows[k].agCardId else None
  }

  /** Every pass issued and not gone is in its credential's row, and every row's pass is one. */
  ghost predicate Balanced(rows: Rows, owner: map<string, Key>, gone: set<string>) {
    && gone <= owner.Keys
    && (forall k :: PassOf(rows, k).Some? ==>
          var id := PassOf(rows, k).value; id in owner && owner[id] == k && id !in gone)
    && (forall id <- owner :: id !in gone ==> PassOf(rows, owner[id]) == Some(id))
  }

  function IssuedTo(owner: map<string, Key>, k: Key): set<string> {
    set id | id in owner && owner[id] == k
  }

  /** Passes issued minus passes deleted is 0 or 1 for every credential, and 1 exactly
      when its row holds an id and is not a deduped one. */
  lemma IssuedMinusDeleted(rows: Rows, owner: map<string, Key>, gone: set<string>, k: Key)
    requires Balanced(rows, owner, gone)
    ensures IssuedTo(owner, k) - gone == if OwnPassAt(rows, k) then {rows[k].agCardId.value} else {}
    ensures |IssuedTo(owner, k)| - |IssuedTo(owner, k) * gone| == if OwnPassAt(rows, k) then 1 else 0
  {
    var issued := IssuedTo(owner, k);
    if OwnPassAt(rows, k) {
      assert PassOf(rows, k) == rows[k].agCardId;
    }
    assert issued == (issued - gone) + (issued * gone);
    assert (issued - gone) !! (issued * gone);
  }

  /** A call about a pass names one that our own provision returned for that credential. */
  predicate OwnCall(call: Call, owner: map<string, Key>) {
    match call
    case Provision(k, None) => true
    case Provision(k, Some(id)) => id in owner && owner[id] == k
    case Delete(k, id) => id in owner && owner[id] == k
    case Suspend(k, id) => id in owner && owner[id] == k
    case Resume(k, id) => id in owner && owner[id] == k
  }

  predicate OwnCalls(calls: seq<Call>, owner: map<string, Key>) {
    forall c <- calls :: OwnCall(c, owner)
  }

  ghost predicate BooksKept(rows: Rows, ag: AccessGrid)
    reads ag
  {
    Balanced(rows, ag.owner, ag.gone) && OwnCalls(ag.calls, ag.owner)
  }

  lemma PassesUnchanged(before: Rows, after: Rows, k: Key, owner: map<string, Key>, gone: set<string>)
    requires Balanced(before, owner, gone) && OnlyAt(before, after, k) && PassOf(after, k) == PassOf(before, k)
    ensures Balanced(after, owner, gone)
  {
    forall x ensures PassOf(after, x) == PassOf(before, x) {
      assert x != k ==> (x in before <==> x in after);
    }
  }

  lemma PassIssued(before: Rows, after: Rows, k: Key, id: string, owner: map<string, Key>, gone: set<string>)
    requires Balanced(before, owner, gone) && OnlyAt(before, after, k)
    requires PassOf(before, k) == None && PassOf(after, k) == Some(id) && id !in owner
    ensures Balanced(after, owner[id := k], gone)
  {
    forall x | x != k ensures PassOf(after, x) == PassOf(before, x) {
      assert x in before <==> x in after;
    }
  }

  lemma PassDeleted(before: Rows, after: Rows, k: Key, id: string, owner: map<string, Key>, gone: set<string>)
    requires Balanced(before, owner, gone) && OnlyAt(before, after, k)
    requires PassOf(before, k) == Some(id) && PassOf(after, k) == None
    ensures Balanced(after, owner, gone + {id})
  {
    forall x | x != k ensures PassOf(after, x) == PassOf(before, x) {
      assert x in before <==> x in after;
    }
  }

  lemma OwnPassIsOurs(rows: Rows, k: Key, owner: map<string, Key>, gone: set<string>)
    requires Balanced(rows, owner, gone) && OwnPassAt(rows, k)
    ensures var id := rows[k].agCardId.value; id in owner && owner[id] == k && id !in gone
    ensures PassOf(rows, k) == rows[k].agCardId
  {
    assert PassOf(rows, k).Some?;
  }

  lemma StillPass(before: Rows, after: Rows, k: Key, status: string, owner: map<string, Key>, gone: set<string>)
    requires Balanced(before, owner, gone) && OwnPassAt(before, k) && status != "deduped"
    requires after == StatusUpdated(before, k, status, status)
    ensures Balanced(after, owner, gone)
  {
    PassesUnchanged(before, after, k, owner, gone);
  }

  lemma LastKnownKeepsPasses(rows: Rows, k: Key, state: string, ag: AccessGrid)
    requires BooksKept(rows, ag) && k in rows
    ensures BooksKept(LastKnownUpdated(rows, k, state), ag)
  {
    PassesUnchanged(rows, LastKnownUpdated(rows, k, state), k, ag.owner, ag.gone);
  }

  lemma CallAdded(calls: seq<Call>, owner: map<string, Key>, call: Call, later: map<string, Key>)
    requires OwnCalls(calls, owner) && OwnCall(call, later)
    requires forall id <- owner :: id in later && later[id] == owner[id]
    ensures OwnCalls(calls + [call], later)
  {
  }
}

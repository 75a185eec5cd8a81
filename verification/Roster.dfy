/** Reading a Unity roster: every page of it, or an error. */
module Roster {
  import opened Base
  import opened Order

  const MAX_PAGES := 10000
  const PAGE_SIZE := 100

  datatype Row = Row(id: string, data: string)

  /** What one page request answers. */
  datatype Page = Failed | NoList | Items(items: seq<Row>, total: Option<int>)

  type Server = nat -> Page

  /** `rows`, a dict: a row of an id already there takes its place. */
  function Updated(rows: seq<Row>, r: Row): seq<Row> {
    if rows == [] then [r]
    else if rows[0].id == r.id then [r] + rows[1..]
    else [rows[0]] + Updated(rows[1..], r)
  }

  function UpdatedAll(rows: seq<Row>, more: seq<Row>): seq<Row> {
    if more == [] then rows else Updated(UpdatedAll(rows, more[..|more| - 1]), more[|more| - 1])
  }

  predicate Knows(rows: seq<Row>, id: string) {
    exists r <- rows :: r.id == id
  }

  function NewRows(rows: seq<Row>, items: seq<Row>): seq<Row> {
    Filter((r: Row) => r.id != "" && !Knows(rows, r.id), items)
  }

  predicate Reached(total: Option<int>, count: nat) {
    total.Some? && count >= total.value
  }

  /** The rest of the read from a page on; None is an error raised. */
  function ReadFrom(server: Server, page: nat, rows: seq<Row>): Option<seq<Row>>
    requires 1 <= page <= MAX_PAGES
    decreases MAX_PAGES - page
  {
    match server(page)
    case Failed => None
    case NoList => None
    case Items(items, total) =>
      var added := NewRows(rows, items);
      if items != [] && added == [] then None
      else
        var all := UpdatedAll(rows, added);
        if items == [] || Reached(total, |all|) then (if total.Some? && |all| < total.value then None else Some(all))
        else if page == MAX_PAGES then None
        else ReadFrom(server, page + 1, all)
  }

  method IdentitiesJson(server: Server) returns (roster: Option<seq<Row>>)
    ensures roster == ReadFrom(server, 1, [])
  {
    var rows: seq<Row> := [];
    for page := 1 to MAX_PAGES + 1
      invariant ReadFrom(server, 1, []) == if page <= MAX_PAGES then ReadFrom(server, page, rows) else None
    {
      match server(page) {
        case Failed => return None;
        case NoList => return None;
        case Items(items, total) =>
          var added := NewRows(rows, items);
          if items != [] && added == [] {
            return None;
          }
          rows := UpdatedAll(rows, added);
          if items == [] || (total.Some? && |rows| >= total.value) {
            return if total.Some? && |rows| < total.value then None else Some(rows);
          }
      }
    }
    return None;
  }

  // ---- complete, or an error ----

  predicate DistinctIds(rows: seq<Row>) {
    forall i, j | 0 <= i < j < |rows| :: rows[i].id != rows[j].id
  }

  lemma {:induction false} UpdatedKeeps(rows: seq<Row>, r: Row)
    requires DistinctIds(rows)
    ensures DistinctIds(Updated(rows, r))
    ensures forall id :: Knows(Updated(rows, r), id) <==> id == r.id || Knows(rows, id)
    ensures !Knows(rows, r.id) ==> Updated(rows, r) == rows + [r]
  {
    hide Knows, DistinctIds;
    NothingKnown();
    if rows == [] {
      assert [r] + [] == [r] && rows + [r] == [r];
      KnowsSplit(r, []);
      NoneDistinct();
      ConsDistinct(r, []);
    } else {
      var head, tail := rows[0], rows[1..];
      assert rows == [head] + tail;
      UnconsDistinct(head, tail);
      UpdatedKeeps(tail, r);
      KnowsSplit(head, tail);
      if head.id == r.id {
        KnowsSplit(r, tail);
        ConsDistinct(r, tail);
      } else {
        KnowsSplit(head, Updated(tail, r));
        ConsDistinct(head, Updated(tail, r));
      }
    }
  }

  lemma NoneDistinct()
    ensures DistinctIds([])
  {
  }

  lemma ConsDistinct(head: Row, tail: seq<Row>)
    requires DistinctIds(tail) && !Knows(tail, head.id)
    ensures DistinctIds([head] + tail)
  {
  }

  lemma UnconsDistinct(head: Row, tail: seq<Row>)
    requires DistinctIds([head] + tail)
    ensures DistinctIds(tail) && !Knows(tail, head.id)
  {
    var all := [head] + tail;
    forall i | 0 <= i < |tail| ensures tail[i].id != head.id { assert all[0] == head && all[i + 1] == tail[i]; }
    forall i, j | 0 <= i < j < |tail| ensures tail[i].id != tail[j].id { assert all[i + 1] == tail[i] && all[j + 1] == tail[j]; }
  }

  lemma KnowsSplit(head: Row, tail: seq<Row>)
    ensures forall id :: Knows([head] + tail, id) <==> id == head.id || Knows(tail, id)
  {
    assert head in [head] + tail;
  }

  lemma KnowsLast(front: seq<Row>, last: Row)
    ensures forall id :: Knows(front + [last], id) <==> id == last.id || Knows(front, id)
  {
    assert last in front + [last];
  }

  lemma {:induction false} UpdatedAllKeeps(rows: seq<Row>, more: seq<Row>)
    requires DistinctIds(rows)
    ensures DistinctIds(UpdatedAll(rows, more))
    ensures forall id :: Knows(UpdatedAll(rows, more), id) <==> Knows(rows, id) || Knows(more, id)
  {
    hide Knows, DistinctIds;
    if more != [] {
      var front, last := more[..|more| - 1], more[|more| - 1];
      assert more == front + [last];
      UpdatedAllKeeps(rows, front);
      UpdatedKeeps(UpdatedAll(rows, front), last);
      KnowsLast(front, last);
    } else {
      NothingKnown();
    }
  }

  lemma NothingKnown()
    ensures forall id :: !Knows([], id)
  {
  }

  predicate Identified(items: seq<Row>, id: string) {
    id != "" && Knows(items, id)
  }

  lemma NewRowsAre(rows: seq<Row>, items: seq<Row>)
    ensures forall id :: Knows(rows, id) || Knows(NewRows(rows, items), id) <==> Knows(rows, id) || Identified(items, id)
    ensures forall r <- NewRows(rows, items) :: r.id != ""
  {
  }

  predicate IsList(page: Page) {
    page.Items?
  }

  /** An identity listed on one of the pages up to n. */
  predicate OnPages(server: Server, first: nat, n: nat, id: string) {
    exists p | first <= p <= n :: IsList(server(p)) && Identified(server(p).items, id)
  }

  predicate AllListed(server: Server, first: nat, n: nat) {
    forall p | first <= p <= n :: IsList(server(p))
  }

  /** A read that returns has read pages it can name: every identified row on them, each
      once, and at least as many as the last of them declared. */
  lemma {:induction false} CompleteOrRaises(server: Server, page: nat, rows: seq<Row>) returns (n: nat)
    requires 1 <= page <= MAX_PAGES && DistinctIds(rows) && ReadFrom(server, page, rows).Some?
    ensures page <= n <= 10_000 && AllListed(server, page, n)
    ensures var all := ReadFrom(server, page, rows).value;
            && DistinctIds(all)
            && (forall id :: Knows(all, id) <==> Knows(rows, id) || OnPages(server, page, n, id))
            && (server(n).total.Some? ==> |all| >= server(n).total.value)
            && (server(n).items == [] || Reached(server(n).total, |all|))
    decreases MAX_PAGES - page
  {
    hide Knows, DistinctIds, Identified;
    var items, total := server(page).items, server(page).total;
    var added := NewRows(rows, items);
    var all := UpdatedAll(rows, added);
    NewRowsAre(rows, items);
    UpdatedAllKeeps(rows, added);
    if items == [] || Reached(total, |all|) {
      n := page;
      assert forall id :: OnPages(server, page, page, id) <==> Identified(items, id);
    } else {
      n := CompleteOrRaises(server, page + 1, all);
      forall id ensures OnPages(server, page, n, id) <==> Identified(items, id) || OnPages(server, page + 1, n, id) {
        if Identified(items, id) {
          assert IsList(server(page)) && Identified(server(page).items, id);
        }
        if p :| page <= p <= n && IsList(server(p)) && Identified(server(p).items, id) {
          assert p == page || page + 1 <= p;
        }
      }
    }
  }

  // ---- honest and page-ignoring servers ----

  function Slice(list: seq<Row>, page: nat): seq<Row>
    requires page >= 1
  {
    var lo, hi := PAGE_SIZE * (page - 1), PAGE_SIZE * page;
    if lo >= |list| then [] else list[lo..if hi <= |list| then hi else |list|]
  }

  /** Answers every page with its hundred of the list, and a total that is right if given. */
  predicate Honest(server: Server, list: seq<Row>) {
    forall p | 1 <= p <= MAX_PAGES ::
      server(p).Items? && server(p).items == Slice(list, p) && (server(p).total == None || server(p).total == Some(|list|))
  }

  lemma {:induction false} AllNew(rows: seq<Row>, items: seq<Row>)
    requires DistinctIds(rows + items) && forall r <- items :: r.id != ""
    ensures NewRows(rows, items) == items
    ensures UpdatedAll(rows, items) == rows + items
  {
    forall r | r in items ensures !Knows(rows, r.id) {
      var j :| 0 <= j < |items| && items[j] == r;
      assert (rows + items)[|rows| + j] == r;
      forall i | 0 <= i < |rows| ensures rows[i].id != r.id {
        assert (rows + items)[i] == rows[i];
      }
    }
    FilterAll((r: Row) => r.id != "" && !Knows(rows, r.id), items);
    AllAppended(rows, items);
  }

  lemma {:induction false} AllAppended(rows: seq<Row>, items: seq<Row>)
    requires DistinctIds(rows + items)
    ensures UpdatedAll(rows, items) == rows + items
  {
    if items == [] {
      assert rows + items == rows;
    } else {
      var front, last := items[..|items| - 1], items[|items| - 1];
      assert rows + items == (rows + front) + [last];
      DistinctPrefix(rows + front, last);
      AllAppended(rows, front);
      UpdatedKeeps(rows + front, last);
    }
  }

  lemma DistinctPrefix(front: seq<Row>, last: Row)
    requires DistinctIds(front + [last])
    ensures DistinctIds(front) && !Knows(front, last.id)
  {
    var all := front + [last];
    forall i, j | 0 <= i < j < |front| ensures front[i].id != front[j].id {
      assert all[i] == front[i] && all[j] == front[j];
    }
    forall i | 0 <= i < |front| ensures front[i].id != last.id {
      assert all[i] == front[i] && all[|front|] == last;
    }
  }

  lemma DistinctPart(list: seq<Row>, n: nat)
    requires DistinctIds(list) && n <= |list|
    ensures DistinctIds(list[..n])
  {
  }

  /** The list ends before the last page allowed, or on it and that page says so. */
  predicate Fits(server: Server, list: seq<Row>) {
    || |list| <= PAGE_SIZE * (MAX_PAGES - 1)
    || (|list| <= PAGE_SIZE * MAX_PAGES && server(MAX_PAGES).Items? && server(MAX_PAGES).total.Some?)
  }

  lemma {:induction false} HonestFrom(server: Server, list: seq<Row>, page: nat)
    requires Honest(server, list) && DistinctIds(list) && forall r <- list :: r.id != ""
    requires 1 <= page <= MAX_PAGES && PAGE_SIZE * (page - 1) <= |list|
    ensures ReadFrom(server, page, list[..PAGE_SIZE * (page - 1)]) == if Fits(server, list) then Some(list) else None
    decreases MAX_PAGES - page
  {
    hide DistinctIds, NewRows, UpdatedAll;
    var lo, hi := PAGE_SIZE * (page - 1), UpTo(list, page);
    PageAdds(server, list, page);
    if hi == |list| {
      assert list[..hi] == list;
      if server(page).items != [] && server(page).total.None? && page < MAX_PAGES {
        EndOfList(server, list, page + 1);
      }
    } else if page < MAX_PAGES {
      HonestFrom(server, list, page + 1);
    }
  }

  /** How far a list has been read after a page. */
  function UpTo(list: seq<Row>, page: nat): nat {
    if PAGE_SIZE * page <= |list| then PAGE_SIZE * page else |list|
  }

  lemma PageAdds(server: Server, list: seq<Row>, page: nat)
    requires Honest(server, list) && DistinctIds(list) && forall r <- list :: r.id != ""
    requires 1 <= page <= MAX_PAGES && PAGE_SIZE * (page - 1) <= |list|
    ensures var rows, items := list[..PAGE_SIZE * (page - 1)], server(page).items;
            && items == list[PAGE_SIZE * (page - 1)..UpTo(list, page)]
            && NewRows(rows, items) == items && UpdatedAll(rows, items) == list[..UpTo(list, page)]
  {
    var rows, items := list[..PAGE_SIZE * (page - 1)], server(page).items;
    assert items == list[PAGE_SIZE * (page - 1)..UpTo(list, page)];
    assert rows + items == list[..UpTo(list, page)];
    DistinctPart(list, UpTo(list, page));
    forall r | r in items ensures r.id != "" { assert r in list; }
    AllNew(rows, items);
  }

  /** The empty page that ends a list whose total is not declared. */
  lemma EndOfList(server: Server, list: seq<Row>, page: nat)
    requires Honest(server, list) && 1 <= page <= MAX_PAGES && PAGE_SIZE * (page - 1) >= |list|
    ensures ReadFrom(server, page, list) == Some(list)
  {
    assert server(page).items == [];
    assert NewRows(list, []) == [];
  }

  /** An honest server's list comes back exactly, in order, or is refused; and it is refused
      exactly when the pages allowed run out before its end is seen. */
  lemma HonestIsReadWhole(server: Server, list: seq<Row>)
    requires Honest(server, list) && DistinctIds(list) && forall r <- list :: r.id != ""
    ensures ReadFrom(server, 1, []) ==
            if |list| <= 999_900 || (|list| <= 1_000_000 && server(10_000).Items? && server(10_000).total.Some?) then Some(list) else None
  {
    assert list[..0] == [];
    HonestFrom(server, list, 1);
  }

  /** A server that ignores `page` is rejected exactly when its first page is not the whole
      roster: when no total it declares is reached by it, and it is not empty. */
  lemma IgnoringPagesIsRejected(server: Server, items: seq<Row>, total: Option<int>)
    requires forall p | 1 <= p <= MAX_PAGES :: server(p) == Items(items, total)
    ensures var first := UpdatedAll([], NewRows([], items));
            ReadFrom(server, 1, []) == None <==>
              if items == [] then total.Some? && total.value > 0 else NewRows([], items) == [] || !Reached(total, |first|)
  {
    var added := NewRows([], items);
    var first := UpdatedAll([], added);
    UpdatedAllKeeps([], added);
    if items != [] && added != [] && !Reached(total, |first|) {
      assert server(2) == Items(items, total);
      forall r | r in items && r.id != "" ensures Knows(first, r.id) {
        assert r in added by { NothingKnown(); }
      }
      NothingNew(first, items);
      assert ReadFrom(server, 1, []) == ReadFrom(server, 2, first);
    }
  }

  lemma NothingNew(rows: seq<Row>, items: seq<Row>)
    requires forall r <- items :: r.id != "" ==> Knows(rows, r.id)
    ensures NewRows(rows, items) == []
  {
    NothingIn(NewRows(rows, items));
  }

  // ---- which format is read first ----

  datatype Answer = Whole(rows: seq<Row>) | SignInFailed | Error

  /** One list, read as JSON or as XML; each way answers whole or not at all. */
  class Preference {
    var xmlFirst: bool
    ghost var lastWhole: Option<bool>     // whether the last read that succeeded was XML

    constructor ()
      ensures Valid() && !xmlFirst && lastWhole == None
    {
      xmlFirst, lastWhole := false, None;
    }

    /** The preference names the format that last succeeded. */
    ghost predicate Valid()
      reads this
    {
      xmlFirst == lastWhole.GetOr(false)
    }

    /** A failed sign-in is not retried in the other format. */
    method Read(json: Answer, xml: Answer) returns (answer: Answer)
      requires Valid()
      modifies this
      ensures Valid()
      ensures var first, second := if old(xmlFirst) then xml else json, if old(xmlFirst) then json else xml;
              && answer == (if first != Error then first else second)
              && (answer.Whole? ==> lastWhole == Some(if first.Whole? then old(xmlFirst) else !old(xmlFirst)))
              && (!answer.Whole? ==> xmlFirst == old(xmlFirst) && lastWhole == old(lastWhole))
    {
      var ways := if xmlFirst then [(true, xml), (false, json)] else [(false, json), (true, xml)];
      for i := 0 to 2
        invariant xmlFirst == old(xmlFirst) && lastWhole == old(lastWhole)
        invariant i > 0 ==> ways[0].1 == Error
        invariant i > 1 ==> ways[1].1 == Error
      {
        var (isXml, result) := ways[i];
        if result.SignInFailed? {
          return SignInFailed;
        }
        if result.Whole? {
          if isXml != xmlFirst {
            xmlFirst := !xmlFirst;
          }
          lastWhole := Some(isXml);
          return result;
        }
      }
      return Error;
    }
  }
}

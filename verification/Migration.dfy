/** The one-time move of every key from Millennium's record ids to Employee IDs. */
module Migration {
  import opened Base

  /** A row of either table: whose it is, which credential, and the rest. */
  datatype Row = Row(person: string, credential: string, employeeId: string, rest: int)

  /** What a record's page says; Page carries its own id and its Employee ID as printed. */
  datatype Page = Unreadable | Page(id: string, employeeId: string)

  const MIGRATING := "migrating:"
  const GONE := "gone:"

  predicate StartsWith(s: string, prefix: string) {
    |prefix| <= |s| && s[..|prefix|] == prefix
  }

  // ---- single statements ----

  function Prefixed(rows: seq<Row>): (r: seq<Row>)
    ensures |r| == |rows| && forall i | 0 <= i < |r| :: r[i] == rows[i].(person := MIGRATING + rows[i].person)
  {
    seq(|rows|, i requires 0 <= i < |rows| => rows[i].(person := MIGRATING + rows[i].person))
  }

  /** UPDATE ... SET pacs_person_id = to WHERE pacs_person_id = from; `employee` where that is set too. */
  function Rekeyed(rows: seq<Row>, from: string, to: string, employee: Option<string>): (r: seq<Row>)
    ensures |r| == |rows|
    ensures forall i | 0 <= i < |r| ::
              r[i] == if rows[i].person == from then rows[i].(person := to, employeeId := employee.GetOr(rows[i].employeeId)) else rows[i]
  {
    seq(|rows|, i requires 0 <= i < |rows| =>
      if rows[i].person == from then rows[i].(person := to, employeeId := employee.GetOr(rows[i].employeeId)) else rows[i])
  }

  predicate KeysDistinct(rows: seq<Row>) {
    forall i, j | 0 <= i < j < |rows| :: !(rows[i].person == rows[j].person && rows[i].credential == rows[j].credential)
  }

  // ---- the substitution it amounts to ----

  /** Where each record's rows go: to an Employee ID, or among the gone. */
  datatype Plan = Plan(ids: map<string, string>, gone: set<string>)

  predicate Covers(plan: Plan, rows: seq<Row>) {
    forall r <- rows :: r.person in plan.ids || r.person in plan.gone
  }

  predicate NoneShared(plan: Plan) {
    forall a, b | a in plan.ids && b in plan.ids && a != b :: plan.ids[a] != plan.ids[b]
  }

  /** No two records share an Employee ID, none is one of the prefixes, no record is both. */
  predicate Sound(plan: Plan) {
    && NoneShared(plan)
    && (forall a <- plan.ids :: !StartsWith(plan.ids[a], MIGRATING) && !StartsWith(plan.ids[a], GONE) && a !in plan.gone)
  }

  function Target(plan: Plan, person: string): string {
    if person in plan.ids then plan.ids[person] else GONE + person
  }

  /** One row, renamed at once. */
  function Moved(plan: Plan, r: Row, tracking: bool): Row {
    r.(person := Target(plan, r.person),
       employeeId := if tracking && r.person in plan.ids then plan.ids[r.person] else r.employeeId)
  }

  function Substituted(plan: Plan, rows: seq<Row>, tracking: bool): (r: seq<Row>)
    ensures |r| == |rows| && forall i | 0 <= i < |r| :: r[i] == Moved(plan, rows[i], tracking)
  {
    seq(|rows|, i requires 0 <= i < |rows| => Moved(plan, rows[i], tracking))
  }

  /** Mid-way: the records in `done` have been moved, the others wait under the prefix. */
  function Halfway(plan: Plan, done: set<string>, r: Row, tracking: bool): Row {
    if r.person in done then Moved(plan, r, tracking) else r.(person := MIGRATING + r.person)
  }

  ghost predicate IsHalfway(plan: Plan, done: set<string>, rows: seq<Row>, now: seq<Row>, tracking: bool) {
    |now| == |rows| && forall i | 0 <= i < |rows| :: now[i] == Halfway(plan, done, rows[i], tracking)
  }

  lemma PrefixSplits(prefix: string, a: string, b: string)
    ensures StartsWith(prefix + a, prefix)
    ensures prefix + a == prefix + b ==> a == b
  {
    assert (prefix + a)[..|prefix|] == prefix;
    assert (prefix + a)[|prefix|..] == a && (prefix + b)[|prefix|..] == b;
  }

  lemma PrefixesDiffer(a: string, b: string)
    ensures MIGRATING + a != GONE + b
  {
    assert (MIGRATING + a)[0] == 'm' && (GONE + b)[0] == 'g';
  }

  /** A record not moved yet is found under the prefix, and nothing else is. */
  lemma FoundUnderPrefix(plan: Plan, done: set<string>, r: Row, record: string, tracking: bool)
    requires Sound(plan) && record !in done && (r.person in plan.ids || r.person in plan.gone)
    ensures Halfway(plan, done, r, tracking).person == MIGRATING + record <==> r.person == record
  {
    PrefixSplits(MIGRATING, r.person, record);
    PrefixSplits(MIGRATING, record, record);
    PrefixesDiffer(record, r.person);
  }

  /** The statement that moves one record's rows of a table from under the prefix. */
  function RekeyedFor(plan: Plan, rows: seq<Row>, record: string, tracking: bool): seq<Row> {
    Rekeyed(rows, MIGRATING + record, Target(plan, record), if tracking && record in plan.ids then Some(plan.ids[record]) else None)
  }

  lemma NoneMoved(plan: Plan, rows: seq<Row>, tracking: bool)
    ensures IsHalfway(plan, {}, rows, Prefixed(rows), tracking)
  {
  }

  lemma OneMoved(plan: Plan, done: set<string>, rows: seq<Row>, now: seq<Row>, tracking: bool, record: string)
    requires Sound(plan) && Covers(plan, rows) && IsHalfway(plan, done, rows, now, tracking)
    requires record !in done && (record in plan.ids || record in plan.gone)
    ensures IsHalfway(plan, done + {record}, rows, RekeyedFor(plan, now, record, tracking), tracking)
  {
    forall i | 0 <= i < |rows|
      ensures now[i].person == MIGRATING + record <==> rows[i].person == record
    {
      assert rows[i] in rows;
      FoundUnderPrefix(plan, done, rows[i], record, tracking);
    }
  }

  lemma AllMoved(plan: Plan, rows: seq<Row>, now: seq<Row>, tracking: bool)
    requires Covers(plan, rows) && IsHalfway(plan, plan.ids.Keys + plan.gone, rows, now, tracking)
    ensures now == Substituted(plan, rows, tracking)
  {
    forall i | 0 <= i < |rows| ensures now[i] == Moved(plan, rows[i], tracking) {
      assert rows[i] in rows;
    }
  }

  /** Half-moved keys never collide, so no statement breaks the table's uniqueness. */
  lemma HalfwayIsDistinct(plan: Plan, done: set<string>, rows: seq<Row>, now: seq<Row>, tracking: bool)
    requires Sound(plan) && Covers(plan, rows) && KeysDistinct(rows) && IsHalfway(plan, done, rows, now, tracking)
    ensures KeysDistinct(now)
  {
    forall i, j | 0 <= i < j < |now| && now[i].person == now[j].person
      ensures now[i].credential != now[j].credential
    {
      assert rows[i] in rows && rows[j] in rows;
      HalfwayInjective(plan, done, rows[i], rows[j], tracking);
    }
  }

  lemma HalfwayInjective(plan: Plan, done: set<string>, a: Row, b: Row, tracking: bool)
    requires Sound(plan) && (a.person in plan.ids || a.person in plan.gone) && (b.person in plan.ids || b.person in plan.gone)
    requires Halfway(plan, done, a, tracking).person == Halfway(plan, done, b, tracking).person
    ensures a.person == b.person
  {
    hide StartsWith;
    PrefixSplits(MIGRATING, a.person, b.person);
    PrefixSplits(GONE, a.person, b.person);
    PrefixSplits(MIGRATING, b.person, a.person);
    PrefixSplits(GONE, b.person, a.person);
    PrefixesDiffer(a.person, b.person);
    PrefixesDiffer(b.person, a.person);
  }

  /** What a move of a table keeps: every row, its own credential and contents; no two keys merged;
      no key left under the prefix; and the rows of one record, and only they, still together. */
  ghost predicate LosesNothing(before: seq<Row>, after: seq<Row>) {
    && |after| == |before| && (KeysDistinct(before) ==> KeysDistinct(after))
    && (forall i | 0 <= i < |before| :: after[i].credential == before[i].credential && after[i].rest == before[i].rest)
    && (forall r <- after :: !StartsWith(r.person, MIGRATING))
    && (forall i, j | 0 <= i < |before| && 0 <= j < |before| ::
          after[i].person == after[j].person <==> before[i].person == before[j].person)
  }

  /** Of either table: a key may have many rows in pacs_cards, and one in ag_credentials. */
  lemma SubstitutionLosesNothing(plan: Plan, rows: seq<Row>, tracking: bool)
    requires Sound(plan) && Covers(plan, rows)
    ensures LosesNothing(rows, Substituted(plan, rows, tracking))
  {
    hide StartsWith;
    var after, all := Substituted(plan, rows, tracking), plan.ids.Keys + plan.gone;
    forall i | 0 <= i < |rows| ensures after[i] == Halfway(plan, all, rows[i], tracking) {
      assert rows[i] in rows;
    }
    if KeysDistinct(rows) {
      HalfwayIsDistinct(plan, all, rows, after, tracking);
    }
    forall i, j | 0 <= i < |rows| && 0 <= j < |rows| && after[i].person == after[j].person
      ensures rows[i].person == rows[j].person
    {
      assert rows[i] in rows && rows[j] in rows;
      HalfwayInjective(plan, all, rows[i], rows[j], tracking);
    }
    forall i | 0 <= i < |rows| ensures !StartsWith(after[i].person, MIGRATING) {
      assert rows[i] in rows;
      NotMigrating(rows[i].person);
    }
  }

  lemma NotMigrating(person: string)
    ensures !StartsWith(GONE + person, MIGRATING)
  {
    var s := GONE + person;
    assert s[0] == 'g';
    if |MIGRATING| <= |s| {
      assert s[..|MIGRATING|][0] == s[0];
    }
  }

  // ---- the migration ----

  function PeopleOf(rows: seq<Row>): set<string> {
    set r <- rows :: r.person
  }

  predicate Readable(record: string, page: Page) {
    page.Page? && (Strip(page.id) != record || Strip(page.employeeId) != "")
  }

  predicate GoneRecord(record: string, page: Page) {
    page.Page? && Strip(page.id) != record
  }

  /** What the pages say, once every one of them was read. */
  function PlanOf(records: set<string>, pages: map<string, Page>): Plan
    requires forall r <- records :: r in pages && Readable(r, pages[r])
  {
    Plan(map r | r in records && pages[r].Page? && !GoneRecord(r, pages[r]) :: Strip(pages[r].employeeId),
         set r | r in records && GoneRecord(r, pages[r]))
  }

  lemma PlanFits(credentials: seq<Row>, cards: seq<Row>, pages: map<string, Page>)
    requires var records := PeopleOf(credentials) + PeopleOf(cards);
             (forall r <- records :: r in pages && Readable(r, pages[r])) && NoneShared(PlanOf(records, pages))
    requires forall r <- pages | pages[r].Page? ::
               !StartsWith(Strip(pages[r].employeeId), MIGRATING) && !StartsWith(Strip(pages[r].employeeId), GONE)
    ensures var records := PeopleOf(credentials) + PeopleOf(cards);
            var plan := PlanOf(records, pages);
            Sound(plan) && Covers(plan, credentials) && Covers(plan, cards) && plan.ids.Keys + plan.gone == records
  {
    hide StartsWith, Strip;
  }

  /** What the pages come to for one row: its record's Employee ID where the page carries the record's own
      id, and else a place among the gone; only the tracking table is told the Employee ID besides. */
  lemma MovedSays(records: set<string>, pages: map<string, Page>, r: Row, tracking: bool)
    requires r.person in records && forall x <- records :: x in pages && Readable(x, pages[x])
    ensures var page := pages[r.person];
            page.Page? &&
            Moved(PlanOf(records, pages), r, tracking) ==
            if Strip(page.id) != r.person then Row("gone:" + r.person, r.credential, r.employeeId, r.rest)
            else Row(Strip(page.employeeId), r.credential, if tracking then Strip(page.employeeId) else r.employeeId, r.rest)
  {
    hide Strip;
  }

  /** And when the records can move at all: every page read, each that carries its own id with an Employee ID
      on it, and no two of those with the same one. */
  lemma CanMoveSays(records: set<string>, pages: map<string, Page>)
    requires forall x <- records :: x in pages
    ensures (forall x <- records :: Readable(x, pages[x])) && NoneShared(PlanOf(records, pages)) <==>
              && (forall x <- records :: pages[x].Page? && (Strip(pages[x].id) == x ==> Strip(pages[x].employeeId) != ""))
              && forall a, b | a in records && b in records && a != b && Strip(pages[a].id) == a && Strip(pages[b].id) == b ::
                   Strip(pages[a].employeeId) != Strip(pages[b].employeeId)
  {
    hide Strip;
    if forall x <- records :: Readable(x, pages[x]) {
      var plan := PlanOf(records, pages);
      assert forall a :: a in plan.ids <==> a in records && Strip(pages[a].id) == a;
    }
  }

  lemma OneFewer(moved: set<string>, todo: set<string>, record: string)
    requires record in todo && moved !! todo
    ensures |moved + todo| == |moved| + |todo| && |todo| > 0 && |moved + {record}| == |moved| + 1
    ensures moved + {record} !! todo - {record} && (moved + {record}) + (todo - {record}) == moved + todo
  {
    assert todo == {record} + (todo - {record});
  }

  method MoveRecord(plan: Plan, credentials: seq<Row>, cards: seq<Row>, record: string) returns (movedCredentials: seq<Row>, movedCards: seq<Row>)
    ensures movedCredentials == RekeyedFor(plan, credentials, record, true) && movedCards == RekeyedFor(plan, cards, record, false)
  {
    if record in plan.ids {
      movedCredentials := Rekeyed(credentials, MIGRATING + record, plan.ids[record], Some(plan.ids[record]));
      movedCards := Rekeyed(cards, MIGRATING + record, plan.ids[record], None);
    } else {
      movedCredentials := Rekeyed(credentials, MIGRATING + record, GONE + record, None);
      movedCards := Rekeyed(cards, MIGRATING + record, GONE + record, None);
    }
  }

  class Database {
    var credentials: seq<Row>      // ag_credentials
    var cards: seq<Row>            // pacs_cards
    var done: bool

    constructor (credentials: seq<Row>, cards: seq<Row>)
      ensures this.credentials == credentials && this.cards == cards && !done
    {
      this.credentials, this.cards, done := credentials, cards, false;
    }

    /** Reads every page; None while any record cannot move, which is an error raised. */
    method ReadPages(pages: map<string, Page>) returns (plan: Option<Plan>)
      requires forall r <- PeopleOf(credentials) + PeopleOf(cards) :: r in pages
      ensures var records := PeopleOf(credentials) + PeopleOf(cards);
              && (plan.Some? <==> (forall r <- records :: Readable(r, pages[r])) && NoneShared(PlanOf(records, pages)))
              && (plan.Some? ==> plan.value == PlanOf(records, pages))
    {
      var records := PeopleOf(credentials) + PeopleOf(cards);
      var todo := records;
      var ids: map<string, string>, gone: set<string>, problems := map[], {}, 0;
      while todo != {}
        invariant todo <= records
        invariant problems == 0 <==> forall r <- records - todo :: Readable(r, pages[r])
        invariant problems == 0 ==> forall r :: r in ids <==> r in records - todo && !GoneRecord(r, pages[r])
        invariant problems == 0 ==> forall r <- ids :: r in pages && pages[r].Page? && ids[r] == Strip(pages[r].employeeId)
        invariant problems == 0 ==> forall r :: r in gone <==> r in records - todo && GoneRecord(r, pages[r])
        decreases todo
      {
        var record :| record in todo;
        todo := todo - {record};
        match pages[record] {
          case Unreadable => problems := problems + 1;
          case Page(id, employeeId) =>
            if Strip(id) != record {
              gone := gone + {record};
            } else if Strip(employeeId) == "" {
              problems := problems + 1;
            } else {
              ids := ids[record := Strip(employeeId)];
            }
        }
      }
      if problems > 0 {
        return None;
      }
      assert ids == PlanOf(records, pages).ids && gone == PlanOf(records, pages).gone;
      if !NoneShared(Plan.Plan(ids, gone)) {
        return None;
      }
      plan := Some(Plan.Plan(ids, gone));
    }

    /** All or nothing: a statement may fail, after `failsAt` records have moved, and then nothing
        has moved; the statements themselves never break the table's uniqueness. */
    method Move(plan: Plan, failsAt: nat) returns (ok: bool)
      requires Sound(plan) && Covers(plan, credentials) && Covers(plan, cards) && KeysDistinct(credentials)
      modifies this
      ensures ok <==> failsAt >= |plan.ids.Keys + plan.gone|
      ensures ok ==> credentials == Substituted(plan, old(credentials), true) && cards == Substituted(plan, old(cards), false) && done
      ensures !ok ==> credentials == old(credentials) && cards == old(cards) && done == old(done)
    {
      hide Sound, Covers, KeysDistinct, IsHalfway, RekeyedFor, Substituted, Prefixed;
      ghost var credentials0, cards0 := credentials, cards;
      NoneMoved(plan, credentials0, true);
      NoneMoved(plan, cards0, false);
      var nowCredentials, nowCards := Prefixed(credentials), Prefixed(cards);
      var todo := plan.ids.Keys + plan.gone;
      ghost var moved: set<string> := {};
      var count := 0;
      while todo != {}
        invariant moved + todo == plan.ids.Keys + plan.gone && moved !! todo && |moved| == count <= failsAt
        invariant IsHalfway(plan, moved, credentials0, nowCredentials, true)
        invariant IsHalfway(plan, moved, cards0, nowCards, false)
        invariant credentials == credentials0 && cards == cards0 && done == old(done)
        decreases todo
      {
        var record :| record in todo;
        HalfwayIsDistinct(plan, moved, credentials0, nowCredentials, true);
        OneFewer(moved, todo, record);
        if count == failsAt || !KeysDistinct(nowCredentials) {
          return false;
        }
        OneMoved(plan, moved, credentials0, nowCredentials, true, record);
        OneMoved(plan, moved, cards0, nowCards, false, record);
        nowCredentials, nowCards := MoveRecord(plan, nowCredentials, nowCards, record);
        moved, todo, count := moved + {record}, todo - {record}, count + 1;
      }
      AllMoved(plan, credentials0, nowCredentials, true);
      AllMoved(plan, cards0, nowCards, false);
      credentials, cards, done := nowCredentials, nowCards, true;
      ok := true;
    }

    /** The whole migration, from what each record's page says. */
    method Ensure(pages: map<string, Page>, failsAt: nat) returns (ok: bool)
      requires KeysDistinct(credentials)
      requires forall r <- PeopleOf(credentials) + PeopleOf(cards) :: r in pages
      requires forall r <- pages | pages[r].Page? ::
                 !StartsWith(Strip(pages[r].employeeId), MIGRATING) && !StartsWith(Strip(pages[r].employeeId), GONE)
      modifies this
      ensures old(done) || !ok ==> credentials == old(credentials) && cards == old(cards) && done == old(done)
      ensures !old(done) && ok ==>
                var records := PeopleOf(old(credentials)) + PeopleOf(old(cards));
                && (forall r <- records :: Readable(r, pages[r])) && done
                && credentials == Substituted(PlanOf(records, pages), old(credentials), true)
                && cards == Substituted(PlanOf(records, pages), old(cards), false)
      ensures !old(done) && ok ==> LosesNothing(old(credentials), credentials) && LosesNothing(old(cards), cards)
      ensures var records := PeopleOf(old(credentials)) + PeopleOf(old(cards));
              ok <==> old(done) || ((forall r <- records :: Readable(r, pages[r])) && NoneShared(PlanOf(records, pages)) && failsAt >= |records|)
    {
      hide KeysDistinct, StartsWith, Strip, LosesNothing, Sound, Covers, NoneShared;
      if done {
        return true;
      }
      var plan := ReadPages(pages);
      if plan.None? {
        return false;
      }
      PlanFits(credentials, cards, pages);
      ok := Move(plan.value, failsAt);
      if ok {
        SubstitutionLosesNothing(plan.value, old(credentials), true);
        SubstitutionLosesNothing(plan.value, old(cards), false);
      }
    }
  }
}

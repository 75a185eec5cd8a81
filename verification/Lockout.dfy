/** Login lockout: eight failures lock a key, for twice as long each time up to a day. */
module Lockout {
  import opened Base

  const FAIL_WINDOW := 15 * 60
  const MAX_FAILS := 8
  const LOCKOUT_BASE := 60
  const LOCKOUT_MAX := 24 * 60 * 60

  /** The row of one key; an absent row counts as a fresh one. Instants are in seconds. */
  datatype Row = Row(failCount: nat, firstFailAt: int, lockedUntil: Option<int>, lockLevel: nat)

  const FRESH := Row(0, 0, None, 0)

  function Pow2(n: nat): (p: nat)
    ensures p >= 1
  {
    if n == 0 then 1 else 2 * Pow2(n - 1)
  }

  /** How long the lock of a level lasts. */
  function LockoutOf(level: nat): nat
    requires level >= 1
  {
    var doubled := LOCKOUT_BASE * Pow2(level - 1);
    if doubled < LOCKOUT_MAX then doubled else LOCKOUT_MAX
  }

  predicate Locked(row: Row, now: int) {
    row.lockedUntil.Some? && row.lockedUntil.value > now
  }

  function Unlocked(row: Row, now: int): Row {
    if Locked(row, now) then row else row.(lockedUntil := None)
  }

  predicate Locks(row: Row, now: int) {
    (if row.firstFailAt < now - FAIL_WINDOW then 1 else row.failCount + 1) >= MAX_FAILS
  }

  function Failed(row: Row, now: int): Row {
    var outside := row.firstFailAt < now - FAIL_WINDOW;
    var fails := if outside then 1 else row.failCount + 1;
    if Locks(row, now) then Row(0, now, Some(now + LockoutOf(row.lockLevel + 1)), row.lockLevel + 1)
    else Row(fails, if outside then now else row.firstFailAt, None, row.lockLevel)
  }

  class LoginAttempts {
    var rows: map<string, Row>

    constructor ()
      ensures rows == map[]
    {
      rows := map[];
    }

    function RowOf(key: string): Row
      reads this
    {
      if key in rows then rows[key] else FRESH
    }

    method IsLocked(key: string, now: int) returns (locked: bool)
      modifies this
      ensures locked == Locked(old(RowOf(key)), now)
      ensures RowOf(key) == Unlocked(old(RowOf(key)), now)
      ensures forall k :: k != key ==> RowOf(k) == old(RowOf(k))
    {
      if key in rows && rows[key].lockedUntil.Some? && rows[key].lockedUntil.value > now {
        return true;
      }
      if key in rows {
        rows := rows[key := rows[key].(lockedUntil := None)];
      }
      locked := false;
    }

    method RecordFailure(key: string, now: int)
      modifies this
      ensures RowOf(key) == Failed(old(RowOf(key)), now)
      ensures forall k :: k != key ==> RowOf(k) == old(RowOf(k))
    {
      var row := RowOf(key);
      var failCount, firstFailAt, lockLevel := row.failCount, row.firstFailAt, row.lockLevel;
      if firstFailAt < now - FAIL_WINDOW {
        failCount, firstFailAt := 1, now;
      } else {
        failCount := failCount + 1;
      }
      var lockedUntil: Option<int> := None;
      if failCount >= MAX_FAILS {
        lockLevel := lockLevel + 1;
        lockedUntil := Some(now + LockoutOf(lockLevel));
        failCount, firstFailAt := 0, now;
      }
      rows := rows[key := Row(failCount, firstFailAt, lockedUntil, lockLevel)];
    }

    method RecordSuccess(key: string)
      modifies this
      ensures RowOf(key) == FRESH
      ensures forall k :: k != key ==> RowOf(k) == old(RowOf(k))
    {
      rows := rows - {key};
    }
  }

  // ---- eight failures ----

  function FailedAt(row: Row, times: seq<int>): Row {
    if times == [] then row else Failed(FailedAt(row, times[..|times| - 1]), times[|times| - 1])
  }

  predicate InOrder(times: seq<int>) {
    forall i, j | 0 <= i < j < |times| :: times[i] <= times[j]
  }

  /** Failures that begin more than a quarter of an hour after any counted before are counted from the first
      of them, and anew once that is more than a quarter of an hour ago. */
  lemma {:induction false} FewerThanEight(row: Row, times: seq<int>)
    requires 1 <= |times| < 8 && InOrder(times) && row.firstFailAt + 900 < times[0]
    ensures var after, last := FailedAt(row, times), times[|times| - 1];
            && after.lockLevel == row.lockLevel && after.lockedUntil == None
            && (last <= times[0] + 900 ==> after.failCount == |times| && after.firstFailAt == times[0])
            && (last > times[0] + 900 ==> after.failCount < |times|)
  {
    var front, last := times[..|times| - 1], times[|times| - 1];
    if front == [] {
      assert FailedAt(row, front) == row;
    } else {
      assert front[0] == times[0] && front[|front| - 1] <= last;
      FewerThanEight(row, front);
    }
  }

  /** The eighth of them locks the key exactly when it comes within a quarter of an hour of the first: for a
      minute the first time, twice as long each time, and a day at the most. */
  lemma EightLock(row: Row, times: seq<int>)
    requires |times| == 8 && InOrder(times) && row.firstFailAt + 900 < times[0]
    ensures var after := FailedAt(row, times);
            if times[7] <= times[0] + 900
            then after == Row(0, times[7], Some(times[7] + if row.lockLevel >= 11 then 86400 else 60 * Pow2(row.lockLevel)), row.lockLevel + 1)
            else after.lockLevel == row.lockLevel && after.lockedUntil == None
  {
    hide LockoutOf, FailedAt, InOrder;
    LastOfEight(row, times);
    FewerThanEight(row, times[..7]);
    LockoutSays(row.lockLevel + 1);
  }

  lemma LastOfEight(row: Row, times: seq<int>)
    requires |times| == 8 && InOrder(times)
    ensures FailedAt(row, times) == Failed(FailedAt(row, times[..7]), times[7])
    ensures InOrder(times[..7]) && times[..7][0] == times[0] && times[..7][6] <= times[7]
  {
    hide Failed;
  }

  /** So of a key that never failed, its eight failures after the first quarter of an hour of the epoch. */
  lemma NewKeyLocks(times: seq<int>)
    requires |times| == 8 && InOrder(times) && times[0] > 900
    ensures (FailedAt(FRESH, times).lockLevel == 1 && FailedAt(FRESH, times).lockedUntil == Some(times[7] + 60)) <==> times[7] <= times[0] + 900
  {
    EightLock(FRESH, times);
  }

  lemma LockoutSays(level: nat)
    requires level >= 1
    ensures LockoutOf(level) == if level >= 12 then 86400 else 60 * Pow2(level - 1)
  {
    assert Pow2(10) == 1024 by { assert Pow2(5) == 32; }
    assert Pow2(11) == 2 * Pow2(10);
    if level >= 12 {
      Pow2Grows(11, level - 1);
    } else {
      Pow2Grows(level - 1, 10);
    }
  }

  // ---- any history without a success ----

  /** A login looks its key up, and later, unless it was locked, records a failure. Each takes
      the lock for itself, so those of several logins may come in any order. */
  datatype Event = LookUp(at: int) | Failure(at: int)

  /** One key's history: its row, when it was locked, and how many failures made each lock. */
  datatype History = History(row: Row, sinceLock: nat, locks: seq<int>, fails: seq<nat>)

  function Next(h: History, e: Event): History {
    match e
    case LookUp(at) => h.(row := Unlocked(h.row, at))
    case Failure(at) =>
      if Locks(h.row, at) then History(Failed(h.row, at), 0, h.locks + [at], h.fails + [h.sinceLock + 1])
      else History(Failed(h.row, at), h.sinceLock + 1, h.locks, h.fails)
  }

  function Played(events: seq<Event>): History {
    if events == [] then History(FRESH, 0, [], []) else Next(Played(events[..|events| - 1]), events[|events| - 1])
  }

  lemma PlayedStep(events: seq<Event>, i: nat)
    requires i < |events|
    ensures Played(events[..i + 1]) == Next(Played(events[..i]), events[i])
  {
    assert events[..i + 1][..i] == events[..i];
  }

  /** However logins overlap and whatever the clock does, at least eight failures make each lock. */
  lemma {:induction false} LocksAreEarned(events: seq<Event>)
    ensures var h := Played(events);
            && h.row.lockLevel == |h.locks| == |h.fails|
            && h.row.failCount <= h.sinceLock
            && forall i | 0 <= i < |h.fails| :: h.fails[i] >= 8
  {
    if events != [] {
      LocksAreEarned(events[..|events| - 1]);
    }
  }

  /** When the last lock of a history ends. */
  function LastEnd(h: History): int
    requires h.locks != []
  {
    h.locks[|h.locks| - 1] + LockoutOf(|h.locks|)
  }

  /** Every lock holds for its whole time: no failure is recorded before the last one has ended. */
  predicate LocksHold(events: seq<Event>) {
    forall i | 0 <= i < |events| && events[i].Failure? ::
      Played(events[..i]).locks != [] ==> events[i].at >= LastEnd(Played(events[..i]))
  }

  /** No failure is recorded while the row says it is locked. */
  predicate Undisturbed(events: seq<Event>) {
    forall i | 0 <= i < |events| && events[i].Failure? :: !Locked(Played(events[..i]).row, events[i].at)
  }

  /** The clock does not run backwards. */
  predicate ClockForward(events: seq<Event>) {
    forall i, j | 0 <= i < j < |events| :: events[i].at <= events[j].at
  }

  /** A login records its failure before another login looks the key up. */
  predicate LoginsDoNotOverlap(events: seq<Event>) {
    forall j | 0 <= j < |events| && events[j].Failure? ::
      j > 0 && events[j - 1].LookUp? && !Locked(Played(events[..j - 1]).row, events[j - 1].at)
  }

  lemma Earlier(events: seq<Event>, n: nat)
    requires n <= |events|
    ensures Undisturbed(events) ==> Undisturbed(events[..n])
    ensures LocksHold(events) ==> LocksHold(events[..n])
    ensures ClockForward(events) ==> ClockForward(events[..n])
  {
    hide Played, Locked, LastEnd;
    forall i | 0 <= i < n ensures events[..n][..i] == events[..i] && events[..n][i] == events[i] { }
  }

  /** The row's lock, while it has one, is the last one set. */
  lemma {:induction false} LockIsTheLast(events: seq<Event>)
    ensures var h := Played(events);
            && h.row.lockLevel == |h.locks|
            && (h.row.lockedUntil.Some? ==> h.locks != [] && h.row.lockedUntil.value == LastEnd(h))
  {
    hide LockoutOf, Locks;
    if events != [] {
      LockIsTheLast(events[..|events| - 1]);
    }
  }

  lemma EndedStays(h: History, e: Event, before: int)
    requires h.row.lockLevel == |h.locks| && before <= e.at && (e.Failure? ==> !Locked(h.row, e.at))
    requires h.row.lockedUntil.Some? ==> h.locks != [] && h.row.lockedUntil.value == LastEnd(h)
    requires h.locks != [] && h.row.lockedUntil.None? ==> before >= LastEnd(h)
    ensures var next := Next(h, e); next.locks != [] && next.row.lockedUntil.None? ==> e.at >= LastEnd(next)
  {
    hide LockoutOf, Locks;
  }

  /** And it is gone only once it has ended. */
  lemma {:induction false} GoneWhenEnded(events: seq<Event>)
    requires ClockForward(events) && Undisturbed(events)
    ensures var h := Played(events);
            h.locks != [] && h.row.lockedUntil.None? ==> events != [] && events[|events| - 1].at >= LastEnd(h)
  {
    hide LastEnd, Next, Locked;
    if events != [] {
      var n := |events| - 1;
      Earlier(events, n);
      GoneWhenEnded(events[..n]);
      LockIsTheLast(events[..n]);
      assert events[n].Failure? ==> !Locked(Played(events[..n]).row, events[n].at);
      EndedStays(Played(events[..n]), events[n], if n > 0 then events[n - 1].at else events[n].at);
    }
  }

  /** While the clock does not run backwards, the locks hold exactly when no failure is recorded
      on a row that is locked: `RecordFailure` does not look at the lock it overwrites. */
  lemma LocksHoldUndisturbed(events: seq<Event>)
    requires ClockForward(events)
    ensures LocksHold(events) <==> Undisturbed(events)
  {
    hide LockoutOf, Played, Next;
    forall i | 0 <= i < |events| && events[i].Failure? && LocksHold(events)
      ensures !Locked(Played(events[..i]).row, events[i].at)
    {
      LockIsTheLast(events[..i]);
    }
    forall i | 0 <= i < |events| && events[i].Failure? && Undisturbed(events)
      ensures Played(events[..i]).locks != [] ==> events[i].at >= LastEnd(Played(events[..i]))
    {
      Earlier(events, i);
      LockIsTheLast(events[..i]);
      GoneWhenEnded(events[..i]);
      assert !Locked(Played(events[..i]).row, events[i].at);
    }
  }

  /** Logins that do not overlap never disturb a lock, whatever the clock does. */
  lemma ApartIsUndisturbed(events: seq<Event>)
    requires LoginsDoNotOverlap(events)
    ensures Undisturbed(events)
  {
    forall i | 0 <= i < |events| && events[i].Failure?
      ensures !Locked(Played(events[..i]).row, events[i].at)
    {
      PlayedStep(events, i - 1);
    }
  }

  /** The sum of the first k lockouts. */
  function LockoutsUpTo(k: nat): nat {
    if k == 0 then 0 else LockoutsUpTo(k - 1) + LockoutOf(k)
  }

  /** The lock after the kth comes at least the first k lockouts after the first. */
  predicate Spaced(locks: seq<int>) {
    forall k | 0 <= k < |locks| :: locks[k] - locks[0] >= LockoutsUpTo(k)
  }

  lemma OneMoreLock(locks: seq<int>, at: int)
    requires Spaced(locks) && (locks != [] ==> at >= locks[|locks| - 1] + LockoutOf(|locks|))
    ensures Spaced(locks + [at])
  {
    hide LockoutOf;
    var n, after := |locks|, locks + [at];
    forall k | 0 <= k <= n ensures after[k] - after[0] >= LockoutsUpTo(k) {
      if n > 0 {
        assert locks[n - 1] - locks[0] >= LockoutsUpTo(n - 1);
        assert LockoutsUpTo(n) == LockoutsUpTo(n - 1) + LockoutOf(n);
      }
    }
  }

  /** Where the locks hold, the one that reaches level k + 1 comes no sooner than the first k
      lockouts after the first. */
  lemma {:induction false} LevelsTakeTime(events: seq<Event>)
    requires LocksHold(events)
    ensures Spaced(Played(events).locks)
  {
    hide Locks, LockoutOf, LockoutsUpTo;
    if events != [] {
      var n := |events| - 1;
      Earlier(events, n);
      LevelsTakeTime(events[..n]);
      var before, after := Played(events[..n]).locks, Played(events).locks;
      if after != before {
        OneMoreLock(before, events[n].at);
      }
    }
  }

  /** The bound for logins one at a time. */
  lemma LoginsApartTakeTime(events: seq<Event>)
    requires ClockForward(events) && LoginsDoNotOverlap(events)
    ensures LocksHold(events)
    ensures Spaced(Played(events).locks)
  {
    ApartIsUndisturbed(events);
    LocksHoldUndisturbed(events);
    LevelsTakeTime(events);
  }

  /** Sixteen logins that all look the key up before any of them records its failure. */
  function Burst(t: int, failures: nat): seq<Event> {
    seq(16, _ => LookUp(t)) + seq(failures, _ => Failure(t))
  }

  predicate AfterBurst(h: History, t: int, n: nat) {
    && h.row.failCount == n % 8 && h.row.lockLevel == |h.locks| == n / 8
    && (forall i | 0 <= i < |h.locks| :: h.locks[i] == t)
    && (n > 0 ==> h.row.firstFailAt >= t - FAIL_WINDOW)
    && h.row.lockedUntil == if n == 8 then Some(t + 60) else if n == 16 then Some(t + 120) else None
  }

  lemma NextInBurst(h: History, t: int, n: nat)
    requires 1 <= n <= 16 && AfterBurst(h, t, n - 1)
    ensures AfterBurst(Next(h, Failure(t)), t, n)
  {
    assert Pow2(1) == 2;
    assert Locks(h.row, t) <==> n % 8 == 0;
  }

  lemma {:induction false} BurstIs(t: int, n: nat)
    requires n <= 16
    ensures AfterBurst(Played(Burst(t, n)), t, n)
  {
    hide Next;
    var events := Burst(t, n);
    if n == 0 {
      LookUpsDoNothing(t, 16);
      assert events == seq(16, _ => LookUp(t));
    } else {
      hide AfterBurst;
      BurstIs(t, n - 1);
      assert events[..|events| - 1] == Burst(t, n - 1);
      assert events[|events| - 1] == Failure(t);
      NextInBurst(Played(Burst(t, n - 1)), t, n);
    }
  }

  lemma {:induction false} LookUpsDoNothing(t: int, n: nat)
    ensures Played(seq(n, _ => LookUp(t))) == History(FRESH, 0, [], [])
  {
    if n > 0 {
      LookUpsDoNothing(t, n - 1);
      assert seq(n, _ => LookUp(t))[..n - 1] == seq(n - 1, _ => LookUp(t));
    }
  }

  /** They reach level 2 at once, the ninth failure having cleared the lock the eighth set. */
  lemma OverlapBreaksLocks(t: int)
    ensures var events := Burst(t, 16);
            && ClockForward(events) && !Undisturbed(events) && !LocksHold(events)
            && Played(events).locks == [t, t] && Played(events).row.lockLevel == 2
    ensures Locked(Played(Burst(t, 8)).row, t) && !Locked(Played(Burst(t, 9)).row, t)
  {
    BurstIs(t, 8);
    BurstIs(t, 9);
    BurstIs(t, 16);
    assert Played(Burst(t, 16)).locks == [t, t];
    assert Burst(t, 16)[24] == Failure(t) && Burst(t, 16)[..24] == Burst(t, 8);
    LocksHoldUndisturbed(Burst(t, 16));
  }

  lemma {:induction false} Pow2Grows(a: nat, b: nat)
    requires a <= b
    ensures Pow2(a) <= Pow2(b)
  {
    if a < b { Pow2Grows(a, b - 1); }
  }

  /** Up to the twelfth level nothing is capped: 60 * (2^(k-1) - 1) seconds to reach level k. */
  lemma {:induction false} LockoutsDouble(k: nat)
    requires 1 <= k <= 12
    ensures LockoutsUpTo(k - 1) == 60 * (Pow2(k - 1) - 1)
  {
    if k > 1 {
      LockoutsDouble(k - 1);
      Pow2Grows(k - 2, 10);
      assert Pow2(10) == 1024 by { assert Pow2(5) == 32; }
    }
  }

  /** And from the twelfth lock on, every lock lasts a day. */
  lemma LockoutIsCapped(level: nat)
    requires level >= 12
    ensures LockoutOf(level) == 24 * 60 * 60
  {
    Pow2Grows(11, level - 1);
    assert Pow2(11) == 2048 by { assert Pow2(5) == 32; assert Pow2(8) == 256; }
  }
}

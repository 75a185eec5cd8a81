/** Strict total orders: how text, cells and credential ids are sorted. */
module Order {

  ghost predicate StrictTotal<T(!new)>(less: (T, T) -> bool) {
    && (forall x :: !less(x, x))
    && (forall x, y :: x != y ==> less(x, y) || less(y, x))
    && (forall x, y, z :: less(x, y) && less(y, z) ==> less(x, z))
  }

  predicate Sorted<T>(less: (T, T) -> bool, s: seq<T>) {
    forall i, j | 0 <= i < j < |s| :: less(s[i], s[j])
  }

  function Insert<T>(less: (T, T) -> bool, s: seq<T>, x: T): seq<T> {
    if s == [] || less(s[|s| - 1], x) then s + [x]
    else Insert(less, s[..|s| - 1], x) + [s[|s| - 1]]
  }

  lemma {:induction false} InsertMembers<T>(less: (T, T) -> bool, s: seq<T>, x: T)
    ensures |Insert(less, s, x)| == |s| + 1
    ensures forall y :: y in Insert(less, s, x) <==> y == x || y in s
  {
    if !(s == [] || less(s[|s| - 1], x)) {
      InsertMembers(less, s[..|s| - 1], x);
      assert s == s[..|s| - 1] + [s[|s| - 1]];
    }
  }

  lemma {:induction false} InsertSorted<T(!new)>(less: (T, T) -> bool, s: seq<T>, x: T)
    requires StrictTotal(less) && Sorted(less, s) && x !in s
    ensures Sorted(less, Insert(less, s, x))
  {
    if s == [] {
    } else if less(s[|s| - 1], x) {
      var last := s[|s| - 1];
      forall i | 0 <= i < |s| ensures less(s[i], x) {
        assert i < |s| - 1 ==> less(s[i], last);
      }
    } else {
      var front, last := s[..|s| - 1], s[|s| - 1];
      InsertSorted(less, front, x);
      InsertMembers(less, front, x);
      var r := Insert(less, front, x);
      assert last != x && less(x, last);
      forall i | 0 <= i < |r| ensures less(r[i], last) {
        assert r[i] in r;
        if r[i] != x {
          var j :| 0 <= j < |front| && front[j] == r[i];
          assert less(s[j], s[|s| - 1]);
        }
      }
    }
  }

  lemma SortedDiffer<T(!new)>(less: (T, T) -> bool, s: seq<T>)
    requires StrictTotal(less) && Sorted(less, s)
    ensures forall i, j | 0 <= i < j < |s| :: s[i] != s[j]
  {
    forall i, j | 0 <= i < j < |s| ensures s[i] != s[j] {
      assert less(s[i], s[j]) && !less(s[i], s[i]);
    }
  }

  lemma HeadIsNotInTail<T(!new)>(less: (T, T) -> bool, s: seq<T>)
    requires StrictTotal(less) && Sorted(less, s) && s != []
    ensures s[0] !in s[1..]
    ensures forall x :: x in s[1..] <==> x in s && x != s[0]
  {
    forall i | 1 <= i < |s| ensures s[i] != s[0] {
      assert less(s[0], s[i]);
    }
    assert s == [s[0]] + s[1..];
  }

  lemma NothingIn<T>(s: seq<T>)
    ensures s == [] <==> forall x <- s :: false
  {
    if s != [] {
      assert s[0] in s;
    }
  }

  lemma HeadIsLeast<T(!new)>(less: (T, T) -> bool, s: seq<T>, x: T)
    requires Sorted(less, s) && x in s
    ensures x == s[0] || less(s[0], x)
  {
    var i :| 0 <= i < |s| && s[i] == x;
    assert i == 0 || less(s[0], s[i]);
  }

  /** There is only one way to sort a set. */
  lemma {:induction false} SortedUnique<T(!new)>(less: (T, T) -> bool, a: seq<T>, b: seq<T>)
    requires StrictTotal(less) && Sorted(less, a) && Sorted(less, b)
    requires forall x :: x in a <==> x in b
    ensures a == b
  {
    if a == [] || b == [] {
      NothingIn(a);
      NothingIn(b);
    } else {
      HeadIsLeast(less, a, b[0]);
      HeadIsLeast(less, b, a[0]);
      assert a[0] == b[0];
      assert a == [a[0]] + a[1..] && b == [b[0]] + b[1..];
      HeadIsNotInTail(less, a);
      HeadIsNotInTail(less, b);
      assert forall x :: x in a[1..] <==> x in b[1..];
      SortedUnique(less, a[1..], b[1..]);
    }
  }

  ghost function SortedSet<T(!new)>(less: (T, T) -> bool, s: set<T>): seq<T> {
    if s == {} then []
    else
      var x :| x in s;
      Insert(less, SortedSet(less, s - {x}), x)
  }

  lemma {:induction false} SortedSetIs<T(!new)>(less: (T, T) -> bool, s: set<T>)
    requires StrictTotal(less)
    ensures Sorted(less, SortedSet(less, s))
    ensures forall x :: x in SortedSet(less, s) <==> x in s
    ensures |SortedSet(less, s)| == |s|
    decreases s
  {
    if s != {} {
      var x :| x in s && SortedSet(less, s) == Insert(less, SortedSet(less, s - {x}), x);
      SortedSetIs(less, s - {x});
      InsertSorted(less, SortedSet(less, s - {x}), x);
      InsertMembers(less, SortedSet(less, s - {x}), x);
    }
  }

  /** `sorted(keys)` */
  method SortSet<T(!new, ==)>(less: (T, T) -> bool, s: set<T>) returns (r: seq<T>)
    requires StrictTotal(less)
    ensures r == SortedSet(less, s)
    ensures Sorted(less, r) && forall x :: x in r <==> x in s
  {
    r := [];
    var todo := s;
    while todo != {}
      invariant todo <= s
      invariant Sorted(less, r) && forall x :: x in r <==> x in s - todo
      decreases todo
    {
      var x :| x in todo;
      InsertSorted(less, r, x);
      InsertMembers(less, r, x);
      r := Insert(less, r, x);
      todo := todo - {x};
    }
    SortedSetIs(less, s);
    SortedUnique(less, r, SortedSet(less, s));
  }

  // ---- text, by code point ----

  predicate TextLess(a: string, b: string) {
    b != "" && (a == "" || a[0] < b[0] || (a[0] == b[0] && TextLess(a[1..], b[1..])))
  }

  lemma {:induction false} TextLessIrreflexive(a: string)
    ensures !TextLess(a, a)
  {
    if a != "" { TextLessIrreflexive(a[1..]); }
  }

  lemma {:induction false} TextLessTotal(a: string, b: string)
    ensures a != b ==> TextLess(a, b) || TextLess(b, a)
  {
    if a != "" && b != "" && a[0] == b[0] {
      TextLessTotal(a[1..], b[1..]);
      assert a == [a[0]] + a[1..] && b == [b[0]] + b[1..];
    }
  }

  lemma {:induction false} TextLessTransitive(a: string, b: string, c: string)
    ensures TextLess(a, b) && TextLess(b, c) ==> TextLess(a, c)
  {
    if a != "" && b != "" && c != "" {
      TextLessTransitive(a[1..], b[1..], c[1..]);
    }
  }

  lemma TextIsOrdered()
    ensures StrictTotal(TextLess)
  {
    forall a ensures !TextLess(a, a) { TextLessIrreflexive(a); }
    forall a, b ensures a != b ==> TextLess(a, b) || TextLess(b, a) { TextLessTotal(a, b); }
    forall a, b, c ensures TextLess(a, b) && TextLess(b, c) ==> TextLess(a, c) { TextLessTransitive(a, b, c); }
  }
}

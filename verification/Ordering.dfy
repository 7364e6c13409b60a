/** Sorting by a total order, and dropping equal neighbours, as Go's `slices` does. */
module Ordering {

  ghost predicate TotalOrder<T(!new)>(le: (T, T) -> bool) {
    && (forall a, b :: le(a, b) || le(b, a))
    && (forall a, b :: le(a, b) && le(b, a) ==> a == b)
    && (forall a, b, c :: le(a, b) && le(b, c) ==> le(a, c))
  }

  ghost predicate Sorted<T(!new)>(s: seq<T>, le: (T, T) -> bool) {
    forall i, j :: 0 <= i < j < |s| ==> le(s[i], s[j])
  }

  /** Sorted without equal elements. */
  ghost predicate Ascending<T(!new)>(s: seq<T>, le: (T, T) -> bool) {
    Sorted(s, le) && Distinct(s)
  }

  predicate IntLe(a: int, b: int) {
    a <= b
  }

  function Insert<T>(x: T, s: seq<T>, le: (T, T) -> bool): (r: seq<T>)
    ensures multiset(r) == multiset(s) + multiset{x}
  {
    if s == [] then [x]
    else if le(x, s[0]) then
      [x] + s
    else
      assert s == [s[0]] + s[1..];
      [s[0]] + Insert(x, s[1..], le)
  }

  function Sort<T>(s: seq<T>, le: (T, T) -> bool): (r: seq<T>)
    ensures multiset(r) == multiset(s)
    ensures |r| == |s|
  {
    if s == [] then []
    else
      assert s == [s[0]] + s[1..];
      var r := Insert(s[0], Sort(s[1..], le), le);
      assert |multiset(r)| == |multiset(s)|;
      r
  }

  /** `slices.Compact`: of each run of equal neighbours, the first. */
  function Compact<T(==, !new)>(s: seq<T>): (r: seq<T>)
    ensures forall x :: x in r <==> x in s
    ensures s != [] ==> r != [] && r[0] == s[0]
  {
    if |s| < 2 then s
    else if s[0] == s[1] then Compact(s[1..])
    else [s[0]] + Compact(s[1..])
  }

  lemma SameElements<T(!new)>(a: seq<T>, b: seq<T>)
    requires multiset(a) == multiset(b)
    ensures forall x :: x in a <==> x in b
  {
    forall x ensures x in a <==> x in b {
      assert x in a <==> x in multiset(a);
    }
  }

  lemma {:induction false} InsertSorted<T(!new)>(x: T, s: seq<T>, le: (T, T) -> bool)
    requires TotalOrder(le) && Sorted(s, le)
    ensures Sorted(Insert(x, s, le), le)
  {
    if s != [] && !le(x, s[0]) {
      var r := Insert(x, s[1..], le);
      InsertSorted(x, s[1..], le);
      assert s == [s[0]] + s[1..];
      forall j | 0 <= j < |r| ensures le(s[0], r[j]) {
        assert r[j] in multiset(r);
      }
    }
  }

  lemma {:induction false} SortSorts<T(!new)>(s: seq<T>, le: (T, T) -> bool)
    requires TotalOrder(le)
    ensures Sorted(Sort(s, le), le)
    ensures forall x :: x in Sort(s, le) <==> x in s
  {
    SameElements(Sort(s, le), s);
    if s != [] {
      SortSorts(s[1..], le);
      InsertSorted(s[0], Sort(s[1..], le), le);
    }
  }

  ghost predicate Distinct<T(!new)>(s: seq<T>) {
    forall i, j :: 0 <= i < j < |s| ==> s[i] != s[j]
  }

  lemma {:induction false} InsertDistinct<T(!new)>(x: T, s: seq<T>, le: (T, T) -> bool)
    requires Distinct(s) && x !in s
    ensures Distinct(Insert(x, s, le))
  {
    if s != [] && !le(x, s[0]) {
      var r := Insert(x, s[1..], le);
      InsertDistinct(x, s[1..], le);
      forall j | 0 <= j < |r| ensures s[0] != r[j] {
        assert r[j] in multiset(r);
        assert r[j] == x || r[j] in s[1..];
      }
    }
  }

  /** Sorting distinct elements gives an ascending list of them. */
  lemma {:induction false} SortAscends<T(!new)>(s: seq<T>, le: (T, T) -> bool)
    requires TotalOrder(le) && Distinct(s)
    ensures Ascending(Sort(s, le), le)
    ensures forall x :: x in Sort(s, le) <==> x in s
  {
    SortSorts(s, le);
    if s != [] {
      SortAscends(s[1..], le);
      InsertDistinct(s[0], Sort(s[1..], le), le);
    }
  }

  lemma {:induction false} CompactAscends<T(!new)>(s: seq<T>, le: (T, T) -> bool)
    requires TotalOrder(le) && Sorted(s, le)
    ensures Ascending(Compact(s), le)
  {
    if |s| >= 2 {
      CompactAscends(s[1..], le);
      var r := Compact(s[1..]);
      if s[0] != s[1] {
        forall j | 0 <= j < |r| ensures le(s[0], r[j]) && s[0] != r[j] {
          assert r[j] in s[1..];
          var k :| 1 <= k < |s| && s[k] == r[j];
          assert le(s[0], s[1]) && le(s[1], s[k]);
        }
      }
    }
  }

  /** A list without equal elements is determined by its order and its elements. */
  lemma {:induction false} AscendingUnique<T(!new)>(a: seq<T>, b: seq<T>, le: (T, T) -> bool)
    requires TotalOrder(le) && Ascending(a, le) && Ascending(b, le)
    requires forall x :: x in a <==> x in b
    ensures a == b
  {
    assert a != [] ==> a[0] in b;
    assert b != [] ==> b[0] in a;
    if a != [] && b != [] {
      assert a[0] == b[0];
      forall x ensures x in a[1..] <==> x in b[1..] {
        assert x in a <==> x == a[0] || x in a[1..];
        assert x in b <==> x == b[0] || x in b[1..];
      }
      AscendingUnique(a[1..], b[1..], le);
    }
  }

  // ----- The elements of a set in order -----

  ghost predicate Lists<T(!new)>(r: seq<T>, s: set<T>, le: (T, T) -> bool) {
    Ascending(r, le) && (forall x :: x in r <==> x in s) && |r| == |s|
  }

  lemma {:induction false} ListExists<T(!new)>(s: set<T>, le: (T, T) -> bool)
    requires TotalOrder(le)
    ensures exists r :: Lists(r, s, le)
  {
    if s == {} {
      assert Lists([], s, le);
    } else {
      var x :| x in s;
      ListExists(s - {x}, le);
      var r :| Lists(r, s - {x}, le);
      InsertSorted(x, r, le);
      InsertDistinct(x, r, le);
      var t := Insert(x, r, le);
      SameElements(t, r + [x]);
      assert |multiset(t)| == |multiset(r)| + 1;
      assert Lists(t, s, le);
    }
  }

  ghost function ListOf<T(!new)>(s: set<T>, le: (T, T) -> bool): (r: seq<T>)
    requires TotalOrder(le)
    ensures Lists(r, s, le)
  {
    ListExists(s, le);
    var r :| Lists(r, s, le);
    r
  }

  /** Collecting and sorting a set gives the same list in whatever order its elements are met. */
  method SortSet<T(==, !new)>(s: set<T>, le: (T, T) -> bool) returns (r: seq<T>)
    requires TotalOrder(le)
    ensures r == ListOf(s, le)
  {
    var found := [];
    var todo := s;
    while todo != {}
      invariant todo <= s && Distinct(found)
      invariant forall x :: x in found <==> x in s && x !in todo
    {
      var x :| x in todo;
      found := found + [x];
      todo := todo - {x};
    }
    SortAscends(found, le);
    r := Sort(found, le);
    AscendingUnique(r, ListOf(s, le), le);
  }

  /** Two ascending lists, all of the first below all of the second. */
  lemma JoinAscending<T(!new)>(a: seq<T>, b: seq<T>, le: (T, T) -> bool)
    requires Ascending(a, le) && Ascending(b, le)
    requires forall i, j :: 0 <= i < |a| && 0 <= j < |b| ==> le(a[i], b[j]) && a[i] != b[j]
    ensures Ascending(a + b, le)
  {
    forall i, j | 0 <= i < j < |a + b| ensures le((a + b)[i], (a + b)[j]) && (a + b)[i] != (a + b)[j] {
      if j < |a| {
        assert le(a[i], a[j]) && a[i] != a[j];
      } else if i >= |a| {
        assert le(b[i - |a|], b[j - |a|]) && b[i - |a|] != b[j - |a|];
      }
    }
  }

  /** The list of a set around one of its elements. */
  lemma ListAround<T(!new)>(s: set<T>, x: T, low: set<T>, high: set<T>, le: (T, T) -> bool)
    requires TotalOrder(le) && x in s
    requires forall y :: y in low <==> y in s && le(y, x) && y != x
    requires forall y :: y in high <==> y in s && le(x, y) && y != x
    ensures ListOf(s, le) == ListOf(low, le) + [x] + ListOf(high, le)
  {
    var a, b := ListOf(low, le), ListOf(high, le);
    forall i | 0 <= i < |a| ensures le(a[i], x) && a[i] != x {
      assert a[i] in low;
    }
    forall j | 0 <= j < |b| ensures le(x, b[j]) && b[j] != x {
      assert b[j] in high;
    }
    JoinAscending([x], b, le);
    forall i, j | 0 <= i < |a| && 0 <= j < |[x] + b| ensures le(a[i], ([x] + b)[j]) && a[i] != ([x] + b)[j] {
      assert j > 0 ==> le(a[i], x) && le(x, b[j - 1]);
    }
    JoinAscending(a, [x] + b, le);
    assert a + ([x] + b) == a + [x] + b;
    forall y ensures y in a + [x] + b <==> y in ListOf(s, le) {
      assert y in a + [x] + b <==> y in a || y == x || y in b;
      assert y in s && y != x ==> le(y, x) || le(x, y);
    }
    AscendingUnique(ListOf(s, le), a + [x] + b, le);
  }
}

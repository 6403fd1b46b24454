/** Python's stable sort, the sorted elements of a collection, and string comparison. */
module Ordering {

  /** A total preorder: what a sort key induces. */
  ghost predicate Preorder<T(!new)>(le: (T, T) -> bool) {
    && (forall x, y :: le(x, y) || le(y, x))
    && (forall x, y, z :: le(x, y) && le(y, z) ==> le(x, z))
  }

  /** A total preorder whose ties are equalities. */
  ghost predicate Order<T(!new)>(le: (T, T) -> bool) {
    && Preorder(le)
    && (forall x, y :: le(x, y) && le(y, x) ==> x == y)
  }

  ghost predicate Sorted<T>(s: seq<T>, le: (T, T) -> bool) {
    forall i, j :: 0 <= i < j < |s| ==> le(s[i], s[j])
  }

  ghost predicate StrictlySorted<T>(s: seq<T>, le: (T, T) -> bool) {
    forall i, j :: 0 <= i < j < |s| ==> le(s[i], s[j]) && s[i] != s[j]
  }

  function Insert<T>(x: T, s: seq<T>, le: (T, T) -> bool): (r: seq<T>)
    ensures multiset(r) == multiset{x} + multiset(s)
  {
    if s == [] then [x]
    else if le(x, s[0]) then [x] + s
    else
      assert s == [s[0]] + s[1..];
      [s[0]] + Insert(x, s[1..], le)
  }

  /** Stable insertion sort. */
  function Sort<T>(s: seq<T>, le: (T, T) -> bool): (r: seq<T>)
    ensures multiset(r) == multiset(s) && |r| == |s|
  {
    if s == [] then []
    else
      assert s == [s[0]] + s[1..];
      var r := Insert(s[0], Sort(s[1..], le), le);
      assert |multiset(r)| == |r| && |multiset(s)| == |s|;
      r
  }

  lemma {:induction false} InsertSorted<T(!new)>(x: T, s: seq<T>, le: (T, T) -> bool)
    requires Preorder(le) && Sorted(s, le)
    ensures Sorted(Insert(x, s, le), le)
  {
    if s != [] && !le(x, s[0]) {
      InsertSorted(x, s[1..], le);
      var t := Insert(x, s[1..], le);
      forall k | 0 <= k < |t| ensures le(s[0], t[k]) {
        assert t[k] in multiset(t);
        assert t[k] == x || t[k] in s[1..];
      }
    }
  }

  lemma {:induction false} SortSorted<T(!new)>(s: seq<T>, le: (T, T) -> bool)
    requires Preorder(le)
    ensures Sorted(Sort(s, le), le)
  {
    if s != [] {
      SortSorted(s[1..], le);
      InsertSorted(s[0], Sort(s[1..], le), le);
    }
  }

  lemma SortMembers<T>(s: seq<T>, le: (T, T) -> bool)
    ensures forall x :: x in Sort(s, le) <==> x in s
  {
    forall x ensures x in Sort(s, le) <==> x in s {
      assert x in Sort(s, le) <==> x in multiset(Sort(s, le));
    }
  }

  lemma TailMultiset<T>(s: seq<T>)
    requires s != []
    ensures multiset(s[1..]) == multiset(s) - multiset{s[0]}
  {
    assert s == [s[0]] + s[1..];
  }

  /** Two arrangements of one multiset stay such after dropping a common element. */
  lemma DropMatching<T>(a: seq<T>, b: seq<T>) returns (i: nat)
    requires a != [] && multiset(a) == multiset(b)
    ensures i < |b| && b[i] == a[0] && multiset(a[1..]) == multiset(b[..i] + b[i + 1..])
  {
    assert a[0] in multiset(b);
    i :| 0 <= i < |b| && b[i] == a[0];
    TailMultiset(a);
    assert b == b[..i] + [b[i]] + b[i + 1..];
    assert multiset(b[..i] + b[i + 1..]) == multiset(b) - multiset{b[i]};
  }

  lemma EmptyMatch<T>(b: seq<T>)
    requires multiset(b) == multiset{}
    ensures b == []
  {
    assert |multiset(b)| == |b|;
  }

  lemma LeastFirst<T(!new)>(a: seq<T>, b: seq<T>, le: (T, T) -> bool)
    requires Sorted(a, le) && Sorted(b, le) && multiset(a) == multiset(b) && a != [] && b != []
    requires TiesAreEqual(a, le)
    ensures a[0] == b[0]
  {
    assert a[0] in multiset(b) && b[0] in multiset(a);
  }

  ghost predicate TiesAreEqual<T(!new)>(s: seq<T>, le: (T, T) -> bool) {
    forall x, y :: x in s && y in s && le(x, y) && le(y, x) ==> x == y
  }

  lemma TailTies<T(!new)>(s: seq<T>, le: (T, T) -> bool)
    requires s != [] && TiesAreEqual(s, le) && Sorted(s, le)
    ensures TiesAreEqual(s[1..], le) && Sorted(s[1..], le)
  {
    assert forall x :: x in s[1..] ==> x in s;
  }

  /** Two sorted arrangements of one multiset coincide when ties are equalities. */
  lemma {:induction false} SortedUnique<T(!new)>(a: seq<T>, b: seq<T>, le: (T, T) -> bool)
    requires Sorted(a, le) && Sorted(b, le) && multiset(a) == multiset(b)
    requires TiesAreEqual(a, le)
    ensures a == b
  {
    if a == [] {
      EmptyMatch(b);
    } else {
      assert b != [] by { assert a[0] in multiset(b); }
      LeastFirst(a, b, le);
      hide Sorted, TiesAreEqual;
      TailMultiset(a);
      TailMultiset(b);
      TailTies(a, le);
      assert Sorted(b[1..], le) by { TailSorted(b, le); }
      SortedUnique(a[1..], b[1..], le);
      assert a == [a[0]] + a[1..] && b == [b[0]] + b[1..];
    }
  }

  lemma TailSorted<T>(s: seq<T>, le: (T, T) -> bool)
    requires s != [] && Sorted(s, le)
    ensures Sorted(s[1..], le)
  {}

  /** Sorting does not depend on the input order when ties are equalities. */
  lemma SortOrderInsensitive<T(!new)>(a: seq<T>, b: seq<T>, le: (T, T) -> bool)
    requires Preorder(le) && multiset(a) == multiset(b)
    requires forall x, y :: x in a && y in a && le(x, y) && le(y, x) ==> x == y
    ensures Sort(a, le) == Sort(b, le)
  {
    SortSorted(a, le);
    SortSorted(b, le);
    SortMembers(a, le);
    SortedUnique(Sort(a, le), Sort(b, le), le);
  }

  lemma {:induction false} SortFixesSorted<T>(s: seq<T>, le: (T, T) -> bool)
    requires Sorted(s, le)
    ensures Sort(s, le) == s
  {
    if s != [] {
      SortFixesSorted(s[1..], le);
    }
  }

  /** Drops every element equal to its predecessor. */
  function Distinct<T(==)>(s: seq<T>): seq<T> {
    if |s| < 2 then s
    else if s[0] == s[1] then Distinct(s[1..])
    else [s[0]] + Distinct(s[1..])
  }

  lemma {:induction false} DistinctKeeps<T(!new)>(s: seq<T>, le: (T, T) -> bool)
    requires Order(le) && Sorted(s, le)
    ensures StrictlySorted(Distinct(s), le)
    ensures forall x :: x in Distinct(s) <==> x in s
  {
    if |s| >= 2 {
      DistinctKeeps(s[1..], le);
      var t := Distinct(s[1..]);
      assert s == [s[0]] + s[1..];
      if s[0] != s[1] {
        forall k | 0 <= k < |t| ensures le(s[0], t[k]) && s[0] != t[k] {
          assert t[k] in s[1..];
          assert le(s[0], s[1]) && le(s[1], t[k]);
        }
      }
    }
  }

  /** The distinct elements in order. */
  function SortedSet<T(==)>(s: seq<T>, le: (T, T) -> bool): seq<T> {
    Distinct(Sort(s, le))
  }

  lemma SortedSetSpec<T(!new)>(s: seq<T>, le: (T, T) -> bool)
    requires Order(le)
    ensures StrictlySorted(SortedSet(s, le), le)
    ensures forall x :: x in SortedSet(s, le) <==> x in s
  {
    SortSorted(s, le);
    SortMembers(s, le);
    DistinctKeeps(Sort(s, le), le);
  }

  /** A strictly sorted sequence is determined by its elements. */
  lemma {:induction false} StrictlySortedUnique<T(!new)>(a: seq<T>, b: seq<T>, le: (T, T) -> bool)
    requires Order(le) && StrictlySorted(a, le) && StrictlySorted(b, le)
    requires forall x :: x in a <==> x in b
    ensures a == b
  {
    assert b == [] || b[0] in b;
    if a != [] {
      assert a[0] in a;
      assert a[0] == b[0];
      assert a == [a[0]] + a[1..] && b == [b[0]] + b[1..];
      forall x ensures x in a[1..] <==> x in b[1..] {
        assert x in a[1..] <==> x in a && x != a[0];
        assert x in b[1..] <==> x in b && x != b[0];
      }
      StrictlySortedUnique(a[1..], b[1..], le);
    }
  }

  lemma SortedSetByElements<T(!new)>(a: seq<T>, b: seq<T>, le: (T, T) -> bool)
    requires Order(le)
    requires forall x :: x in a <==> x in b
    ensures SortedSet(a, le) == SortedSet(b, le)
  {
    SortedSetSpec(a, le);
    SortedSetSpec(b, le);
    StrictlySortedUnique(SortedSet(a, le), SortedSet(b, le), le);
  }

  /** Python's str comparison by code point. */
  predicate StringLe(a: string, b: string) {
    a == [] || (b != [] && (a[0] < b[0] || (a[0] == b[0] && StringLe(a[1..], b[1..]))))
  }

  lemma {:induction false} StringTotal(a: string, b: string)
    ensures StringLe(a, b) || StringLe(b, a)
    ensures StringLe(a, b) && StringLe(b, a) ==> a == b
  {
    if a != [] && b != [] {
      StringTotal(a[1..], b[1..]);
      assert a == [a[0]] + a[1..] && b == [b[0]] + b[1..];
    }
  }

  lemma {:induction false} StringTransitive(a: string, b: string, c: string)
    requires StringLe(a, b) && StringLe(b, c)
    ensures StringLe(a, c)
  {
    if a != [] && a[0] == b[0] && b[0] == c[0] {
      StringTransitive(a[1..], b[1..], c[1..]);
    }
  }

  lemma StringOrder()
    ensures Order(StringLe)
  {
    forall a, b ensures StringLe(a, b) || StringLe(b, a) { StringTotal(a, b); }
    forall a, b, c | StringLe(a, b) && StringLe(b, c) ensures StringLe(a, c) { StringTransitive(a, b, c); }
    forall a, b | StringLe(a, b) && StringLe(b, a) ensures a == b { StringTotal(a, b); }
  }

  /** The elements of a set of strings in order, collected one at a time. */
  method SortedStrings(s: set<string>) returns (r: seq<string>)
    ensures StrictlySorted(r, StringLe)
    ensures forall x :: x in r <==> x in s
  {
    var rest, found := s, [];
    while rest != {}
      invariant forall x :: x in s <==> x in rest || x in found
      decreases |rest|
    {
      var x :| x in rest;
      rest := rest - {x};
      found := found + [x];
    }
    StringOrder();
    SortedSetSpec(found, StringLe);
    r := SortedSet(found, StringLe);
  }
}

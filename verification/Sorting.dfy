/** The library's stable `sorted`, by a numeric key. */
module Sorting {

  function Insert<T>(key: T -> real, x: T, sorted: seq<T>): seq<T> {
    if sorted == [] || key(x) <= key(sorted[0]) then [x] + sorted else [sorted[0]] + Insert(key, x, sorted[1..])
  }

  function Sorted<T>(key: T -> real, s: seq<T>): seq<T> {
    if s == [] then [] else Insert(key, s[0], Sorted(key, s[1..]))
  }

  ghost predicate Ordered<T(!new)>(key: T -> real, s: seq<T>) {
    forall i, j :: 0 <= i < j < |s| ==> key(s[i]) <= key(s[j])
  }

  lemma {:induction false} InsertAdds<T(!new)>(key: T -> real, x: T, sorted: seq<T>)
    ensures multiset(Insert(key, x, sorted)) == multiset(sorted) + multiset{x}
  {
    if sorted != [] && key(x) > key(sorted[0]) {
      InsertAdds(key, x, sorted[1..]);
      assert sorted == [sorted[0]] + sorted[1..];
    }
  }

  lemma AddedIn<T>(more: seq<T>, x: T, s: seq<T>, k: nat)
    requires multiset(more) == multiset(s) + multiset{x} && k < |more|
    ensures more[k] == x || more[k] in s
  {
    assert more[k] in multiset(more);
  }

  lemma {:induction false} InsertOrders<T(!new)>(key: T -> real, x: T, sorted: seq<T>)
    requires Ordered(key, sorted)
    ensures Ordered(key, Insert(key, x, sorted))
  {
    if sorted != [] && key(x) > key(sorted[0]) {
      var rest := sorted[1..];
      var more := Insert(key, x, rest);
      InsertOrders(key, x, rest);
      InsertAdds(key, x, rest);
      forall k | 0 <= k < |more| ensures key(sorted[0]) <= key(more[k]) {
        AddedIn(more, x, rest, k);
      }
    }
  }

  lemma {:induction false} SortedKeeps<T(!new)>(key: T -> real, s: seq<T>)
    ensures multiset(Sorted(key, s)) == multiset(s)
    ensures |Sorted(key, s)| == |s|
  {
    if s != [] {
      SortedKeeps(key, s[1..]);
      InsertAdds(key, s[0], Sorted(key, s[1..]));
      assert s == [s[0]] + s[1..];
    }
    assert |multiset(Sorted(key, s))| == |multiset(s)|;
  }

  /** Sorting puts the elements in order and keeps them all. */
  lemma {:induction false} SortedIsOrdered<T(!new)>(key: T -> real, s: seq<T>)
    ensures Ordered(key, Sorted(key, s))
    ensures multiset(Sorted(key, s)) == multiset(s)
    ensures |Sorted(key, s)| == |s|
  {
    SortedKeeps(key, s);
    if s != [] {
      SortedIsOrdered(key, s[1..]);
      InsertOrders(key, s[0], Sorted(key, s[1..]));
    }
  }

  lemma LeastComesFirst<T(!new)>(key: T -> real, a: seq<T>, b: seq<T>)
    requires Ordered(key, a) && multiset(a) == multiset(b) && a != [] && b != []
    ensures key(a[0]) <= key(b[0])
  {
    assert b[0] in multiset(a);
  }

  lemma RestAlike<T>(a: seq<T>, b: seq<T>)
    requires a != [] && b != [] && a[0] == b[0] && multiset(a) == multiset(b)
    ensures multiset(a[1..]) == multiset(b[1..])
  {
    assert a == [a[0]] + a[1..] && b == [b[0]] + b[1..];
    assert multiset(a[1..]) == multiset(a) - multiset{a[0]};
  }

  /** Two ordered lists of the same elements, no two of them with one key, are the same list. */
  lemma {:induction false} OrderIsUnique<T(!new)>(key: T -> real, a: seq<T>, b: seq<T>)
    requires Ordered(key, a) && Ordered(key, b) && multiset(a) == multiset(b)
    requires forall x, y :: x in a && y in a && key(x) == key(y) ==> x == y
    ensures a == b
  {
    assert |multiset(a)| == |multiset(b)|;
    if a != [] {
      LeastComesFirst(key, a, b);
      LeastComesFirst(key, b, a);
      assert a[0] in a && b[0] in multiset(a);
      RestAlike(a, b);
      OrderIsUnique(key, a[1..], b[1..]);
    }
  }

  /** Sorting does not depend on the order of what is sorted, as long as keys tell elements apart. */
  lemma SortedIgnoresOrder<T(!new)>(key: T -> real, a: seq<T>, b: seq<T>)
    requires multiset(a) == multiset(b)
    requires forall x, y :: x in a && y in a && key(x) == key(y) ==> x == y
    ensures Sorted(key, a) == Sorted(key, b)
  {
    SortedIsOrdered(key, a);
    SortedIsOrdered(key, b);
    forall x | x in Sorted(key, a) ensures x in a {
      assert x in multiset(a);
    }
    OrderIsUnique(key, Sorted(key, a), Sorted(key, b));
  }
}

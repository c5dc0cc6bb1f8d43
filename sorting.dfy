/** The stable sort behind `Array.prototype.sort`. A comparator `cmp` is modelled by
    `leq(a, b) := cmp(a, b) <= 0` ("a may stay in front of b"); the sort is insertion
    sort, which keeps tied elements in their input order as the ECMAScript sort does. */
module Sorting {
  import opened Seqs

  /** `leq` relates any two values one way or the other and is transitive. */
  ghost predicate TotalPreorder<T(!new)>(leq: (T, T) -> bool) {
    && (forall a, b :: leq(a, b) || leq(b, a))
    && (forall a, b, c :: leq(a, b) && leq(b, c) ==> leq(a, c))
  }

  /** Every element may stay in front of every later one. */
  predicate SortedBy<T>(s: seq<T>, leq: (T, T) -> bool) {
    forall i, j :: 0 <= i < j < |s| ==> leq(s[i], s[j])
  }

  /** Puts `x` in front of the first element it may precede. */
  function Insert<T>(x: T, s: seq<T>, leq: (T, T) -> bool): (r: seq<T>)
    ensures |r| == |s| + 1
    ensures multiset(r) == multiset(s) + multiset{x}
  {
    if s == [] then [x]
    else if leq(x, s[0]) then [x] + s
    else
      assert s == [s[0]] + s[1..];
      [s[0]] + Insert(x, s[1..], leq)
  }

  /** Sorts `s` by `leq`; elements are never invented or lost. */
  function SortBy<T>(s: seq<T>, leq: (T, T) -> bool): (r: seq<T>)
    ensures |r| == |s|
    ensures multiset(r) == multiset(s)
  {
    if s == [] then []
    else
      assert s == [s[0]] + s[1..];
      Insert(s[0], SortBy(s[1..], leq), leq)
  }

  lemma {:induction false} InsertSorted<T(!new)>(x: T, s: seq<T>, leq: (T, T) -> bool)
    requires TotalPreorder(leq)
    requires SortedBy(s, leq)
    ensures SortedBy(Insert(x, s, leq), leq)
  {
    if s == [] {
    } else if leq(x, s[0]) {
      var r := [x] + s;
      forall i, j | 0 <= i < j < |r|
        ensures leq(r[i], r[j])
      {
        if i == 0 && j > 1 {
          assert leq(s[0], s[j - 1]);
        }
      }
    } else {
      var tail := Insert(x, s[1..], leq);
      InsertSorted(x, s[1..], leq);
      var r := [s[0]] + tail;
      assert leq(s[0], x);
      forall j | 0 <= j < |tail|
        ensures leq(s[0], tail[j])
      {
        assert tail[j] in multiset(tail);
        if tail[j] != x {
          assert tail[j] in multiset(s[1..]);
          var k :| 0 <= k < |s[1..]| && s[1..][k] == tail[j];
          assert s[k + 1] == tail[j];
        }
      }
      forall i, j | 0 <= i < j < |r|
        ensures leq(r[i], r[j])
      {
        if i > 0 {
          assert r[i] == tail[i - 1] && r[j] == tail[j - 1];
        } else {
          assert r[j] == tail[j - 1];
        }
      }
    }
  }

  /** For a total preorder the result of `SortBy` is sorted. */
  lemma {:induction false} SortBySorted<T(!new)>(s: seq<T>, leq: (T, T) -> bool)
    requires TotalPreorder(leq)
    ensures SortedBy(SortBy(s, leq), leq)
  {
    if s != [] {
      SortBySorted(s[1..], leq);
      InsertSorted(s[0], SortBy(s[1..], leq), leq);
    }
  }

  /** Reordering never joins two elements with equal keys. */
  lemma SortByKeepsDistinctBy<T, K>(s: seq<T>, leq: (T, T) -> bool, key: T -> K)
    requires DistinctBy(s, key)
    ensures DistinctBy(SortBy(s, leq), key)
  {
    PermutationKeepsDistinctBy(s, SortBy(s, leq), key);
  }

  lemma {:induction false} InsertMap<A, B>(x: A, s: seq<A>, f: A -> B, leqA: (A, A) -> bool, leqB: (B, B) -> bool)
    requires forall a, b :: leqB(f(a), f(b)) == leqA(a, b)
    ensures Insert(f(x), MapSeq(s, f), leqB) == MapSeq(Insert(x, s, leqA), f)
  {
    if s != [] {
      var fs := MapSeq(s, f);
      assert fs[0] == f(s[0]);
      assert fs[1..] == MapSeq(s[1..], f);
      InsertMap(x, s[1..], f, leqA, leqB);
    }
  }

  /** Sorting by a key that a map does not change commutes with the map. */
  lemma {:induction false} SortByMap<A, B>(s: seq<A>, f: A -> B, leqA: (A, A) -> bool, leqB: (B, B) -> bool)
    requires forall a, b :: leqB(f(a), f(b)) == leqA(a, b)
    ensures SortBy(MapSeq(s, f), leqB) == MapSeq(SortBy(s, leqA), f)
  {
    if s != [] {
      var fs := MapSeq(s, f);
      assert fs[0] == f(s[0]);
      assert fs[1..] == MapSeq(s[1..], f);
      SortByMap(s[1..], f, leqA, leqB);
      InsertMap(s[0], SortBy(s[1..], leqA), f, leqA, leqB);
    }
  }

  /** The elements tied with `x0`: each may stay in front of the other. */
  function Tied<T>(leq: (T, T) -> bool, x0: T): T -> bool {
    (y: T) => leq(y, x0) && leq(x0, y)
  }

  /** Inserting `x` passes over no element tied with `x0` when `x` is tied with it. */
  lemma {:induction false} InsertKeepsTiedOrder<T(!new)>(x: T, t: seq<T>, leq: (T, T) -> bool, x0: T)
    requires forall y :: leq(x, x0) && leq(x0, y) ==> leq(x, y)
    ensures Filter(Insert(x, t, leq), Tied(leq, x0))
         == (if Tied(leq, x0)(x) then [x] else []) + Filter(t, Tied(leq, x0))
  {
    var p := Tied(leq, x0);
    if t != [] {
      if leq(x, t[0]) {
        FilterCons(x, t, p);
      } else {
        var rest := Insert(x, t[1..], leq);
        InsertKeepsTiedOrder(x, t[1..], leq, x0);
        FilterCons(t[0], rest, p);
        FilterCons(t[0], t[1..], p);
        assert [t[0]] + t[1..] == t;
        if p(x) {
          assert !p(t[0]);
        }
      }
    }
  }

  /** Stability: the elements of each tie class leave the sort in their input order. */
  lemma {:induction false} SortByStable<T(!new)>(s: seq<T>, leq: (T, T) -> bool, x0: T)
    requires TotalPreorder(leq)
    ensures Filter(SortBy(s, leq), Tied(leq, x0)) == Filter(s, Tied(leq, x0))
  {
    if s != [] {
      SortByStable(s[1..], leq, x0);
      assert forall y :: leq(s[0], x0) && leq(x0, y) ==> leq(s[0], y);
      InsertKeepsTiedOrder(s[0], SortBy(s[1..], leq), leq, x0);
    }
  }

  /** Two sorted arrangements of the same elements start with the same element or with
      elements tied with each other. */
  lemma SortedHeadsTie<T>(a: seq<T>, b: seq<T>, leq: (T, T) -> bool)
    requires SortedBy(a, leq) && SortedBy(b, leq)
    requires multiset(a) == multiset(b) && a != []
    ensures b != [] && (a[0] == b[0] || (leq(a[0], b[0]) && leq(b[0], a[0])))
  {
    assert a[0] in multiset(b);
    assert a[0] in b;
    var k :| 0 <= k < |b| && b[k] == a[0];
    assert b[0] in multiset(a);
    assert b[0] in a;
    var j :| 0 <= j < |a| && a[j] == b[0];
    assert k == 0 || leq(b[0], b[k]);
    assert j == 0 || leq(a[0], a[j]);
  }

  /** Removing the same first element from two arrangements of one multiset leaves two
      arrangements of one multiset. */
  lemma SameTails<T>(a: seq<T>, b: seq<T>)
    requires a != [] && b != [] && a[0] == b[0] && multiset(a) == multiset(b)
    ensures multiset(a[1..]) == multiset(b[1..])
  {
    assert a == [a[0]] + a[1..] && b == [b[0]] + b[1..];
    forall x ensures multiset(a[1..])[x] == multiset(b[1..])[x] {
      assert multiset(a)[x] == multiset(b)[x];
    }
  }

  /** When `leq` ties no two distinct elements, a sorted arrangement is unique. */
  lemma {:induction false} SortedUnique<T>(a: seq<T>, b: seq<T>, leq: (T, T) -> bool)
    requires SortedBy(a, leq) && SortedBy(b, leq)
    requires multiset(a) == multiset(b)
    requires forall x, y :: x in a && y in a && leq(x, y) && leq(y, x) ==> x == y
    ensures a == b
  {
    if a != [] {
      SortedHeadsTie(a, b, leq);
      assert b[0] in multiset(a);
      assert a[0] in a && b[0] in a;
      SameTails(a, b);
      assert forall x :: x in a[1..] ==> x in a;
      SortedUnique(a[1..], b[1..], leq);
      assert a == [a[0]] + a[1..] && b == [b[0]] + b[1..];
    }
  }

  /** Sorting by the converse order reverses the sort, when no two distinct elements tie. */
  lemma SortByConverse<T(!new)>(s: seq<T>, up: (T, T) -> bool, down: (T, T) -> bool)
    requires TotalPreorder(up) && TotalPreorder(down)
    requires forall a, b :: down(a, b) == up(b, a)
    requires forall x, y :: x in s && y in s && up(x, y) && up(y, x) ==> x == y
    ensures Reverse(SortBy(s, up)) == SortBy(s, down)
  {
    var ascending := SortBy(s, up);
    var mirrored := Reverse(ascending);
    SortBySorted(s, up);
    SortBySorted(s, down);
    forall i, j | 0 <= i < j < |mirrored|
      ensures down(mirrored[i], mirrored[j])
    {
      assert up(ascending[|s| - 1 - j], ascending[|s| - 1 - i]);
    }
    forall x, y | x in mirrored && y in mirrored && down(x, y) && down(y, x)
      ensures x == y
    {
      assert x in multiset(s) && y in multiset(s);
    }
    SortedUnique(mirrored, SortBy(s, down), down);
  }
}

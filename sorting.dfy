/**
 * Python's sorted(): a stable insertion sort by key, and sorted(set(xs)) as the strictly
 * increasing sequence of a finite set of ids.
 */
module Sorting {

  /** Sorted and free of duplicates: the shape of every id list the tools produce. */
  predicate Increasing(xs: seq<nat>) {
    forall i, j :: 0 <= i < j < |xs| ==> xs[i] < xs[j]
  }

  function Elems<T>(xs: seq<T>): set<T> {
    set x | x in xs
  }

  predicate SortedBy<T>(xs: seq<T>, key: T -> int) {
    forall i, j :: 0 <= i < j < |xs| ==> key(xs[i]) <= key(xs[j])
  }

  function Identity(x: nat): int {
    x
  }

  /** Inserts `x` in front of the first element whose key is not smaller. */
  function InsertBy<T>(x: T, xs: seq<T>, key: T -> int): (r: seq<T>)
    requires SortedBy(xs, key)
    ensures SortedBy(r, key)
    ensures |r| == |xs| + 1 && (r[0] == x || (xs != [] && r[0] == xs[0]))
  {
    if xs == [] || key(x) <= key(xs[0]) then [x] + xs
    else
      var rest := InsertBy(x, xs[1..], key);
      [xs[0]] + rest
  }

  /** Insertion adds `x` and loses nothing. */
  lemma {:induction false} InsertByPermutes<T>(x: T, xs: seq<T>, key: T -> int)
    requires SortedBy(xs, key)
    ensures multiset(InsertBy(x, xs, key)) == multiset(xs) + multiset{x}
  {
    if xs != [] && key(x) > key(xs[0]) {
      var rest := InsertBy(x, xs[1..], key);
      InsertByPermutes(x, xs[1..], key);
      assert InsertBy(x, xs, key) == [xs[0]] + rest;
      HeadTail(xs);
    }
  }

  /** Python's sorted(xs, key=key): ordered by key (`SortByPermutes`: and a permutation of `xs`). */
  function SortBy<T>(xs: seq<T>, key: T -> int): (r: seq<T>)
    ensures SortedBy(r, key) && |r| == |xs|
  {
    if xs == [] then [] else InsertBy(xs[0], SortBy(xs[1..], key), key)
  }

  /** Sorting keeps every element with its multiplicity. */
  lemma {:induction false} SortByPermutes<T>(xs: seq<T>, key: T -> int)
    ensures multiset(SortBy(xs, key)) == multiset(xs)
  {
    if xs != [] {
      var rest := SortBy(xs[1..], key);
      SortByPermutes(xs[1..], key);
      InsertByPermutes(xs[0], rest, key);
      HeadTail(xs);
    }
  }

  lemma HeadTail<T>(xs: seq<T>)
    requires xs != []
    ensures multiset(xs) == multiset(xs[1..]) + multiset{xs[0]}
  {
    assert xs == [xs[0]] + xs[1..];
  }

  /** A non-empty sequence is its front with its last element appended. */
  lemma FrontLast<T>(xs: seq<T>)
    requires xs != []
    ensures xs == xs[..|xs| - 1] + [xs[|xs| - 1]]
    ensures multiset(xs) == multiset(xs[..|xs| - 1]) + multiset{xs[|xs| - 1]}
  {
    assert xs == xs[..|xs| - 1] + [xs[|xs| - 1]];
  }

  /** Sorting a sequence that is already sorted leaves it unchanged. */
  lemma {:induction false} SortBySorted<T>(xs: seq<T>, key: T -> int)
    requires SortedBy(xs, key)
    ensures SortBy(xs, key) == xs
  {
    if xs != [] {
      SortBySorted(xs[1..], key);
    }
  }

  /** `m` is the least element of `s`. */
  predicate IsLeast(s: set<nat>, m: nat) {
    m in s && forall y :: y in s ==> m <= y
  }

  lemma {:induction false} HasMinimum(s: set<nat>)
    requires s != {}
    ensures exists m :: IsLeast(s, m)
  {
    var x :| x in s;
    var rest := s - {x};
    if rest == {} {
      forall y | y in s
        ensures x <= y
      {
        assert y !in rest;
      }
      assert IsLeast(s, x);
    } else {
      HasMinimum(rest);
      var m :| IsLeast(rest, m);
      var least := if x < m then x else m;
      forall y | y in s
        ensures least <= y
      {
        if y != x {
          assert y in rest;
        }
      }
      assert IsLeast(s, least);
    }
  }

  /** min() of a non-empty set of ids. */
  function MinOf(s: set<nat>): (m: nat)
    requires s != {}
    ensures IsLeast(s, m)
  {
    HasMinimum(s);
    var m :| IsLeast(s, m);
    m
  }

  lemma ElemsEmpty<T>(xs: seq<T>)
    ensures Elems(xs) == {} <==> xs == []
  {
    if xs != [] {
      assert xs[0] in Elems(xs);
    }
  }

  /** sorted(s) for a set of ids: its elements in increasing order. */
  function SortedSet(s: set<nat>): (r: seq<nat>)
    ensures Increasing(r) && Elems(r) == s && |r| == |s|
    decreases |s|
  {
    if s == {} then []
    else
      var m := MinOf(s);
      LeastBelowRest(s, m);
      var rest := SortedSet(s - {m});
      AddFront(s, m, rest);
      [m] + rest
  }

  lemma LeastBelowRest(s: set<nat>, m: nat)
    requires IsLeast(s, m)
    ensures |s - {m}| == |s| - 1
  {
  }

  /** Putting the least element in front of the sorted rest gives the sorted whole. */
  lemma AddFront(s: set<nat>, m: nat, rest: seq<nat>)
    requires IsLeast(s, m)
    requires Increasing(rest) && Elems(rest) == s - {m} && |rest| == |s| - 1
    ensures Increasing([m] + rest)
    ensures Elems([m] + rest) == s
    ensures |[m] + rest| == |s|
  {
    forall k | 0 <= k < |rest|
      ensures m < rest[k]
    {
      assert rest[k] in Elems(rest);
    }
    assert Elems([m] + rest) == {m} + Elems(rest);
  }

  /** An increasing sequence is sorted by value. */
  lemma IncreasingSortedBy(xs: seq<nat>)
    requires Increasing(xs)
    ensures SortedBy(xs, Identity)
  {
    forall i, j | 0 <= i < j < |xs|
      ensures Identity(xs[i]) <= Identity(xs[j])
    {
      assert xs[i] < xs[j];
    }
  }

  /** Two increasing runs, the first wholly below the second, make an increasing run. */
  lemma IncreasingAppend(a: seq<nat>, b: seq<nat>)
    requires Increasing(a) && Increasing(b)
    requires forall x, y :: x in a && y in b ==> x < y
    ensures Increasing(a + b)
  {
    forall i, j | 0 <= i < j < |a + b|
      ensures (a + b)[i] < (a + b)[j]
    {
      if j >= |a| && i < |a| {
        assert a[i] in a && b[j - |a|] in b;
      }
    }
  }

  lemma ElemsConcat<T>(a: seq<T>, b: seq<T>)
    ensures Elems(a + b) == Elems(a) + Elems(b)
  {
  }

  /** An increasing sequence is determined by its elements. */
  lemma {:induction false} IncreasingUnique(a: seq<nat>, b: seq<nat>)
    requires Increasing(a) && Increasing(b) && Elems(a) == Elems(b)
    ensures a == b
  {
    ElemsEmpty(a);
    ElemsEmpty(b);
    if a != [] {
      assert a[0] in Elems(b) && b[0] in Elems(a);
      var i :| 0 <= i < |b| && b[i] == a[0];
      var j :| 0 <= j < |a| && a[j] == b[0];
      assert a[0] == b[0];
      ElemsTail(a);
      ElemsTail(b);
      IncreasingUnique(a[1..], b[1..]);
      assert a == [a[0]] + a[1..] && b == [b[0]] + b[1..];
    }
  }

  /** Dropping the head of an increasing sequence removes exactly the least element. */
  lemma ElemsTail(a: seq<nat>)
    requires Increasing(a) && a != []
    ensures Increasing(a[1..]) && Elems(a[1..]) == Elems(a) - {a[0]}
  {
    assert a == [a[0]] + a[1..];
    assert forall x :: x in a[1..] ==> x != a[0];
  }

  /** sorted(set(xs)) is the increasing sequence of the elements of `xs`. */
  lemma SortedSetOfIncreasing(xs: seq<nat>)
    requires Increasing(xs)
    ensures SortedSet(Elems(xs)) == xs
  {
    IncreasingUnique(SortedSet(Elems(xs)), xs);
  }
}

/** Iteration order of ordered sets and maps: the ascending enumeration. */
module Sorted {
  import opened Words

  predicate Increasing(xs: seq<int>) {
    forall i, j :: 0 <= i < j < |xs| ==> xs[i] < xs[j]
  }

  predicate NoDup<T(==)>(xs: seq<T>) {
    forall i, j :: 0 <= i < j < |xs| ==> xs[i] != xs[j]
  }

  ghost predicate SameElements<T(!new)>(a: seq<T>, b: seq<T>) {
    forall x :: x in a <==> x in b
  }

  function ElementsOf<T>(xs: seq<T>): set<T> {
    set x | x in xs
  }

  ghost predicate IsMin(m: u64, s: set<u64>) {
    m in s && forall y :: y in s ==> m <= y
  }

  lemma {:induction false} MinExists(s: set<u64>)
    requires s != {}
    ensures exists m :: IsMin(m, s)
  {
    var x :| x in s;
    var t := s - {x};
    assert forall y :: y in s ==> y == x || y in t;
    if t == {} {
      assert IsMin(x, s);
    } else {
      MinExists(t);
      var m :| IsMin(m, t);
      assert IsMin(if x < m then x else m, s);
    }
  }

  ghost function MinOf(s: set<u64>): (m: u64)
    requires s != {}
    ensures IsMin(m, s)
  {
    MinExists(s);
    var m :| IsMin(m, s);
    m
  }

  /** The elements of a set, least first. */
  ghost function Ascending(s: set<u64>): seq<u64> {
    if s == {} then [] else [MinOf(s)] + Ascending(s - {MinOf(s)})
  }

  lemma {:induction false} AscendingIs(s: set<u64>)
    ensures |Ascending(s)| == |s|
    ensures forall x :: x in Ascending(s) <==> x in s
    ensures Increasing(Ascending(s))
  {
    if s != {} {
      var m, rest := MinOf(s), Ascending(s - {MinOf(s)});
      AscendingIs(s - {m});
      forall j | 0 <= j < |rest| ensures m < rest[j] {
        assert rest[j] in rest;
      }
    }
  }

  lemma IncreasingNoDup(xs: seq<int>)
    requires Increasing(xs)
    ensures NoDup(xs)
  {
  }

  lemma {:induction false} IncreasingUnique(a: seq<int>, b: seq<int>)
    requires Increasing(a) && Increasing(b) && SameElements(a, b)
    ensures a == b
    decreases |a|
  {
    assert |a| > 0 ==> a[0] in a;
    assert |b| > 0 ==> b[0] in b;
    if a == [] {
      assert b == [];
    } else {
      assert a[0] in a;
      var j :| 0 <= j < |b| && b[j] == a[0];
      assert b[0] in b;
      var i :| 0 <= i < |a| && a[i] == b[0];
      assert a[0] == b[0];
      forall x ensures x in a[1..] <==> x in b[1..] {
        TailElements(a, x);
        TailElements(b, x);
      }
      IncreasingUnique(a[1..], b[1..]);
      assert a == [a[0]] + a[1..] && b == [b[0]] + b[1..];
    }
  }

  lemma TailElements(a: seq<int>, x: int)
    requires a != [] && Increasing(a)
    ensures x in a[1..] <==> x in a && x != a[0]
  {
    if x in a[1..] {
      var i :| 0 <= i < |a[1..]| && a[1..][i] == x;
      assert a[i + 1] == x && a[0] < a[i + 1];
    }
    if x in a && x != a[0] {
      var i :| 0 <= i < |a| && a[i] == x;
      assert a[1..][i - 1] == x;
    }
  }

  lemma {:induction false} ElementsCount<T>(xs: seq<T>)
    requires NoDup(xs)
    ensures |ElementsOf(xs)| == |xs|
    decreases |xs|
  {
    if xs != [] {
      var n := |xs| - 1;
      ElementsCount(xs[..n]);
      assert xs == xs[..n] + [xs[n]];
      assert ElementsOf(xs) == ElementsOf(xs[..n]) + {xs[n]};
      assert xs[n] !in xs[..n];
    }
  }
}

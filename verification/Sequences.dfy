/** Small facts about sequences shared by several models. */
module Sequences {

  predicate Distinct<T(==)>(q: seq<T>) {
    forall i, j | 0 <= i < j < |q| :: q[i] != q[j]
  }

  /** Distinct numbers from 1 to `n` are at most `n` many. */
  lemma {:induction false} DistinctFits(q: seq<nat>, n: nat)
    requires Distinct(q) && forall k | 0 <= k < |q| :: 1 <= q[k] <= n
    ensures |q| <= n
    decreases n
  {
    if n == 0 {
    } else if n in q {
      var at :| 0 <= at < |q| && q[at] == n;
      var r := q[..at] + q[at + 1..];
      assert forall k | 0 <= k < |r| :: r[k] == q[if k < at then k else k + 1];
      DistinctFits(r, n - 1);
    } else {
      DistinctFits(q, n - 1);
    }
  }

  /** A sequence without repetitions is as long as the set of its elements is large. */
  lemma {:induction false} DistinctCount<T>(q: seq<T>, s: set<T>)
    requires Distinct(q) && forall x :: x in q <==> x in s
    ensures |q| == |s|
  {
    if q == [] {
      assert s == {};
    } else {
      var x, rest := q[0], q[1..];
      assert q == [x] + rest;
      assert x !in rest;
      DistinctCount(rest, s - {x});
    }
  }

  lemma DistinctCons<T>(x: T, q: seq<T>)
    requires Distinct(q) && x !in q
    ensures Distinct([x] + q)
  {
    var r := [x] + q;
    forall i, j | 0 <= i < j < |r| ensures r[i] != r[j] {
      assert r[j] == q[j - 1];
    }
  }

  /** The list with the first occurrence of `x` taken out. */
  function Without(list: seq<nat>, x: nat): (r: seq<nat>)
    ensures x !in list ==> r == list
  {
    if list == [] then [] else if list[0] == x then list[1..] else [list[0]] + Without(list[1..], x)
  }

  lemma {:induction false} WithoutOne(list: seq<nat>, x: nat)
    requires Distinct(list)
    ensures Distinct(Without(list, x)) && forall y :: y in Without(list, x) <==> y in list && y != x
    ensures x in list ==> |Without(list, x)| == |list| - 1
  {
    if list == [] {
    } else {
      assert list == [list[0]] + list[1..];
      WithoutOne(list[1..], x);
      if list[0] != x {
        DistinctCons(list[0], Without(list[1..], x));
      }
    }
  }
}

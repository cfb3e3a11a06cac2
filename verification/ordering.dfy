/**
 * The visiting order of one smoothing pass: the descriptors sorted by user
 * count, largest first, with `sorted(..., reverse=True)`. Python's sort is
 * stable also when reversed, so descriptors with equal counts keep their
 * insertion order. Descriptors are named by their insertion position.
 */
module Ordering {

  /** Position `i` is visited before position `j`. */
  predicate Before(c: seq<int>, i: nat, j: nat)
    requires i < |c| && j < |c|
  {
    c[i] > c[j] || (c[i] == c[j] && i < j)
  }

  predicate InRange(order: seq<nat>, n: nat) {
    forall a :: 0 <= a < |order| ==> order[a] < n
  }

  predicate Distinct(order: seq<nat>) {
    forall a, b :: 0 <= a < b < |order| ==> order[a] != order[b]
  }

  predicate Sorted(c: seq<int>, order: seq<nat>)
    requires InRange(order, |c|)
  {
    forall a, b :: 0 <= a < b < |order| ==> Before(c, order[a], order[b])
  }

  /** `order` lists every position of `c` exactly once. */
  predicate Permutation(c: seq<int>, order: seq<nat>) {
    InRange(order, |c|) && Distinct(order) && forall i :: 0 <= i < |c| ==> i in order
  }

  /** Insert position `i` in front of the first position it comes before. */
  function Insert(c: seq<int>, i: nat, order: seq<nat>): (r: seq<nat>)
    requires i < |c| && InRange(order, |c|)
    ensures |r| == |order| + 1 && InRange(r, |c|)
    ensures forall x :: x in r <==> x == i || x in order
    ensures i !in order && Distinct(order) ==> Distinct(r)
    ensures i !in order && Sorted(c, order) ==> Sorted(c, r)
    decreases |order|
  {
    if |order| == 0 then [i]
    else if Before(c, i, order[0]) then [i] + order
    else
      var rest := Insert(c, i, order[1..]);
      assert forall a :: 1 <= a < |order| ==> order[a] == order[1..][a - 1];
      assert Distinct(order) ==> Distinct(order[1..]) && order[0] !in order[1..];
      assert Sorted(c, order) ==> Sorted(c, order[1..]);
      assert Sorted(c, order) ==> forall x :: x in order[1..] ==> Before(c, order[0], x);
      assert Before(c, order[0], i) || order[0] == i;
      [order[0]] + rest
  }

  /** Insertion sort of the positions `0 .. m-1`. */
  function SortPrefix(c: seq<int>, m: nat): (r: seq<nat>)
    requires m <= |c|
    ensures |r| == m && InRange(r, m) && InRange(r, |c|)
    ensures Distinct(r) && Sorted(c, r)
    ensures forall i :: 0 <= i < m ==> i in r
    decreases m
  {
    if m == 0 then []
    else
      var prev := SortPrefix(c, m - 1);
      var r := Insert(c, m - 1, prev);
      assert forall a :: 0 <= a < |r| ==> r[a] in r;
      r
  }

  /** The visiting order: every position once, sorted by count descending, ties by position. */
  function Order(c: seq<int>): (r: seq<nat>)
    ensures Permutation(c, r) && Sorted(c, r)
  {
    SortPrefix(c, |c|)
  }

  /**
   * A sorted permutation is unique: any arrangement of the positions that
   * is sorted by count descending and stable is the visiting order.
   */
  lemma OrderUnique(c: seq<int>, order: seq<nat>)
    requires Permutation(c, order) && Sorted(c, order)
    ensures order == Order(c)
  {
    SortedUnique(c, order, Order(c));
  }

  /** The first position of a sorted order comes before every other one in it. */
  lemma SortedHead(c: seq<int>, order: seq<nat>, x: nat)
    requires InRange(order, |c|) && Sorted(c, order)
    requires x in order
    ensures x < |c|
    ensures x == order[0] || Before(c, order[0], x)
  {
    var a :| 0 <= a < |order| && order[a] == x;
    assert a == 0 || Before(c, order[0], order[a]);
  }

  /** Two sorted permutations of the same positions start with the same position. */
  lemma SortedHeads(c: seq<int>, p: seq<nat>, q: seq<nat>)
    requires InRange(p, |c|) && InRange(q, |c|)
    requires Sorted(c, p) && Sorted(c, q)
    requires |p| > 0 && |q| > 0
    requires forall x :: x in p <==> x in q
    ensures p[0] == q[0]
  {
    assert p[0] in p && q[0] in q;
    SortedHead(c, q, p[0]);
    SortedHead(c, p, q[0]);
  }

  lemma {:induction false} SortedUnique(c: seq<int>, p: seq<nat>, q: seq<nat>)
    requires InRange(p, |c|) && InRange(q, |c|)
    requires Distinct(p) && Distinct(q) && Sorted(c, p) && Sorted(c, q)
    requires forall x :: x in p <==> x in q
    ensures p == q
    decreases |p|
  {
    assert |q| > 0 ==> q[0] in q;
    if |p| > 0 {
      assert p[0] in p;
      assert |q| > 0;
      SortedHeads(c, p, q);
      forall x
        ensures x in p[1..] <==> x in q[1..]
      {
        if x in p[1..] {
          var a :| 1 <= a < |p| && p[a] == x;
          assert x in q && x != q[0];
        }
        if x in q[1..] {
          var a :| 1 <= a < |q| && q[a] == x;
          assert x in p && x != p[0];
        }
      }
      SortedUnique(c, p[1..], q[1..]);
      assert p == [p[0]] + p[1..] && q == [q[0]] + q[1..];
    }
  }
}

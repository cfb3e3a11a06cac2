/**
 * User allocation (grizzly_cli/utils.py, `distribution_of_users_per_scenario`):
 * each descriptor first gets `ceil(B * (w / T))` users, `B` the budget and
 * `T` the total weight; then, while the counts add up to more than `B`,
 * passes over the descriptors sorted by count (largest first, stable) take
 * one user from every descriptor that has more than one, until the excess
 * is gone.
 *
 * Counts are listed by descriptor insertion position.
 */
module Allocation {
  import opened Numbers
  import opened Ordering

  /** `ceil(budget * (w / total))` for every weight `w`. */
  function Ceilings(weights: seq<int>, budget: int, total: int): (c: seq<int>)
    requires total != 0
    ensures |c| == |weights|
    ensures forall i :: 0 <= i < |weights| ==> c[i] == CeilDiv(budget * weights[i], total)
    decreases |weights|
  {
    if |weights| == 0 then []
    else [CeilDiv(budget * weights[0], total)] + Ceilings(weights[1..], budget, total)
  }

  /** The first allocation, before smoothing. */
  function Provisional(weights: seq<int>, budget: int): (c: seq<int>)
    requires Sum(weights) != 0
    ensures |c| == |weights|
    ensures forall i :: 0 <= i < |weights| ==> c[i] == CeilDiv(budget * weights[i], Sum(weights))
  {
    Ceilings(weights, budget, Sum(weights))
  }

  lemma Distribute3(a: int, b: int, t: int)
    ensures (a + b) * t == a * t + b * t
    ensures t * (a + b) == t * a + t * b
    ensures (a - 1) * t == a * t - t
  {
  }

  /**
   * Scaled by a positive total, the rounded-up shares exceed the exact
   * shares by less than one total per descriptor.
   */
  lemma {:induction false} CeilingsAbove(weights: seq<int>, budget: int, total: int)
    requires total > 0
    ensures budget * Sum(weights) <= Sum(Ceilings(weights, budget, total)) * total
    ensures Sum(Ceilings(weights, budget, total)) * total <= budget * Sum(weights) + |weights| * total
    ensures |weights| > 0 ==> Sum(Ceilings(weights, budget, total)) * total < budget * Sum(weights) + |weights| * total
    decreases |weights|
  {
    if |weights| > 0 {
      var rest := weights[1..];
      CeilingsAbove(rest, budget, total);
      var c0 := CeilDiv(budget * weights[0], total);
      var s' := Sum(Ceilings(rest, budget, total));
      assert Ceilings(weights, budget, total)[1..] == Ceilings(rest, budget, total);
      assert Sum(Ceilings(weights, budget, total)) * total == c0 * total + s' * total by {
        assert Sum(Ceilings(weights, budget, total)) == c0 + s';
        Distribute3(c0, s', total);
      }
      Distribute3(c0, s', total);
      assert budget * Sum(weights) == budget * weights[0] + budget * Sum(rest) by {
        Distribute3(weights[0], Sum(rest), budget);
      }
      assert |weights| * total == total + |rest| * total by {
        Distribute3(1, |rest|, total);
      }

    }
  }

  /** The same for a negative total, where multiplying by it reverses the order. */
  lemma {:induction false} CeilingsBelow(weights: seq<int>, budget: int, total: int)
    requires total < 0
    ensures Sum(Ceilings(weights, budget, total)) * total <= budget * Sum(weights)
    ensures budget * Sum(weights) <= Sum(Ceilings(weights, budget, total)) * total - |weights| * total
    ensures |weights| > 0 ==> budget * Sum(weights) < Sum(Ceilings(weights, budget, total)) * total - |weights| * total
    decreases |weights|
  {
    if |weights| > 0 {
      var rest := weights[1..];
      CeilingsBelow(rest, budget, total);
      var c0 := CeilDiv(budget * weights[0], total);
      var s' := Sum(Ceilings(rest, budget, total));
      assert Ceilings(weights, budget, total)[1..] == Ceilings(rest, budget, total);
      assert Sum(Ceilings(weights, budget, total)) * total == c0 * total + s' * total by {
        assert Sum(Ceilings(weights, budget, total)) == c0 + s';
        Distribute3(c0, s', total);
      }
      Distribute3(c0, s', total);
      assert budget * Sum(weights) == budget * weights[0] + budget * Sum(rest) by {
        Distribute3(weights[0], Sum(rest), budget);
      }
      assert |weights| * total == total + |rest| * total by {
        Distribute3(1, |rest|, total);
      }
    }
  }

  lemma MulMonotone(x: int, y: int, t: int)
    requires t != 0
    ensures t > 0 ==> (x * t <= y * t <==> x <= y)
    ensures t < 0 ==> (x * t <= y * t <==> y <= x)
  {
    assert y * t - x * t == (y - x) * t;
    if x < y {
      assert (y - x) * t != 0;
    }
  }

  /**
   * The provisional counts add up to at least the budget and exceed it by
   * less than the number of descriptors.
   */
  lemma ProvisionalTotal(weights: seq<int>, budget: int)
    requires Sum(weights) != 0
    ensures budget <= Sum(Provisional(weights, budget)) < budget + |weights|
  {
    var total := Sum(weights);
    assert |weights| > 0;
    if total > 0 {
      CeilingsAbove(weights, budget, total);
    } else {
      CeilingsBelow(weights, budget, total);
    }
    DivideOut(budget, |weights|, Sum(Provisional(weights, budget)), total);
  }

  /**
   * `b * t <= s * t < b * t + n * t` for a positive `t`, or the same with
   * the order reversed for a negative one, means `b <= s < b + n`.
   */
  lemma DivideOut(b: int, n: int, s: int, t: int)
    requires t > 0 ==> b * t <= s * t < b * t + n * t
    requires t < 0 ==> s * t <= b * t < s * t - n * t
    requires t != 0
    ensures b <= s < b + n
  {
    Distribute3(b, n, t);
    MulMonotone(b, s, t);
    MulMonotone(s, b, t);
    MulMonotone(b + n, s, t);
    MulMonotone(s, b + n, t);
  }

  /** A positive weight with a positive budget gets at least one user at first. */
  lemma ProvisionalPositive(weights: seq<int>, budget: int, i: nat)
    requires Sum(weights) > 0 && budget > 0
    requires i < |weights| && weights[i] > 0
    ensures Provisional(weights, budget)[i] >= 1
  {
    var c := Provisional(weights, budget)[i];
    assert budget * weights[i] > 0;
    MulMonotone(c, 0, Sum(weights));
  }

  /** Number of positions in `order` whose count is above 1. */
  function EligibleCount(c: seq<int>, order: seq<nat>): nat
    requires InRange(order, |c|)
    decreases |order|
  {
    if |order| == 0 then 0
    else (if c[order[0]] > 1 then 1 else 0) + EligibleCount(c, order[1..])
  }

  /** Counts at positions outside `order` do not affect it. */
  lemma {:induction false} EligibleFrame(c: seq<int>, order: seq<nat>, i: nat, v: int)
    requires InRange(order, |c|) && i < |c| && i !in order
    ensures EligibleCount(c[i := v], order) == EligibleCount(c, order)
    decreases |order|
  {
    if |order| > 0 {
      assert order[1..][0..] == order[1..];
      assert forall x :: x in order[1..] ==> x in order;
      EligibleFrame(c, order[1..], i, v);
    }
  }

  /**
   * One pass of the `for` loop inside `while user_overflow > 0`: visit the
   * positions in `order`, skip counts of at most 1, otherwise take one user
   * and lower the overflow, and stop as soon as the overflow drops below 1.
   * Returns the counts and the remaining overflow.
   */
  function Pass(c: seq<int>, order: seq<nat>, overflow: int): (r: (seq<int>, int))
    requires InRange(order, |c|) && Distinct(order) && overflow > 0
    ensures |r.0| == |c|
    ensures forall i :: 0 <= i < |c| ==> r.0[i] == c[i] || (c[i] > 1 && r.0[i] == c[i] - 1)
    ensures forall i :: 0 <= i < |c| && i !in order ==> r.0[i] == c[i]
    ensures Sum(r.0) - r.1 == Sum(c) - overflow
    ensures r.1 == overflow - Min(overflow, EligibleCount(c, order))
    decreases |order|
  {
    if |order| == 0 then (c, overflow)
    else
      var i := order[0];
      var rest := order[1..];
      assert forall a :: 1 <= a < |order| ==> order[a] == rest[a - 1];
      if c[i] <= 1 then Pass(c, rest, overflow)
      else
        var next := c[i := c[i] - 1];
        SumUpdate(c, i, c[i] - 1);
        EligibleFrame(c, rest, i, c[i] - 1);
        if overflow - 1 < 1 then (next, overflow - 1)
        else Pass(next, rest, overflow - 1)
  }

  /**
   * Which counts a pass lowers: exactly those above 1 that are among the
   * first `overflow` such counts in visiting order; every other count is
   * left as it was.
   */
  lemma {:induction false} PassLowers(c: seq<int>, order: seq<nat>, overflow: int, p: nat)
    requires InRange(order, |c|) && Distinct(order) && overflow > 0
    requires p < |order|
    ensures Pass(c, order, overflow).0[order[p]] ==
            if c[order[p]] > 1 && EligibleCount(c, order[..p]) < overflow then c[order[p]] - 1 else c[order[p]]
    decreases |order|, 1
  {
    if p > 0 {
      if c[order[0]] <= 1 {
        PassLowersSkip(c, order, overflow, p);
      } else {
        PassLowersTake(c, order, overflow, p);
      }
    }
  }

  /** Induction step of `PassLowers` past a count of at most 1. */
  lemma {:induction false} PassLowersSkip(c: seq<int>, order: seq<nat>, overflow: int, p: nat)
    requires InRange(order, |c|) && Distinct(order) && overflow > 0
    requires 0 < p < |order| && c[order[0]] <= 1
    ensures Pass(c, order, overflow).0[order[p]] ==
            if c[order[p]] > 1 && EligibleCount(c, order[..p]) < overflow then c[order[p]] - 1 else c[order[p]]
    decreases |order|, 0
  {
    var rest := order[1..];
    assert order[..p][1..] == rest[..p - 1];
    assert order[p] == rest[p - 1];
    assert Pass(c, order, overflow) == Pass(c, rest, overflow);
    PassLowers(c, rest, overflow, p - 1);
  }

  /** Induction step of `PassLowers` past a count it lowers. */
  lemma {:induction false} PassLowersTake(c: seq<int>, order: seq<nat>, overflow: int, p: nat)
    requires InRange(order, |c|) && Distinct(order) && overflow > 0
    requires 0 < p < |order| && c[order[0]] > 1
    ensures Pass(c, order, overflow).0[order[p]] ==
            if c[order[p]] > 1 && EligibleCount(c, order[..p]) < overflow then c[order[p]] - 1 else c[order[p]]
    decreases |order|, 0
  {
    var i := order[0];
    var rest := order[1..];
    var next := c[i := c[i] - 1];
    assert order[p] == rest[p - 1] && order[p] != i;
    EligibleAfterTake(c, order, p);
    if overflow - 1 >= 1 {
      assert Pass(c, order, overflow) == Pass(next, rest, overflow - 1);
      PassLowers(next, rest, overflow - 1, p - 1);
    }
  }

  /** Lowering the first count of a visiting order removes it from the eligible ones before `p`. */
  lemma EligibleAfterTake(c: seq<int>, order: seq<nat>, p: nat)
    requires InRange(order, |c|) && Distinct(order)
    requires 0 < p <= |order| && c[order[0]] > 1
    ensures EligibleCount(c[order[0] := c[order[0]] - 1], order[1..][..p - 1]) == EligibleCount(c, order[..p]) - 1
  {
    var i := order[0];
    var rest := order[1..];
    assert order[..p][1..] == rest[..p - 1];
    assert i !in rest[..p - 1] by {
      assert forall x :: x in rest[..p - 1] ==> x in rest;
      assert forall a :: 0 <= a < |rest| ==> rest[a] == order[a + 1];
    }
    EligibleFrame(c, rest[..p - 1], i, c[i] - 1);
  }

  /** A position with more than one user in a full visiting order makes the pass lower something. */
  lemma {:induction false} EligiblePositive(c: seq<int>, order: seq<nat>, i: nat)
    requires InRange(order, |c|) && i in order && i < |c| && c[i] > 1
    ensures EligibleCount(c, order) >= 1
    decreases |order|
  {
    if order[0] != i {
      assert i in order[1..];
      EligiblePositive(c, order[1..], i);
    }
  }

  /** With more users than budget and at least as much budget as counts, some count is above 1. */
  lemma SomeAboveOne(c: seq<int>, budget: int) returns (i: nat)
    requires |c| <= budget < Sum(c)
    ensures i < |c| && c[i] > 1
  {
    if forall k :: 0 <= k < |c| ==> c[k] <= 1 {
      SumAtMostLength(c);
      assert false;
    }
    var k :| 0 <= k < |c| && c[k] > 1;
    i := k;
  }

  /** Over budget, a pass in full visiting order always has a count it may lower. */
  lemma OverBudgetEligible(c: seq<int>, budget: int)
    requires |c| <= budget < Sum(c)
    ensures EligibleCount(c, Order(c)) >= 1
  {
    var i := SomeAboveOne(c, budget);
    EligiblePositive(c, Order(c), i);
  }

  /**
   * The `while user_overflow > 0` loop: passes over the counts, each in the
   * visiting order of the counts it starts from, until they add up to the
   * budget. It ends because every pass lowers at least one count: as long
   * as the counts exceed a budget of at least one user per descriptor, some
   * count is above 1.
   */
  function Smooth(c: seq<int>, budget: int): (r: seq<int>)
    requires |c| <= budget
    ensures |r| == |c|
    ensures Sum(c) <= budget ==> r == c
    ensures Sum(c) >= budget ==> Sum(r) == budget
    ensures forall i :: 0 <= i < |c| ==> r[i] <= c[i] && (r[i] < c[i] ==> r[i] >= 1)
    decreases Sum(c) - budget
  {
    if Sum(c) <= budget then c
    else
      var order := Order(c);
      OverBudgetEligible(c, budget);
      var next := Pass(c, order, Sum(c) - budget).0;
      Smooth(next, budget)
  }

  /** Counts that start at one user or more never drop below one. */
  lemma SmoothKeepsOne(c: seq<int>, budget: int)
    requires |c| <= budget
    requires forall i :: 0 <= i < |c| ==> c[i] >= 1
    ensures forall i :: 0 <= i < |c| ==> Smooth(c, budget)[i] >= 1
  {
  }

  /** The `for` loop of one pass as the source writes it, changing the counts in place. */
  method RunPass(counts: seq<int>, order: seq<nat>, overflow: int) returns (r: seq<int>, left: int)
    requires InRange(order, |counts|) && Distinct(order) && overflow > 0
    ensures (r, left) == Pass(counts, order, overflow)
  {
    r, left := counts, overflow;
    var p := 0;
    while p < |order|
      invariant 0 <= p <= |order|
      invariant |r| == |counts| && left >= 1
      invariant InRange(order[p..], |r|) && Distinct(order[p..])
      invariant Pass(r, order[p..], left) == Pass(counts, order, overflow)
      decreases |order| - p
    {
      var k := order[p];
      assert order[p..][1..] == order[p + 1..];
      if r[k] > 1 {
        r := r[k := r[k] - 1];
        left := left - 1;
        if left < 1 {
          break;
        }
      }
      p := p + 1;
    }
  }

  /** The `while user_overflow > 0` loop as the source writes it. */
  method SmoothCounts(counts: seq<int>, budget: int) returns (r: seq<int>)
    requires |counts| <= budget
    ensures r == Smooth(counts, budget)
  {
    r := counts;
    var overflow := Sum(r) - budget;
    while overflow > 0
      invariant |r| == |counts|
      invariant overflow == Sum(r) - budget
      invariant Smooth(r, budget) == Smooth(counts, budget)
      decreases overflow
    {
      OverBudgetEligible(r, budget);
      r, overflow := RunPass(r, Order(r), overflow);
    }
  }

  /**
   * The user counts of the descriptors: provisional shares smoothed down to
   * the budget. The source guarantees at least as much budget as
   * descriptors and a non-zero total weight before it gets here.
   */
  function Distribute(weights: seq<int>, budget: int): (r: seq<int>)
    requires |weights| <= budget && Sum(weights) != 0
    ensures |r| == |weights|
    ensures Sum(r) == budget
    ensures forall i :: 0 <= i < |weights| ==>
              r[i] <= Provisional(weights, budget)[i] && (r[i] < Provisional(weights, budget)[i] ==> r[i] >= 1)
  {
    ProvisionalTotal(weights, budget);
    Smooth(Provisional(weights, budget), budget)
  }

  /** The counts add up to the budget exactly. */
  lemma DistributeTotal(weights: seq<int>, budget: int)
    requires |weights| <= budget && Sum(weights) != 0
    ensures Sum(Distribute(weights, budget)) == budget
    ensures forall i :: 0 <= i < |weights| ==> Distribute(weights, budget)[i] <= Provisional(weights, budget)[i]
  {
    ProvisionalTotal(weights, budget);
  }

  /** With positive weights every descriptor ends up with at least one user. */
  lemma DistributePositive(weights: seq<int>, budget: int)
    requires |weights| <= budget
    requires forall i :: 0 <= i < |weights| ==> weights[i] > 0
    requires |weights| > 0
    ensures Sum(weights) > 0
    ensures forall i :: 0 <= i < |weights| ==> Distribute(weights, budget)[i] >= 1
  {
    SumAtLeastLength(weights);
    forall i | 0 <= i < |weights|
      ensures Provisional(weights, budget)[i] >= 1
    {
      ProvisionalPositive(weights, budget, i);
    }
  }

  /** A budget of exactly one user per descriptor gives every descriptor one user. */
  lemma DistributeExactFit(weights: seq<int>)
    requires |weights| > 0
    requires forall i :: 0 <= i < |weights| ==> weights[i] > 0
    ensures Sum(weights) > 0
    ensures forall i :: 0 <= i < |weights| ==> Distribute(weights, |weights|)[i] == 1
  {
    DistributePositive(weights, |weights|);
    DistributeTotal(weights, |weights|);
    SumOfOnes(Distribute(weights, |weights|));
  }

  /** A single descriptor gets the whole budget, whatever its weight. */
  lemma DistributeSingle(weight: int, budget: int)
    requires weight != 0 && budget >= 1
    ensures Sum([weight]) != 0
    ensures Distribute([weight], budget) == [budget]
  {
    var r := Distribute([weight], budget);
    DistributeTotal([weight], budget);
    assert Sum(r) == r[0] + Sum(r[1..]);
    assert r == [r[0]];
  }

  /** Ten users over weights 1, 1 and 2: shares 2.5, 2.5 and 5 round up to 3, 3 and 5, and the largest gives one back. */
  lemma DistributeExampleWeighted()
    ensures Distribute([1, 1, 2], 10) == [3, 3, 4]
  {
    ProvisionalExampleWeighted();
    OrderExampleWeighted();
    PassExampleWeighted();
    assert Sum([3, 3, 4]) == 10;
  }

  lemma ProvisionalExampleWeighted()
    ensures Provisional([1, 1, 2], 10) == [3, 3, 5]
    ensures Sum([3, 3, 5]) == 11
  {
    assert Sum([1, 1, 2]) == 4;
  }

  lemma OrderExampleWeighted()
    ensures Order([3, 3, 5]) == [2, 0, 1]
  {
    OrderUnique([3, 3, 5], [2, 0, 1]);
  }

  lemma PassExampleWeighted()
    ensures Pass([3, 3, 5], [2, 0, 1], 1).0 == [3, 3, 4]
  {
  }

  /** Six users over four equal weights: all round up to 2, and the first two in insertion order give one back. */
  lemma DistributeExampleTies()
    ensures Distribute([1, 1, 1, 1], 6) == [1, 1, 2, 2]
  {
    ProvisionalExampleTies();
    OrderExampleTies();
    PassExampleTies();
    assert Sum([1, 1, 2, 2]) == 6;
    assert Smooth([1, 1, 2, 2], 6) == [1, 1, 2, 2];
    assert Smooth([2, 2, 2, 2], 6) == Smooth([1, 1, 2, 2], 6);
  }

  lemma ProvisionalExampleTies()
    ensures Provisional([1, 1, 1, 1], 6) == [2, 2, 2, 2]
    ensures Sum([2, 2, 2, 2]) == 8
  {
    assert Sum([1, 1, 1, 1]) == 4;
  }

  lemma OrderExampleTies()
    ensures Order([2, 2, 2, 2]) == [0, 1, 2, 3]
  {
    OrderUnique([2, 2, 2, 2], [0, 1, 2, 3]);
  }

  lemma PassExampleTies()
    ensures Pass([2, 2, 2, 2], [0, 1, 2, 3], 2).0 == [1, 1, 2, 2]
  {
  }
}

/**
 * The integer and rounding arithmetic of the planner, stated exactly.
 *
 * The source computes with Python floats: `ceil(B * (w / T))`,
 * `int(round(x, 0))` and `int(float(x))`. This model replaces floating point
 * by exact rational (`real`) and integer arithmetic, so the rounding
 * artefacts of binary floating point are not modelled.
 */
module Numbers {

  function Sum(s: seq<int>): int
    decreases |s|
  {
    if |s| == 0 then 0 else s[0] + Sum(s[1..])
  }

  function Min(a: int, b: int): int {
    if a <= b then a else b
  }

  /** Changing one element changes the sum by exactly the difference. */
  lemma {:induction false} SumUpdate(s: seq<int>, i: nat, v: int)
    requires i < |s|
    ensures Sum(s[i := v]) == Sum(s) - s[i] + v
    decreases |s|
  {
    if i == 0 {
      assert s[i := v][1..] == s[1..];
    } else {
      assert s[i := v][1..] == s[1..][i - 1 := v];
      SumUpdate(s[1..], i - 1, v);
    }
  }

  /** When no element exceeds 1 the sum is at most the number of elements. */
  lemma {:induction false} SumAtMostLength(s: seq<int>)
    requires forall i :: 0 <= i < |s| ==> s[i] <= 1
    ensures Sum(s) <= |s|
    decreases |s|
  {
    if |s| > 0 {
      SumAtMostLength(s[1..]);
    }
  }

  /** Elements each at least 1 that sum to the length are all exactly 1. */
  lemma {:induction false} SumOfOnes(s: seq<int>)
    requires forall i :: 0 <= i < |s| ==> s[i] >= 1
    requires Sum(s) == |s|
    ensures forall i :: 0 <= i < |s| ==> s[i] == 1
    decreases |s|
  {
    if |s| > 0 {
      SumAtLeastLength(s[1..]);
      SumOfOnes(s[1..]);
      forall i | 0 <= i < |s|
        ensures s[i] == 1
      {
        if i > 0 {
          assert s[i] == s[1..][i - 1];
        }
      }
    }
  }

  lemma {:induction false} SumAtLeastLength(s: seq<int>)
    requires forall i :: 0 <= i < |s| ==> s[i] >= 1
    ensures Sum(s) >= |s|
    decreases |s|
  {
    if |s| > 0 {
      SumAtLeastLength(s[1..]);
    }
  }

  /**
   * `math.ceil(p / q)` on exact rationals: the least integer `c` with
   * `c * q >= p` when `q` is positive, and with `c * q <= p` when `q` is
   * negative.
   */
  function CeilDiv(p: int, q: int): (c: int)
    requires q != 0
    ensures q > 0 ==> (c - 1) * q < p <= c * q
    ensures q < 0 ==> c * q <= p < (c - 1) * q
  {
    if q > 0 then -((-p) / q) else -(p / (-q))
  }

  /** Python's `int(x)` on a number: truncation toward zero. */
  function Truncate(x: real): (t: int)
    ensures x >= 0.0 ==> 0 <= t && t as real <= x < t as real + 1.0
    ensures x < 0.0 ==> t <= 0 && t as real - 1.0 < x <= t as real
  {
    if x >= 0.0 then x.Floor else -((-x).Floor)
  }

  predicate IsEven(k: int) {
    k % 2 == 0
  }

  function Abs(x: real): real {
    if x < 0.0 then -x else x
  }

  /**
   * Python's `round(x, 0)`: the nearest integer, a tie going to the even
   * neighbour (banker's rounding).
   */
  function RoundHalfEven(x: real): (r: int)
    ensures Abs(x - r as real) <= 0.5
    ensures Abs(x - r as real) == 0.5 ==> IsEven(r)
  {
    var f := x.Floor;
    var frac := x - f as real;
    if frac < 0.5 then f
    else if frac > 0.5 then f + 1
    else if IsEven(f) then f else f + 1
  }

  /** Round-half-even is the only integer with those two properties. */
  lemma RoundHalfEvenUnique(x: real, k: int)
    requires Abs(x - k as real) <= 0.5
    requires Abs(x - k as real) == 0.5 ==> IsEven(k)
    ensures k == RoundHalfEven(x)
  {
  }
}

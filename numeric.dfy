/** Option type used for the results that can be absent or fail. */
module Wrappers {
  datatype Option<+T> = None | Some(value: T)
}

/**
 * Exact real arithmetic used by the sampling pipeline: sums (the
 * `reduce((a, b) => a + b, 0)` of the script), element-wise division,
 * the maximum of a non-empty sequence (`Math.max(...xs)`) and the
 * abstract exponential that stands for `Math.exp`.
 */
module Numeric {

  /** Sum of a sequence of reals. Over the reals the order of addition does not matter. */
  function Sum(s: seq<real>): real
  {
    if s == [] then 0.0 else s[0] + Sum(s[1..])
  }

  lemma {:induction false} SumConcat(a: seq<real>, b: seq<real>)
    ensures Sum(a + b) == Sum(a) + Sum(b)
  {
    if a == [] {
      assert a + b == b;
    } else {
      assert (a + b)[1..] == a[1..] + b;
      SumConcat(a[1..], b);
    }
  }

  /** A sum of non-negative reals is non-negative. */
  lemma {:induction false} SumNonNegative(s: seq<real>)
    requires forall i :: 0 <= i < |s| ==> s[i] >= 0.0
    ensures Sum(s) >= 0.0
  {
    if s != [] {
      SumNonNegative(s[1..]);
    }
  }

  /** A sum of strictly positive reals over a non-empty sequence is strictly positive. */
  lemma {:induction false} SumPositive(s: seq<real>)
    requires |s| > 0
    requires forall i :: 0 <= i < |s| ==> s[i] > 0.0
    ensures Sum(s) > 0.0
  {
    if |s| > 1 {
      SumPositive(s[1..]);
    }
  }

  /** With non-negative elements, each element is at most the sum. */
  lemma {:induction false} ElementAtMostSum(s: seq<real>, i: nat)
    requires forall k :: 0 <= k < |s| ==> s[k] >= 0.0
    requires i < |s|
    ensures s[i] <= Sum(s)
  {
    if i == 0 {
      SumNonNegative(s[1..]);
    } else {
      ElementAtMostSum(s[1..], i - 1);
    }
  }

  /** Every element divided by `d` (the `exps.map(e => e / sumExps)` of the script). */
  function DivideAll(s: seq<real>, d: real): (r: seq<real>)
    requires d != 0.0
    ensures |r| == |s|
  {
    seq(|s|, i requires 0 <= i < |s| => s[i] / d)
  }

  /** Dividing every element by `d` divides the sum by `d`. */
  lemma {:induction false} SumDivideAll(s: seq<real>, d: real)
    requires d != 0.0
    ensures Sum(DivideAll(s, d)) == Sum(s) / d
  {
    if s != [] {
      assert DivideAll(s, d)[1..] == DivideAll(s[1..], d);
      SumDivideAll(s[1..], d);
      assert DivideAll(s, d)[0] == s[0] / d;
    }
  }

  /** Index of a largest element among the first `n`, found by scanning left to right. */
  function ArgMaxPrefix(s: seq<real>, n: nat): (k: nat)
    requires 0 < n <= |s|
    ensures k < n
    ensures forall i :: 0 <= i < n ==> s[i] <= s[k]
  {
    if n == 1 then 0
    else
      var k := ArgMaxPrefix(s, n - 1);
      if s[n - 1] > s[k] then n - 1 else k
  }

  /** `Math.max` of a non-empty sequence: an element that bounds all the others. */
  function Max(s: seq<real>): (m: real)
    requires |s| > 0
    ensures forall i :: 0 <= i < |s| ==> s[i] <= m
    ensures exists i :: 0 <= i < |s| && s[i] == m
  {
    s[ArgMaxPrefix(s, |s|)]
  }

  /**
   * The properties of `Math.exp` that the pipeline relies on: it is
   * positive everywhere and strictly increasing. Nothing else about the
   * exponential is assumed.
   */
  ghost predicate IsExp(exp: real -> real)
  {
    ExpPositive(exp) && ExpIncreasing(exp)
  }

  ghost predicate ExpPositive(exp: real -> real)
  {
    forall x :: exp(x) > 0.0
  }

  ghost predicate ExpIncreasing(exp: real -> real)
  {
    forall x, y :: x < y ==> exp(x) < exp(y)
  }

  /**
   * The law `exp(a + b) == exp(a) * exp(b)`. It is not part of `IsExp`:
   * only the comparison of the stable softmax with the textbook formula
   * needs it. It is stated over three variables so that no instance of it
   * creates a new application of `exp`.
   */
  ghost predicate ExpMultiplicative(exp: real -> real)
  {
    forall a, b, c :: a + b == c ==> exp(c) == exp(a) * exp(b)
  }

  /** A positive, strictly increasing function, so that `IsExp` is not vacuous. */
  function ExpStandIn(x: real): real
  {
    if x >= 0.0 then 1.0 + x else 1.0 / (1.0 - x)
  }

  lemma ExpStandInIsExp()
    ensures IsExp(ExpStandIn)
  {
    forall x, y | x < y
      ensures ExpStandIn(x) < ExpStandIn(y)
    {
      if y < 0.0 {
        assert 1.0 - x > 1.0 - y > 0.0;
        ReciprocalAntitone(1.0 - y, 1.0 - x);
      } else if x < 0.0 {
        assert 1.0 / (1.0 - x) < 1.0 by {
          ReciprocalAntitone(1.0, 1.0 - x);
        }
      }
    }
  }

  lemma ReciprocalAntitone(a: real, b: real)
    requires 0.0 < a < b
    ensures 1.0 / b < 1.0 / a
  {
  }
}

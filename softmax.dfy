/** `softmax`: the numerically stable normalisation of scaled log-scores. */
module Probabilities {
  import opened Numeric

  /** The numerators `exp(lp - max)` of the stable softmax. */
  function Exps(exp: real -> real, logProbs: seq<real>, max: real): (e: seq<real>)
    requires ExpPositive(exp)
    ensures |e| == |logProbs|
    ensures forall i :: 0 <= i < |e| ==> e[i] > 0.0
  {
    seq(|logProbs|, i requires 0 <= i < |logProbs| => exp(logProbs[i] - max))
  }

  /** Each entry divided by the sum of all of them. */
  function Normalise(e: seq<real>): (r: seq<real>)
    requires |e| > 0
    requires forall i :: 0 <= i < |e| ==> e[i] > 0.0
    ensures |r| == |e|
  {
    SumPositive(e);
    DivideAll(e, Sum(e))
  }

  /**
   * Subtract the maximum, exponentiate, divide by the sum. An empty input
   * gives an empty output, as the `map`/`reduce` of the script do.
   */
  function Softmax(exp: real -> real, logProbs: seq<real>): (r: seq<real>)
    requires ExpPositive(exp)
    ensures |r| == |logProbs|
  {
    if logProbs == [] then []
    else Normalise(Exps(exp, logProbs, Max(logProbs)))
  }

  /** The shared denominator `sumExps` of the stable softmax. */
  function SumExps(exp: real -> real, logProbs: seq<real>): (t: real)
    requires ExpPositive(exp)
    requires |logProbs| > 0
    ensures t > 0.0
  {
    SumPositive(Exps(exp, logProbs, Max(logProbs)));
    Sum(Exps(exp, logProbs, Max(logProbs)))
  }

  /** Entry `i` of the output is its numerator over the shared, positive denominator. */
  lemma SoftmaxAt(exp: real -> real, logProbs: seq<real>, i: nat)
    requires ExpPositive(exp)
    requires i < |logProbs|
    ensures SumExps(exp, logProbs) > 0.0
    ensures Softmax(exp, logProbs)[i] == exp(logProbs[i] - Max(logProbs)) / SumExps(exp, logProbs)
  {
    SumPositive(Exps(exp, logProbs, Max(logProbs)));
  }

  /** Every entry of the output lies in (0, 1]. */
  lemma SoftmaxEntryBounds(exp: real -> real, logProbs: seq<real>, i: nat)
    requires ExpPositive(exp)
    requires i < |logProbs|
    ensures 0.0 < Softmax(exp, logProbs)[i] <= 1.0
  {
    var e := Exps(exp, logProbs, Max(logProbs));
    SoftmaxAt(exp, logProbs, i);
    ElementAtMostSum(e, i);
    DivisionBounds(e[i], Sum(e));
  }

  /** The output is a probability distribution: every entry in (0, 1], total 1. */
  lemma SoftmaxIsDistribution(exp: real -> real, logProbs: seq<real>)
    requires ExpPositive(exp)
    requires |logProbs| > 0
    ensures forall i :: 0 <= i < |logProbs| ==> 0.0 < Softmax(exp, logProbs)[i] <= 1.0
    ensures Sum(Softmax(exp, logProbs)) == 1.0
  {
    SoftmaxSumsToOne(exp, logProbs);
    forall i | 0 <= i < |logProbs|
      ensures 0.0 < Softmax(exp, logProbs)[i] <= 1.0
    {
      SoftmaxEntryBounds(exp, logProbs, i);
    }
  }

  lemma SoftmaxSumsToOne(exp: real -> real, logProbs: seq<real>)
    requires ExpPositive(exp)
    requires |logProbs| > 0
    ensures Sum(Softmax(exp, logProbs)) == 1.0
  {
    NormaliseSumsToOne(Exps(exp, logProbs, Max(logProbs)));
  }

  lemma NormaliseSumsToOne(e: seq<real>)
    requires |e| > 0
    requires forall i :: 0 <= i < |e| ==> e[i] > 0.0
    ensures Sum(Normalise(e)) == 1.0
  {
    SumPositive(e);
    var total := Sum(e);
    SumDivideAll(e, total);
    assert total / total == 1.0;
  }

  /** `0 < a <= b` gives `0 < a / b <= 1`. */
  lemma DivisionBounds(a: real, b: real)
    requires 0.0 < a <= b
    ensures 0.0 < a / b <= 1.0
  {
  }

  /**
   * Softmax keeps the ranking of its inputs in both directions, because
   * `exp` is strictly increasing and the divisor is shared.
   */
  lemma SoftmaxKeepsRank(exp: real -> real, logProbs: seq<real>, i: nat, j: nat)
    requires IsExp(exp)
    requires i < |logProbs| && j < |logProbs|
    ensures logProbs[i] <= logProbs[j] <==> Softmax(exp, logProbs)[i] <= Softmax(exp, logProbs)[j]
  {
    ShiftedExpOrder(exp, logProbs[i], logProbs[j], Max(logProbs));
    SoftmaxFollowsExp(exp, logProbs, i, j);
  }

  /** Two entries of the output compare as their shifted exponentials do. */
  lemma SoftmaxFollowsExp(exp: real -> real, logProbs: seq<real>, i: nat, j: nat)
    requires ExpPositive(exp)
    requires i < |logProbs| && j < |logProbs|
    requires logProbs[i] <= logProbs[j] <==> exp(logProbs[i] - Max(logProbs)) <= exp(logProbs[j] - Max(logProbs))
    ensures logProbs[i] <= logProbs[j] <==> Softmax(exp, logProbs)[i] <= Softmax(exp, logProbs)[j]
  {
    NormaliseKeepsOrder(Exps(exp, logProbs, Max(logProbs)), i, j);
  }

  /** Normalising keeps the order of any two entries, both ways. */
  lemma NormaliseKeepsOrder(e: seq<real>, i: nat, j: nat)
    requires |e| > 0
    requires forall k :: 0 <= k < |e| ==> e[k] > 0.0
    requires i < |e| && j < |e|
    ensures e[i] <= e[j] <==> Normalise(e)[i] <= Normalise(e)[j]
  {
    SumPositive(e);
    DivisionMonotone(e[i], e[j], Sum(e));
  }

  /** Subtracting the same maximum before `exp` keeps the order of two scores, both ways. */
  lemma ShiftedExpOrder(exp: real -> real, x: real, y: real, m: real)
    requires ExpIncreasing(exp)
    ensures x <= y <==> exp(x - m) <= exp(y - m)
  {
  }

  /** Dividing by a shared positive number keeps the order, both ways. */
  lemma DivisionMonotone(a: real, b: real, d: real)
    requires d > 0.0
    ensures a <= b <==> a / d <= b / d
  {
  }

  /**
   * An entry holding the maximum score has numerator `exp(0)` and is the
   * largest probability of the output.
   */
  lemma SoftmaxArgmax(exp: real -> real, logProbs: seq<real>, k: nat)
    requires IsExp(exp)
    requires k < |logProbs| && logProbs[k] == Max(logProbs)
    ensures SumExps(exp, logProbs) > 0.0
    ensures Softmax(exp, logProbs)[k] == exp(0.0) / SumExps(exp, logProbs)
    ensures forall j :: 0 <= j < |logProbs| ==> Softmax(exp, logProbs)[j] <= Softmax(exp, logProbs)[k]
  {
    SoftmaxAt(exp, logProbs, k);
    assert logProbs[k] - Max(logProbs) == 0.0;
    forall j | 0 <= j < |logProbs|
      ensures Softmax(exp, logProbs)[j] <= Softmax(exp, logProbs)[k]
    {
      SoftmaxKeepsRank(exp, logProbs, j, k);
    }
  }

  /** Every score plus the same constant. */
  function Shift(logProbs: seq<real>, c: real): (r: seq<real>)
    ensures |r| == |logProbs|
    ensures forall i :: 0 <= i < |r| ==> r[i] - c == logProbs[i]
  {
    seq(|logProbs|, i requires 0 <= i < |logProbs| => logProbs[i] + c)
  }

  lemma MaxShift(logProbs: seq<real>, c: real)
    requires |logProbs| > 0
    ensures Max(Shift(logProbs, c)) == Max(logProbs) + c
  {
    var shifted := Shift(logProbs, c);
    var m, ms := Max(logProbs), Max(shifted);
    var a :| 0 <= a < |logProbs| && logProbs[a] == m;
    var b :| 0 <= b < |shifted| && shifted[b] == ms;
    assert shifted[a] <= ms;
    assert logProbs[b] <= m;
  }

  lemma ExpsShift(exp: real -> real, logProbs: seq<real>, m: real, c: real)
    requires ExpPositive(exp)
    ensures Exps(exp, Shift(logProbs, c), m + c) == Exps(exp, logProbs, m)
  {
    var a := Exps(exp, Shift(logProbs, c), m + c);
    var b := Exps(exp, logProbs, m);
    forall i | 0 <= i < |logProbs|
      ensures a[i] == b[i]
    {
      assert Shift(logProbs, c)[i] - (m + c) == logProbs[i] - m;
    }
  }

  /**
   * The output depends only on the differences between the scores: adding
   * the same constant to every score leaves it unchanged. This holds for
   * any positive `exp`, because the maximum that is subtracted moves by the
   * same constant.
   */
  lemma SoftmaxShiftInvariant(exp: real -> real, logProbs: seq<real>, c: real)
    requires ExpPositive(exp)
    ensures Softmax(exp, Shift(logProbs, c)) == Softmax(exp, logProbs)
  {
    if logProbs != [] {
      MaxShift(logProbs, c);
      ExpsShift(exp, logProbs, Max(logProbs), c);
    }
  }

  /** With a positive `exp`, `x - m` exponentiates to `exp(x) / exp(m)` under the product law. */
  lemma ExpOfDifference(exp: real -> real, x: real, m: real)
    requires ExpPositive(exp) && ExpMultiplicative(exp)
    ensures exp(x - m) == exp(x) / exp(m)
  {
    assert (x - m) + m == x;
    assert exp(x) == exp(x - m) * exp(m);
  }

  /** Dividing numerator and denominator by the same positive `c` leaves the quotient unchanged. */
  lemma DivisionCancels(x: real, y: real, c: real)
    requires y != 0.0 && c > 0.0
    ensures (x / c) / (y / c) == x / y
  {
  }

  /**
   * When `exp` also satisfies `exp(a + b) == exp(a) * exp(b)`, the stable
   * softmax of the script equals the textbook `exp(x_i) / sum_j exp(x_j)`:
   * the subtraction of the maximum only guards against overflow.
   */
  lemma SoftmaxIsUnshifted(exp: real -> real, logProbs: seq<real>, i: nat)
    requires ExpPositive(exp) && ExpMultiplicative(exp)
    requires i < |logProbs|
    ensures Sum(Exps(exp, logProbs, 0.0)) > 0.0
    ensures Softmax(exp, logProbs)[i] == exp(logProbs[i]) / Sum(Exps(exp, logProbs, 0.0))
  {
    var m := Max(logProbs);
    var e0 := Exps(exp, logProbs, 0.0);
    var em := Exps(exp, logProbs, m);
    forall k | 0 <= k < |logProbs|
      ensures em[k] == DivideAll(e0, exp(m))[k]
    {
      ExpOfDifference(exp, logProbs[k], m);
      assert logProbs[k] - 0.0 == logProbs[k];
    }
    assert em == DivideAll(e0, exp(m));
    SumDivideAll(e0, exp(m));
    SumPositive(e0);
    SoftmaxAt(exp, logProbs, i);
    assert logProbs[i] - 0.0 == logProbs[i];
    ExpOfDifference(exp, logProbs[i], m);
    DivisionCancels(e0[i], Sum(e0), exp(m));
  }
}

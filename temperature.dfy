/** `applyTemperature`: scaling log-scores by the temperature. */
module Temperature {

  /** Floor used in place of a temperature that is zero or negative. */
  const MinTemperature: real := 0.01

  /** The temperature actually divided by: the given one, or 0.01 when it is not positive. */
  function EffectiveTemperature(temperature: real): (t: real)
    ensures t > 0.0
    ensures temperature > 0.0 ==> t == temperature
    ensures temperature <= 0.0 ==> t == MinTemperature
  {
    if temperature <= 0.0 then MinTemperature else temperature
  }

  /** Every log-score divided by the effective temperature, length and order kept. */
  function ApplyTemperature(logProbs: seq<real>, temperature: real): (r: seq<real>)
    ensures |r| == |logProbs|
    ensures forall i :: 0 <= i < |r| ==> r[i] * EffectiveTemperature(temperature) == logProbs[i]
  {
    var t := EffectiveTemperature(temperature);
    seq(|logProbs|, i requires 0 <= i < |logProbs| => logProbs[i] / t)
  }

  /**
   * Scaling keeps the ranking of the scores in both directions, whatever
   * temperature is given, because the divisor is always positive.
   */
  lemma ApplyTemperatureKeepsRank(logProbs: seq<real>, temperature: real, i: nat, j: nat)
    requires i < |logProbs| && j < |logProbs|
    ensures logProbs[i] <= logProbs[j] <==> ApplyTemperature(logProbs, temperature)[i] <= ApplyTemperature(logProbs, temperature)[j]
  {
  }
}

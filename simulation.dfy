/**
 * `runSimulation`: the stateful driver. It owns the `simulationRunning`
 * gate, the `currentDistribution` shown in the chart and the prompt text,
 * and runs temperature, softmax, top-p and sampling in that order.
 */
module Simulation {
  import opened Wrappers
  import opened Numeric
  import opened Tokens
  import opened Temperature
  import opened Probabilities
  import opened TopP
  import opened Sampler

  /** What a run hands to `updateChart`: all bars, the split, and the highlighted word. */
  datatype Frame = Frame(distribution: seq<Token>, candidates: seq<Token>, eliminated: seq<Token>, selectedWord: Option<string>)

  /**
   * How a run ends: returned at the gate without doing anything, rendered,
   * or stopped by the TypeError that sampling raises on an empty candidate
   * list (after the distribution was already recomputed).
   */
  datatype Outcome = Skipped | Rendered(frame: Frame) | SamplingFailed

  /**
   * `vocabulary.map((word, i) => ({ word, prob: probs[i] }))` where
   * `probs = softmax(applyTemperature(baseLogProbs, temp))`.
   */
  function Distribution(vocabulary: seq<string>, baseLogProbs: seq<real>, exp: real -> real, temperature: real): (d: seq<Token>)
    requires |vocabulary| == |baseLogProbs|
    requires ExpPositive(exp)
    ensures |d| == |vocabulary|
  {
    Zip(vocabulary, Softmax(exp, ApplyTemperature(baseLogProbs, temperature)))
  }

  /**
   * The distribution covers the vocabulary in its own order, every
   * probability is in (0, 1] and they sum to 1.
   */
  lemma DistributionIsNormalised(vocabulary: seq<string>, baseLogProbs: seq<real>, exp: real -> real, temperature: real)
    requires |vocabulary| == |baseLogProbs| && |vocabulary| > 0
    requires ExpPositive(exp)
    ensures var d := Distribution(vocabulary, baseLogProbs, exp, temperature);
      && (forall i :: 0 <= i < |d| ==> d[i].word == vocabulary[i] && 0.0 < d[i].prob <= 1.0)
      && Mass(d) == 1.0
  {
    var probs := Softmax(exp, ApplyTemperature(baseLogProbs, temperature));
    var d := Distribution(vocabulary, baseLogProbs, exp, temperature);
    SoftmaxIsDistribution(exp, ApplyTemperature(baseLogProbs, temperature));
  }

  /** Every word of the distribution has a positive probability. */
  lemma DistributionIsPositive(vocabulary: seq<string>, baseLogProbs: seq<real>, exp: real -> real, temperature: real)
    requires |vocabulary| == |baseLogProbs|
    requires ExpPositive(exp)
    ensures Positive(Distribution(vocabulary, baseLogProbs, exp, temperature))
  {
    if |vocabulary| > 0 {
      DistributionIsNormalised(vocabulary, baseLogProbs, exp, temperature);
    }
  }

  /**
   * Whatever the temperature, token `i` is at most as probable as token
   * `j` exactly when its base score is at most `j`'s.
   */
  lemma DistributionKeepsRank(vocabulary: seq<string>, baseLogProbs: seq<real>, exp: real -> real, temperature: real, i: nat, j: nat)
    requires |vocabulary| == |baseLogProbs|
    requires IsExp(exp)
    requires i < |vocabulary| && j < |vocabulary|
    ensures var d := Distribution(vocabulary, baseLogProbs, exp, temperature);
      d[i].prob <= d[j].prob <==> baseLogProbs[i] <= baseLogProbs[j]
  {
    ApplyTemperatureKeepsRank(baseLogProbs, temperature, i, j);
    SoftmaxKeepsRank(exp, ApplyTemperature(baseLogProbs, temperature), i, j);
  }

  /** The module-level state of the script, with the fixed vocabulary and base scores. */
  class Session {
    const vocabulary: seq<string>
    const baseLogProbs: seq<real>
    const exp: real -> real
    var simulationRunning: bool
    var currentDistribution: seq<Token>
    var promptText: string

    /** One score per word, and an exponential that is positive so that softmax can divide by its sum. */
    ghost predicate Valid()
    {
      |vocabulary| == |baseLogProbs| && ExpPositive(exp)
    }

    constructor (vocabulary: seq<string>, baseLogProbs: seq<real>, exp: real -> real, promptText: string)
      requires |vocabulary| == |baseLogProbs|
      requires ExpPositive(exp)
      ensures Valid()
      ensures this.vocabulary == vocabulary && this.baseLogProbs == baseLogProbs && this.exp == exp
      ensures !simulationRunning && currentDistribution == [] && this.promptText == promptText
    {
      this.vocabulary := vocabulary;
      this.baseLogProbs := baseLogProbs;
      this.exp := exp;
      simulationRunning := false;
      currentDistribution := [];
      this.promptText := promptText;
    }

    /**
     * One run with the slider values `temperature` and `topP` and the
     * random draw `r`. A run while idle that does not ask for a new word
     * changes nothing; asking for a word makes the session active for good.
     */
    method RunSimulation(selectNewWord: bool, temperature: real, topP: real, r: real) returns (outcome: Outcome)
      requires Valid()
      modifies this
      ensures Valid()
      ensures simulationRunning == (old(simulationRunning) || selectNewWord)
      ensures !simulationRunning ==> outcome == Skipped && currentDistribution == old(currentDistribution)
      ensures simulationRunning ==> outcome != Skipped && currentDistribution == Distribution(vocabulary, baseLogProbs, exp, temperature)
      ensures outcome.Rendered? ==>
        var f := outcome.frame;
        && f.distribution == currentDistribution
        && f.candidates + f.eliminated == SortByProb(currentDistribution)
        && NucleusSplit(f.candidates, f.eliminated, topP)
      ensures outcome.Rendered? && !selectNewWord ==> outcome.frame.selectedWord == None
      ensures outcome.Rendered? && selectNewWord ==>
        var f := outcome.frame;
        && f.selectedWord == SampledWord(f.candidates, r)
        && f.selectedWord.Some? && f.selectedWord.value in Words(f.candidates)
        && promptText == old(promptText) + " " + f.selectedWord.value
      ensures outcome.SamplingFailed? <==> selectNewWord && (topP <= 0.0 || |vocabulary| == 0)
      ensures !(outcome.Rendered? && selectNewWord) ==> promptText == old(promptText)
    {
      if !simulationRunning && selectNewWord {
        simulationRunning := true;
      }
      if !simulationRunning {
        return Skipped;
      }
      var tempLogProbs := ApplyTemperature(baseLogProbs, temperature);
      var probs := Softmax(exp, tempLogProbs);
      currentDistribution := Zip(vocabulary, probs);
      assert currentDistribution == Distribution(vocabulary, baseLogProbs, exp, temperature);
      var candidates, eliminated := ApplyTopP(currentDistribution, topP);
      var selectedWord: Option<string> := None;
      if selectNewWord {
        selectedWord := SampleFromCandidates(candidates, r);
        if selectedWord.None? {
          return SamplingFailed;
        }
        promptText := promptText + " " + selectedWord.value;
      }
      outcome := Rendered(Frame(currentDistribution, candidates, eliminated, selectedWord));
    }
  }

  /**
   * Two parameter-only runs in a row on an active session, with the same
   * sliders, hand the renderer the same frame: the deterministic stages
   * keep no hidden state.
   */
  method RecomputeIsIdempotent(session: Session, temperature: real, topP: real, r1: real, r2: real) returns (first: Outcome, second: Outcome)
    requires session.Valid() && session.simulationRunning
    modifies session
    ensures first.Rendered? && first == second
    ensures session.promptText == old(session.promptText)
  {
    first := session.RunSimulation(false, temperature, topP, r1);
    second := session.RunSimulation(false, temperature, topP, r2);
    NucleusSplitUnique(first.frame.candidates, first.frame.eliminated, second.frame.candidates, second.frame.eliminated, topP);
  }
}

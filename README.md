# Next-word sampling simulator: a verified model

The simulator shows how a language model picks its next word. It keeps a
fixed vocabulary with one base log-score per word. On every run it:

1. divides the scores by the temperature, with a temperature of zero or
   less replaced by 0.01 (`applyTemperature`);
2. turns them into probabilities with the numerically stable softmax,
   which subtracts the maximum, exponentiates and divides by the sum
   (`softmax`);
3. splits the distribution by top-p (nucleus) filtering (`applyTopP`). A
   stable sort orders it by descending probability. A walk then keeps
   each word while the mass of the words kept before it is still below
   `topP`, and eliminates all the rest;
4. when a new word is asked for, renormalises the candidates and walks
   them with a uniform draw (`sampleFromCandidates`), then appends the
   word to the prompt, separated by a space.

`runSimulation` owns the state: a flag saying whether the simulation has
started, the current distribution, and the prompt text. A run that does
not ask for a word while the simulation has not started does nothing.
The first request for a word starts the simulation, and it stays started.

The model is in seven modules:

- `Numeric` (numeric.dfy): sums, element-wise division, the maximum, and the exponential as a parameter.
- `Tokens` (tokens.dfy): the `{ word, prob }` records and their mass.
- `Temperature` (temperature.dfy).
- `Probabilities` (softmax.dfy).
- `TopP` (topp.dfy).
- `Sampler` (sampler.dfy).
- `Simulation` (simulation.dfy).

`Wrappers` (numeric.dfy) holds the `Option` type.

The stages that only compute a value are functions with lemmas about them.
The two stages that walk a list with a running variable are methods with
loops. `applyTopP` walks with the cumulative mass; `sampleFromCandidates`
walks with the shrinking draw. Each method is proved equal to a functional
specification, `NucleusSplit` or `SampledWord`. The script's module-level
state is the class `Session`.

Numbers are exact reals. `Math.exp` is a parameter `exp: real -> real`.
The simulation needs it to be positive (`ExpPositive`), and the ranking
lemmas also need it to be strictly increasing (`IsExp`). Only
`Probabilities.SoftmaxIsUnshifted` also assumes the product law
`exp(a + b) == exp(a) * exp(b)` (`ExpMultiplicative`). No other property
of the exponential is assumed. `ExpStandInIsExp` shows that such functions
exist. `Math.random()` is the parameter `r`.

Two policies one might expect are not what the code does, and the model
follows the code:

- The top-p filter does not force the most probable word into the
  candidates. With `topP <= 0` it keeps no word. A run that then asks for
  a word fails: `normalizedCandidates[0]` is undefined, so reading `.word`
  throws a TypeError. That failure happens after the distribution has been
  recomputed and before the prompt changes. The model returns
  `SamplingFailed` here. `RunSimulation` fails exactly when a word is asked
  for and either `topP <= 0` or the vocabulary is empty.
- Softmax does not reject an empty input: the code returns an empty list,
  and so does `Softmax`.

## Model

| member | source | states |
|---|---|---|
| Temperature.EffectiveTemperature | script.js:38 | the divisor is always positive; it is the given temperature when that is positive and 0.01 otherwise |
| Temperature.ApplyTemperature | script.js:37-40 | the length is kept, and every output times the effective temperature gives back the input score |
| Temperature.ApplyTemperatureKeepsRank | script.js:37-40 | for any temperature, two scores compare the same way before and after scaling, in both directions |
| Numeric.Max | script.js:44 | `Math.max` of a non-empty list bounds every element and is one of them |
| Numeric.Sum | script.js:46 | the `reduce((a, b) => a + b, 0)` over a list of reals; `Numeric.SumConcat` (the sum of a concatenation is the sum of the sums), `Numeric.SumNonNegative`, `Numeric.SumPositive` and `Numeric.ElementAtMostSum` state its properties |
| Numeric.DivideAll | script.js:47 | one output per input; `Numeric.SumDivideAll` states that dividing every entry by `d` divides the sum by `d` |
| Probabilities.SumExps | script.js:46 | the shared denominator `sumExps` of a non-empty input is positive; `Probabilities.SoftmaxAt` states that every entry is its numerator over it |
| Probabilities.Normalise | script.js:46-47 | one output per numerator; `Probabilities.NormaliseSumsToOne` states that the outputs sum to 1, and `Probabilities.NormaliseKeepsOrder` that they keep the numerators' order in both directions |
| Probabilities.Exps | script.js:45 | one numerator per score, and every numerator is positive; its value `exp(score - max)` is stated in `Probabilities.SoftmaxAt` |
| Probabilities.Softmax | script.js:43-48 | its own contract keeps the length; `Probabilities.SoftmaxAt`, `Probabilities.SoftmaxIsDistribution`, `Probabilities.SoftmaxKeepsRank`, `Probabilities.SoftmaxArgmax`, `Probabilities.SoftmaxShiftInvariant` and `Probabilities.SoftmaxIsUnshifted` state what it computes |
| Probabilities.SoftmaxAt | script.js:43-48 | entry i is `exp(score_i - max)` over the shared sum of numerators, and that sum is positive |
| Probabilities.SoftmaxEntryBounds | script.js:43-48 | every output probability lies in (0, 1] |
| Probabilities.SoftmaxIsDistribution | script.js:43-48 | the output of a non-empty input is a probability distribution: entries in (0, 1] that sum to 1 |
| Probabilities.NormaliseSumsToOne | script.js:46-47 | dividing positive numbers by their sum gives a list that sums to 1 |
| Probabilities.SoftmaxSumsToOne | script.js:43-48 | the softmax output of a non-empty input sums to exactly 1 |
| Probabilities.SoftmaxKeepsRank | script.js:43-48 | with a strictly increasing exp, two outputs compare the same way as their inputs, in both directions |
| Probabilities.NormaliseKeepsOrder | script.js:46-47 | dividing by the shared positive sum keeps the order of any two entries, in both directions |
| Probabilities.SoftmaxArgmax | script.js:43-48 | a word holding the maximum score gets `exp(0)` over the sum, and no output is larger than its entry |
| Probabilities.SoftmaxShiftInvariant | script.js:44-45 | the output depends only on the differences between the scores: adding a constant to every score leaves it unchanged, for any positive `exp` |
| Probabilities.SoftmaxIsUnshifted | script.js:43-48 | under the product law for `exp`, each output entry equals the textbook `exp(x_i)` over the sum of `exp(x_j)`, so subtracting the maximum does not change the distribution |
| Tokens.Mass | script.js:70 | the total probability of a list is non-negative when every probability is; `TopP.MassPermutation` shows that it does not depend on the order |
| Tokens.Zip | script.js:206 | taking the words and the probabilities back out of the distribution gives the vocabulary and the probability list unchanged |
| Simulation.Distribution | script.js:201-206 | its own contract gives one entry per vocabulary word; `Simulation.DistributionIsNormalised`, `Simulation.DistributionIsPositive` and `Simulation.DistributionKeepsRank` state what the entries are |
| Simulation.DistributionIsNormalised | script.js:201-206 | for a non-empty vocabulary, every word keeps its vocabulary position, every probability is in (0, 1], and the total mass is 1 |
| Simulation.DistributionIsPositive | script.js:201-206 | every probability in the distribution is positive |
| Simulation.DistributionKeepsRank | script.js:201-206 | for any temperature, word i is at most as probable as word j exactly when its base score is at most j's |
| TopP.InsertIsSortedInsertion | script.js:52 | one insertion step adds exactly the new item and keeps a descending list descending |
| TopP.SortByProb | script.js:52 | its own contract keeps the length; `TopP.SortByProbIsSortedPermutation` and `TopP.SortByProbIsStable` state that it sorts stably |
| TopP.SortByProbIsSortedPermutation | script.js:52 | the sort returns a permutation of its input in descending order of probability |
| TopP.InsertKeepsTieOrder | script.js:52 | one insertion step puts the new item in front of the items that tie with it and moves no other tie |
| TopP.SortByProbIsStable | script.js:52 | for every probability p, the items with probability p come out in their input order |
| TopP.MassPermutation | script.js:52 | a permutation has the same total mass, so sorting loses no probability |
| TopP.ApplyTopP | script.js:51-66 | candidates followed by eliminated is the sorted distribution; each candidate was kept while the mass before it was below `topP`; nothing is eliminated before the mass reaches `topP`; a non-empty list with `topP > 0` has a candidate; `topP <= 0` has none; `topP >= 1` on a positive distribution of mass 1 eliminates nothing |
| TopP.KeepStep | script.js:57-60 | keeping an item while the mass is below `topP` happens only before anything is eliminated, and it adds that item's probability |
| TopP.EliminateStep | script.js:61-63 | eliminating an item once the mass has reached `topP` keeps the split's invariant |
| TopP.NucleusNonEmpty | script.js:57-60 | with `topP > 0` the most probable item is always the first candidate |
| TopP.NucleusEmptyBelowZero | script.js:57-60 | with `topP <= 0` there are no candidates |
| TopP.NucleusKeepsAll | script.js:56-64 | positive probabilities summing to 1 with `topP >= 1` eliminate nothing |
| TopP.NucleusSplitUnique | script.js:51-66 | the split is a function of the sorted list and `topP`, so recomputing it gives the same split |
| TopP.NucleusIsMassThreshold | script.js:56-64 | with non-negative probabilities, position k of the sorted list is a candidate exactly when the mass before it is below `topP` |
| TopP.CandidatesKeepSign | script.js:51-66 | the candidates of a non-negative distribution are non-negative |
| TopP.NucleusScenario | script.js:51-66 | for probabilities 0.721, 0.265 and 0.013 (the softmax of the scores -1, -2, -5, to three places) with `topP = 0.95`, the candidates are the first two words and the third is eliminated |
| Sampler.Renormalise | script.js:70-71 | the words stay in place; dividing by the candidates' own non-zero total gives mass 1; a positive total over non-negative candidates gives non-negative probabilities |
| Sampler.Pick | script.js:76-82 | its own contract returns an index in range or nothing; `Sampler.PickIsFirstHit`, `Sampler.FirstHitIsPick`, `Sampler.PickIsInterval` and `Sampler.PickIsTotal` state which index |
| Sampler.PickIsFirstHit | script.js:76-82 | the walk stops at the first candidate whose probability exceeds what is left of the draw, and finds none only if no candidate qualifies |
| Sampler.FirstHitIsPick | script.js:76-82 | conversely, the first candidate that catches the draw is the one the walk returns |
| Sampler.PickIsInterval | script.js:76-82 | with non-negative probabilities and a non-negative draw, candidate i is picked exactly when the draw lies in [mass before i, mass up to i) |
| Sampler.PickIsTotal | script.js:76-86 | a draw between 0 and the total mass is always caught, so the fallback is never needed for such a draw |
| Sampler.SampledWord | script.js:69-88 | a word is returned exactly when there are candidates, and it is always one of the candidates' words |
| Sampler.SampledWordIsInterval | script.js:69-88 | for a draw in [0, 1) in candidate i's slice of the renormalised distribution, the result is candidate i's word, or the first candidate's word when candidate i's word is the empty string; some slice always holds the draw |
| Sampler.SampleFromCandidates | script.js:69-88 | the loop returns the word `SampledWord` specifies, including the fallback to the first candidate; a word comes out exactly when there are candidates, and it is a candidate's word |
| Simulation.Session.constructor | script.js:31-32 | a new session has not started and has an empty current distribution |
| Simulation.Session.RunSimulation | script.js:189-232 | the flag becomes "already started or a word was asked for"; if still not started, nothing changes; otherwise the current distribution is recomputed and the frame holds the nucleus split of it; when a word is asked for, the word is the specified sample from the candidates and the prompt becomes the old prompt, a space and that word; the run fails exactly when a word is asked for and `topP <= 0` or the vocabulary is empty, and then the prompt is unchanged |
| Simulation.RecomputeIsIdempotent | script.js:189-232 | two runs in a row that only recompute, with the same sliders, render the same frame and leave the prompt alone |

## Left out

- Rendering is not modelled: the D3 chart (`setupChart`, `updateChart`), the DOM elements, the status messages and their `toFixed` percentages.
- The event listeners and the button's disabling and re-enabling are not modelled. `setTimeout` and the `onComplete` callback are left out too; on the failing path `onComplete` is never reached.
- The sliders are read with `parseFloat`; the model takes `temperature` and `topP` directly as reals.
- The listeners' own `if (simulationRunning)` checks are left out. `RunSimulation` repeats that gate, so leaving them out changes nothing.
- Edits the user types into the prompt box between runs are not modelled. `generatedText` only mirrors the prompt and is not a separate field.
- IEEE-754 arithmetic is not modelled: numbers are exact reals, so there is no rounding, overflow, Infinity or NaN. The one division by zero that matters is modelled explicitly: with zero total mass in the sampler, the NaN or infinite probabilities lead to the first candidate's word.
- `Math.exp` is abstract, so softmax values for concrete scores are not computed. `TopP.NucleusScenario` takes the probabilities of the three-word example (scores -1, -2, -5), rounded to three places, as given and states their top-p split.
- The claims that as the temperature falls toward 0 the mass concentrates on the best-scoring word, and spreads out as it rises, are not proved. Proving them would need the exponential's analytic behaviour.
- `Math.random()` is the parameter `r`. The claim that sampling frequencies converge to the renormalised probabilities is statistical. It is replaced by `Sampler.PickIsInterval`: each word owns a slice of [0, 1) as wide as its renormalised probability.
- The random start-up base scores (script.js:13-19) are not modelled: the scores are an arbitrary input of the session.
- A sort comparator that sees NaN is not modelled: the probabilities are exact reals.
- Simulation.Session.RunSimulation: assumes only that `exp` is positive. The ranking facts are stated separately in `Simulation.DistributionKeepsRank` under the stronger `IsExp`.

/**
 * The `{ word, prob }` records the script passes between its stages, and
 * the probability mass of a list of them.
 */
module Tokens {
  import opened Numeric

  /** One vocabulary entry with its probability. */
  datatype Token = Token(word: string, prob: real)

  /** The probabilities of a list of tokens, in order. */
  function Probs(s: seq<Token>): (p: seq<real>)
    ensures |p| == |s|
  {
    seq(|s|, i requires 0 <= i < |s| => s[i].prob)
  }

  /** The words of a list of tokens, in order. */
  function Labels(s: seq<Token>): (w: seq<string>)
    ensures |w| == |s|
  {
    seq(|s|, i requires 0 <= i < |s| => s[i].word)
  }

  /** Total probability of a list of tokens (`reduce((sum, item) => sum + item.prob, 0)`). */
  function Mass(s: seq<Token>): (m: real)
    ensures NonNegative(s) ==> m >= 0.0
  {
    SumOfNonNegative(s);
    Sum(Probs(s))
  }

  lemma SumOfNonNegative(s: seq<Token>)
    ensures NonNegative(s) ==> Sum(Probs(s)) >= 0.0
  {
    if NonNegative(s) {
      SumNonNegative(Probs(s));
    }
  }

  lemma MassConcat(a: seq<Token>, b: seq<Token>)
    ensures Mass(a + b) == Mass(a) + Mass(b)
  {
    assert Probs(a + b) == Probs(a) + Probs(b);
    SumConcat(Probs(a), Probs(b));
  }

  lemma MassSnoc(a: seq<Token>, t: Token)
    ensures Mass(a + [t]) == Mass(a) + t.prob
  {
    MassConcat(a, [t]);
    assert Probs([t]) == [t.prob];
    assert Sum([t.prob]) == t.prob + Sum([t.prob][1..]);
    assert [t.prob][1..] == [];
  }

  /** Mass of a non-empty list splits into the head and the rest. */
  lemma MassCons(s: seq<Token>)
    requires |s| > 0
    ensures Mass(s) == s[0].prob + Mass(s[1..])
  {
    assert Probs(s)[1..] == Probs(s[1..]);
  }

  ghost predicate NonNegative(s: seq<Token>)
  {
    forall i :: 0 <= i < |s| ==> s[i].prob >= 0.0
  }

  ghost predicate Positive(s: seq<Token>)
  {
    forall i :: 0 <= i < |s| ==> s[i].prob > 0.0
  }

  /** With non-negative probabilities, a longer prefix never has less mass. */
  lemma {:induction false} PrefixMassMonotone(s: seq<Token>, i: nat, j: nat)
    requires NonNegative(s)
    requires i <= j <= |s|
    ensures Mass(s[..i]) <= Mass(s[..j])
  {
    if i < j {
      PrefixMassMonotone(s, i, j - 1);
      assert s[..j] == s[..j - 1] + [s[j - 1]];
      MassSnoc(s[..j - 1], s[j - 1]);
    }
  }

  /** Sorted by descending probability. */
  ghost predicate Descending(s: seq<Token>)
  {
    forall i, j :: 0 <= i < j < |s| ==> s[i].prob >= s[j].prob
  }

  /** The words of a list of tokens, as a set. */
  ghost function Words(s: seq<Token>): set<string>
  {
    set i | 0 <= i < |s| :: s[i].word
  }

  /**
   * The distribution the script stores in `currentDistribution`:
   * `vocabulary.map((word, i) => ({ word, prob: probs[i] }))`.
   */
  function Zip(vocabulary: seq<string>, probs: seq<real>): (d: seq<Token>)
    requires |vocabulary| == |probs|
    ensures |d| == |vocabulary|
    ensures Labels(d) == vocabulary && Probs(d) == probs
  {
    seq(|vocabulary|, i requires 0 <= i < |vocabulary| => Token(vocabulary[i], probs[i]))
  }
}

/**
 * `sampleFromCandidates`: renormalise the candidates and walk them with a
 * uniform draw `r`, subtracting each probability until the draw falls
 * below one of them.
 */
module Sampler {
  import opened Wrappers
  import opened Numeric
  import opened Tokens

  /**
   * `candidates.map(item => ({ ...item, prob: item.prob / totalProb }))`:
   * the words stay in place, and dividing by the candidates' own total
   * gives mass 1, non-negative when the candidates are.
   */
  function Renormalise(candidates: seq<Token>, total: real): (r: seq<Token>)
    requires total != 0.0
    ensures |r| == |candidates| && Labels(r) == Labels(candidates)
    ensures total == Mass(candidates) ==> Mass(r) == 1.0
    ensures total > 0.0 && NonNegative(candidates) ==> NonNegative(r)
  {
    var r := seq(|candidates|, i requires 0 <= i < |candidates| => Token(candidates[i].word, candidates[i].prob / total));
    assert Probs(r) == DivideAll(Probs(candidates), total);
    SumDivideAll(Probs(candidates), total);
    assert total / total == 1.0;
    r
  }

  /** Candidate `j` catches the draw: what is left of `r` after the earlier ones is below its probability. */
  ghost predicate Hit(norm: seq<Token>, r: real, j: nat)
    requires j < |norm|
  {
    r - Mass(norm[..j]) < norm[j].prob
  }

  /**
   * The walk of the sampling loop, as a function: the index at which
   * `random < candidate.prob` first succeeds, if any.
   */
  function Pick(norm: seq<Token>, r: real): (k: Option<nat>)
    ensures k.Some? ==> k.value < |norm|
  {
    if norm == [] then None
    else if r < norm[0].prob then Some(0)
    else
      match Pick(norm[1..], r - norm[0].prob)
      case None => None
      case Some(j) => Some(j + 1)
  }

  /** Checking candidate `j + 1` with draw `r` is checking candidate `j` of the tail with `r` less the head. */
  lemma HitInTail(norm: seq<Token>, r: real, j: nat)
    requires j + 1 < |norm|
    ensures Hit(norm, r, j + 1) <==> Hit(norm[1..], r - norm[0].prob, j)
  {
    assert norm[..j + 1][1..] == norm[1..][..j];
    MassCons(norm[..j + 1]);
  }

  lemma HitAtHead(norm: seq<Token>, r: real)
    requires |norm| > 0
    ensures Hit(norm, r, 0) <==> r < norm[0].prob
  {
    assert Probs(norm[..0]) == [];
  }

  /**
   * `Pick` returns exactly the first candidate that catches the draw, and
   * nothing when no candidate does.
   */
  lemma {:induction false} PickIsFirstHit(norm: seq<Token>, r: real)
    ensures Pick(norm, r).Some? ==>
      var i := Pick(norm, r).value;
      Hit(norm, r, i) && forall j :: 0 <= j < i ==> !Hit(norm, r, j)
    ensures Pick(norm, r).None? ==> forall j :: 0 <= j < |norm| ==> !Hit(norm, r, j)
  {
    if norm != [] {
      HitAtHead(norm, r);
      if r >= norm[0].prob {
        var tail, rest := norm[1..], r - norm[0].prob;
        PickIsFirstHit(tail, rest);
        forall j | 0 <= j < |tail|
          ensures Hit(norm, r, j + 1) <==> Hit(tail, rest, j)
        {
          HitInTail(norm, r, j);
        }
        if Pick(norm, r).None? {
          forall j | 0 <= j < |norm|
            ensures !Hit(norm, r, j)
          {
            if j > 0 {
              assert !Hit(tail, rest, j - 1);
            }
          }
        } else {
          var i := Pick(norm, r).value;
          forall j | 0 <= j < i
            ensures !Hit(norm, r, j)
          {
            if j > 0 {
              assert !Hit(tail, rest, j - 1);
            }
          }
        }
      }
    }
  }

  /** The converse: the first candidate that catches the draw is the one `Pick` returns. */
  lemma FirstHitIsPick(norm: seq<Token>, r: real, i: nat)
    requires i < |norm|
    requires Hit(norm, r, i)
    requires forall j :: 0 <= j < i ==> !Hit(norm, r, j)
    ensures Pick(norm, r) == Some(i)
  {
    PickIsFirstHit(norm, r);
    if Pick(norm, r).Some? {
      var k := Pick(norm, r).value;
      if k < i {
        assert false;
      } else if i < k {
        assert false;
      }
    }
  }

  /**
   * With non-negative probabilities and a non-negative draw, candidate `i`
   * is picked exactly when `r` lies in `[mass before i, mass up to i)`:
   * an interval whose width is the candidate's own probability.
   */
  lemma PickIsInterval(norm: seq<Token>, r: real, i: nat)
    requires NonNegative(norm)
    requires r >= 0.0
    requires i < |norm|
    ensures Pick(norm, r) == Some(i) <==> Mass(norm[..i]) <= r < Mass(norm[..i + 1])
  {
    assert norm[..i + 1] == norm[..i] + [norm[i]];
    MassSnoc(norm[..i], norm[i]);
    PickIsFirstHit(norm, r);
    if Pick(norm, r) == Some(i) {
      if i == 0 {
        assert Probs(norm[..0]) == [];
      } else {
        assert !Hit(norm, r, i - 1);
        assert norm[..i] == norm[..i - 1] + [norm[i - 1]];
        MassSnoc(norm[..i - 1], norm[i - 1]);
      }
    }
    if Mass(norm[..i]) <= r < Mass(norm[..i + 1]) {
      forall j | 0 <= j < i
        ensures !Hit(norm, r, j)
      {
        assert norm[..j + 1] == norm[..j] + [norm[j]];
        MassSnoc(norm[..j], norm[j]);
        PrefixMassMonotone(norm, j + 1, i);
      }
      FirstHitIsPick(norm, r, i);
    }
  }

  /**
   * A draw below the total mass is always caught: over exact reals the
   * fallback of the script is never needed when the mass is 1.
   */
  lemma {:induction false} PickIsTotal(norm: seq<Token>, r: real)
    requires NonNegative(norm)
    requires 0.0 <= r < Mass(norm)
    ensures Pick(norm, r).Some?
  {
    if norm != [] {
      MassCons(norm);
      if r >= norm[0].prob {
        PickIsTotal(norm[1..], r - norm[0].prob);
      }
    }
  }

  /**
   * The word the script returns for draw `r`. `None` stands for the
   * TypeError raised when `candidates` is empty. With a total mass of zero
   * the script divides by zero: the first renormalised probability is
   * NaN, +Infinity or -Infinity, so the walk either stops at the first
   * candidate or leaves the draw NaN or +Infinity, and then no later
   * comparison succeeds; either way the first candidate's word comes out,
   * which is what the zero-mass case returns. The fallback to the first
   * candidate is also taken for a chosen word that is the empty string,
   * which JavaScript treats as false.
   */
  function SampledWord(candidates: seq<Token>, r: real): (w: Option<string>)
    ensures w.Some? <==> candidates != []
    ensures w.Some? ==> w.value in Words(candidates)
  {
    if candidates == [] then None
    else if Mass(candidates) == 0.0 then Some(candidates[0].word)
    else
      var norm := Renormalise(candidates, Mass(candidates));
      match Pick(norm, r)
      case Some(i) =>
        assert norm[i].word == Labels(norm)[i] == candidates[i].word;
        if norm[i].word != "" then Some(norm[i].word) else Some(candidates[0].word)
      case None => Some(candidates[0].word)
  }

  /**
   * With non-negative probabilities, positive total mass and a draw in
   * [0, 1), a draw in candidate `i`'s slice `[mass before i, mass up to i)`
   * of the renormalised distribution returns that candidate's word, or the
   * first candidate's word when that word is the empty string; and some
   * candidate's slice always holds the draw.
   */
  lemma SampledWordIsInterval(candidates: seq<Token>, r: real, i: nat)
    requires NonNegative(candidates)
    requires Mass(candidates) > 0.0
    requires 0.0 <= r < 1.0
    requires i < |candidates|
    ensures
      var norm := Renormalise(candidates, Mass(candidates));
      Mass(norm[..i]) <= r < Mass(norm[..i + 1]) ==>
        SampledWord(candidates, r) == Some(if candidates[i].word != "" then candidates[i].word else candidates[0].word)
    ensures Pick(Renormalise(candidates, Mass(candidates)), r).Some?
  {
    var norm := Renormalise(candidates, Mass(candidates));
    PickIsTotal(norm, r);
    PickIsInterval(norm, r, i);
    assert norm[i].word == Labels(norm)[i] == candidates[i].word;
  }

  method SampleFromCandidates(candidates: seq<Token>, r: real) returns (chosenWord: Option<string>)
    ensures chosenWord == SampledWord(candidates, r)
    ensures chosenWord.Some? <==> candidates != []
    ensures chosenWord.Some? ==> chosenWord.value in Words(candidates)
  {
    var totalProb := Mass(candidates);
    var chosen: Option<string> := None;
    if totalProb != 0.0 {
      var normalizedCandidates := Renormalise(candidates, totalProb);
      var random := r;
      var i := 0;
      while i < |normalizedCandidates|
        invariant 0 <= i <= |normalizedCandidates|
        invariant random == r - Mass(normalizedCandidates[..i])
        invariant chosen == None
        invariant forall j :: 0 <= j < i ==> !Hit(normalizedCandidates, r, j)
      {
        var candidate := normalizedCandidates[i];
        if random < candidate.prob {
          FirstHitIsPick(normalizedCandidates, r, i);
          chosen := Some(candidate.word);
          break;
        }
        assert normalizedCandidates[..i + 1] == normalizedCandidates[..i] + [candidate];
        MassSnoc(normalizedCandidates[..i], candidate);
        random := random - candidate.prob;
        i := i + 1;
      }
      PickIsFirstHit(normalizedCandidates, r);
      assert chosen == (match Pick(normalizedCandidates, r)
                        case Some(k) => Some(normalizedCandidates[k].word)
                        case None => None);
    }
    // `!chosenWord`: nothing chosen, or the empty string
    if chosen.None? || chosen.value == "" {
      if candidates == [] {
        // `normalizedCandidates[0].word` throws
        return None;
      }
      chosen := Some(candidates[0].word);
    }
    chosenWord := chosen;
  }
}

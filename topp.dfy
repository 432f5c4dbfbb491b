/**
 * `applyTopP`: nucleus filtering. The distribution is sorted by
 * descending probability and walked with a running cumulative mass; an
 * item is kept while the mass before it is still below `topP`.
 */
module TopP {
  import opened Numeric
  import opened Tokens

  /**
   * Puts `t` in front of the first element whose probability does not
   * exceed its own. Inserting the earlier element of a tie in front of the
   * later ones is what makes the sort below stable.
   */
  function Insert(t: Token, s: seq<Token>): (r: seq<Token>)
    ensures |r| == |s| + 1
  {
    if s == [] then [t]
    else if t.prob >= s[0].prob then [t] + s
    else [s[0]] + Insert(t, s[1..])
  }

  /** Insertion adds exactly `t` and keeps a descending list descending. */
  lemma {:induction false} InsertIsSortedInsertion(t: Token, s: seq<Token>)
    ensures multiset(Insert(t, s)) == multiset(s) + multiset{t}
    ensures Descending(s) ==> Descending(Insert(t, s))
  {
    if s != [] && t.prob < s[0].prob {
      var rest := Insert(t, s[1..]);
      InsertIsSortedInsertion(t, s[1..]);
      assert s == [s[0]] + s[1..];
      InsertBelowHead(t, s, rest);
    }
  }

  /** Inserting a smaller item into the tail of a descending list keeps the head on top. */
  lemma InsertBelowHead(t: Token, s: seq<Token>, rest: seq<Token>)
    requires |s| > 0 && t.prob < s[0].prob
    requires multiset(rest) == multiset(s[1..]) + multiset{t}
    requires Descending(s) ==> Descending(rest)
    ensures Descending(s) ==> Descending([s[0]] + rest)
  {
    if Descending(s) {
      forall k | 0 <= k < |rest|
        ensures rest[k].prob <= s[0].prob
      {
        assert rest[k] in multiset(rest);
        if rest[k] != t {
          assert rest[k] in multiset(s[1..]);
          var j :| 0 <= j < |s[1..]| && s[1..][j] == rest[k];
          assert s[1 + j] == rest[k];
        }
      }
    }
  }

  /**
   * `[...dist].sort((a, b) => b.prob - a.prob)`: a stable sort by
   * descending probability (insertion sort).
   */
  function SortByProb(s: seq<Token>): (r: seq<Token>)
    ensures |r| == |s|
  {
    if s == [] then [] else Insert(s[0], SortByProb(s[1..]))
  }

  /** The sort returns a descending permutation of its input. */
  lemma {:induction false} SortByProbIsSortedPermutation(s: seq<Token>)
    ensures multiset(SortByProb(s)) == multiset(s)
    ensures Descending(SortByProb(s))
  {
    if s != [] {
      SortByProbIsSortedPermutation(s[1..]);
      InsertIsSortedInsertion(s[0], SortByProb(s[1..]));
      assert s == [s[0]] + s[1..];
    }
  }

  /** The items of `s` whose probability is `p`, in their order in `s`. */
  ghost function Ties(s: seq<Token>, p: real): seq<Token>
  {
    if s == [] then [] else (if s[0].prob == p then [s[0]] else []) + Ties(s[1..], p)
  }

  /** Insertion puts `t` in front of every item that ties with it, and moves no other tie. */
  lemma {:induction false} InsertKeepsTieOrder(t: Token, s: seq<Token>, p: real)
    ensures Ties(Insert(t, s), p) == (if t.prob == p then [t] else []) + Ties(s, p)
  {
    if s == [] {
      TiesCons(t, [], p);
    } else if t.prob >= s[0].prob {
      TiesCons(t, s, p);
    } else {
      var rest := Insert(t, s[1..]);
      InsertKeepsTieOrder(t, s[1..], p);
      TiesCons(s[0], rest, p);
      TiesCons(s[0], s[1..], p);
      assert [s[0]] + s[1..] == s;
      assert s[0].prob != p || t.prob != p;
    }
  }

  lemma TiesCons(x: Token, rest: seq<Token>, p: real)
    ensures Ties([x] + rest, p) == (if x.prob == p then [x] else []) + Ties(rest, p)
  {
    assert ([x] + rest)[1..] == rest;
  }

  /**
   * The sort is stable, as `Array.prototype.sort` is: for every probability
   * `p`, the items with probability `p` come out in their input order.
   */
  lemma {:induction false} SortByProbIsStable(s: seq<Token>, p: real)
    ensures Ties(SortByProb(s), p) == Ties(s, p)
  {
    if s != [] {
      SortByProbIsStable(s[1..], p);
      InsertKeepsTieOrder(s[0], SortByProb(s[1..]), p);
    }
  }

  /** Removing the element at `k` and putting it in front keeps the mass. */
  lemma MassRemoveAt(s: seq<Token>, k: nat)
    requires k < |s|
    ensures Mass(s) == s[k].prob + Mass(s[..k] + s[k + 1..])
  {
    assert s == s[..k] + [s[k]] + s[k + 1..];
    MassConcat(s[..k] + [s[k]], s[k + 1..]);
    MassSnoc(s[..k], s[k]);
    MassConcat(s[..k], s[k + 1..]);
  }

  /** A permutation has the same mass: no probability is lost or gained by sorting. */
  lemma {:induction false} MassPermutation(a: seq<Token>, b: seq<Token>)
    requires multiset(a) == multiset(b)
    ensures Mass(a) == Mass(b)
    decreases |a|
  {
    if a == [] {
      assert |b| == |multiset(b)| == 0;
    } else {
      assert a[0] in multiset(b);
      var k :| 0 <= k < |b| && b[k] == a[0];
      var rest := b[..k] + b[k + 1..];
      RemoveMatching(a, b, k);
      MassPermutation(a[1..], rest);
      MassCons(a);
      MassRemoveAt(b, k);
    }
  }

  /** Taking the same item out of two permutations of each other leaves permutations. */
  lemma RemoveMatching(a: seq<Token>, b: seq<Token>, k: nat)
    requires multiset(a) == multiset(b)
    requires |a| > 0 && k < |b| && b[k] == a[0]
    ensures multiset(a[1..]) == multiset(b[..k] + b[k + 1..])
  {
    var rest := b[..k] + b[k + 1..];
    assert b == b[..k] + [b[k]] + b[k + 1..];
    assert a == [a[0]] + a[1..];
    assert multiset(b) == multiset(rest) + multiset{a[0]};
    assert multiset(a) == multiset(a[1..]) + multiset{a[0]};
    assert multiset(a[1..]) + multiset{a[0]} == multiset(rest) + multiset{a[0]};
    assert multiset(a[1..]) == multiset(a[1..]) + multiset{a[0]} - multiset{a[0]};
    assert multiset(rest) == multiset(rest) + multiset{a[0]} - multiset{a[0]};
  }

  /** A permutation of non-negative (positive) items is non-negative (positive). */
  lemma PermutationKeepsSign(a: seq<Token>, b: seq<Token>)
    requires multiset(a) == multiset(b)
    ensures NonNegative(a) ==> NonNegative(b)
    ensures Positive(a) ==> Positive(b)
  {
    forall k | 0 <= k < |b|
      ensures b[k] in a
    {
      assert b[k] in multiset(a);
    }
  }

  /**
   * The two facts the walk establishes about its split of the sorted list:
   * every candidate was taken while the mass of the candidates before it
   * was below `topP`, and nothing was eliminated before that mass reached
   * `topP`.
   */
  ghost predicate NucleusSplit(candidates: seq<Token>, eliminated: seq<Token>, topP: real)
  {
    && (forall k :: 0 <= k < |candidates| ==> Mass(candidates[..k]) < topP)
    && (eliminated != [] ==> Mass(candidates) >= topP)
  }

  method ApplyTopP(dist: seq<Token>, topP: real) returns (candidates: seq<Token>, eliminated: seq<Token>)
    ensures candidates + eliminated == SortByProb(dist)
    ensures NucleusSplit(candidates, eliminated, topP)
    ensures multiset(candidates + eliminated) == multiset(dist)
    ensures Descending(candidates) && Descending(eliminated)
    ensures |dist| > 0 && topP > 0.0 ==> |candidates| > 0
    ensures topP <= 0.0 ==> candidates == []
    ensures Positive(dist) && Mass(dist) == 1.0 && topP >= 1.0 ==> eliminated == []
  {
    var sortedDist := SortByProb(dist);
    var cumulativeProb := 0.0;
    candidates, eliminated := [], [];
    for i := 0 to |sortedDist|
      invariant candidates + eliminated == sortedDist[..i]
      invariant cumulativeProb == Mass(candidates)
      invariant NucleusSplit(candidates, eliminated, topP)
    {
      var item := sortedDist[i];
      assert sortedDist[..i + 1] == sortedDist[..i] + [item];
      if cumulativeProb < topP {
        KeepStep(candidates, eliminated, item, topP);
        candidates := candidates + [item];
        cumulativeProb := cumulativeProb + item.prob;
      } else {
        EliminateStep(candidates, eliminated, item, topP);
        eliminated := eliminated + [item];
      }
    }
    assert sortedDist[..|sortedDist|] == sortedDist;
    SplitOfSorted(dist, candidates, eliminated, topP);
  }

  /**
   * One step of the walk that keeps `item`: the mass so far is below
   * `topP`, so nothing has been eliminated yet, and the split still holds.
   */
  lemma KeepStep(candidates: seq<Token>, eliminated: seq<Token>, item: Token, topP: real)
    requires NucleusSplit(candidates, eliminated, topP)
    requires Mass(candidates) < topP
    ensures eliminated == []
    ensures NucleusSplit(candidates + [item], eliminated, topP)
    ensures Mass(candidates + [item]) == Mass(candidates) + item.prob
  {
    var longer := candidates + [item];
    MassSnoc(candidates, item);
    assert longer[..|candidates|] == candidates;
    forall k | 0 <= k < |candidates|
      ensures Mass(longer[..k]) < topP
    {
      assert longer[..k] == candidates[..k];
    }
  }

  /** One step of the walk that eliminates `item`: the mass has reached `topP`. */
  lemma EliminateStep(candidates: seq<Token>, eliminated: seq<Token>, item: Token, topP: real)
    requires NucleusSplit(candidates, eliminated, topP)
    requires Mass(candidates) >= topP
    ensures NucleusSplit(candidates, eliminated + [item], topP)
  {
  }

  /** What follows from a nucleus split of the sorted distribution. */
  lemma SplitOfSorted(dist: seq<Token>, candidates: seq<Token>, eliminated: seq<Token>, topP: real)
    requires candidates + eliminated == SortByProb(dist)
    requires NucleusSplit(candidates, eliminated, topP)
    ensures multiset(candidates + eliminated) == multiset(dist)
    ensures Descending(candidates) && Descending(eliminated)
    ensures |dist| > 0 && topP > 0.0 ==> |candidates| > 0
    ensures topP <= 0.0 ==> candidates == []
    ensures Positive(dist) && Mass(dist) == 1.0 && topP >= 1.0 ==> eliminated == []
  {
    var sorted := SortByProb(dist);
    SortByProbIsSortedPermutation(dist);
    DescendingParts(candidates, eliminated);
    SplitFacts(sorted, candidates, eliminated, topP);
    if Positive(dist) && Mass(dist) == 1.0 {
      PermutationKeepsSign(dist, sorted);
      MassPermutation(dist, sorted);
    }
  }

  /** Both halves of a split of a descending list are descending. */
  lemma DescendingParts(candidates: seq<Token>, eliminated: seq<Token>)
    requires Descending(candidates + eliminated)
    ensures Descending(candidates) && Descending(eliminated)
  {
    var s := candidates + eliminated;
    assert forall k :: 0 <= k < |candidates| ==> candidates[k] == s[k];
    assert forall k :: 0 <= k < |eliminated| ==> eliminated[k] == s[|candidates| + k];
  }

  /** The three boundary cases of a split, stated about the sorted list itself. */
  lemma SplitFacts(sorted: seq<Token>, candidates: seq<Token>, eliminated: seq<Token>, topP: real)
    requires candidates + eliminated == sorted
    requires NucleusSplit(candidates, eliminated, topP)
    ensures |sorted| > 0 && topP > 0.0 ==> |candidates| > 0
    ensures topP <= 0.0 ==> candidates == []
    ensures Positive(sorted) && Mass(sorted) == 1.0 && topP >= 1.0 ==> eliminated == []
  {
    if |sorted| > 0 && topP > 0.0 {
      NucleusNonEmpty(sorted, candidates, eliminated, topP);
    }
    if topP <= 0.0 {
      NucleusEmptyBelowZero(candidates, eliminated, topP);
    }
    if Positive(sorted) && Mass(sorted) == 1.0 && topP >= 1.0 {
      NucleusKeepsAll(sorted, candidates, eliminated, topP);
    }
  }

  /** A non-empty list and a positive threshold always keep the first (most probable) item. */
  lemma NucleusNonEmpty(sorted: seq<Token>, candidates: seq<Token>, eliminated: seq<Token>, topP: real)
    requires candidates + eliminated == sorted
    requires NucleusSplit(candidates, eliminated, topP)
    requires |sorted| > 0 && topP > 0.0
    ensures |candidates| > 0 && candidates[0] == sorted[0]
  {
  }

  /** A threshold of zero or less keeps nothing: the walk does not force a candidate. */
  lemma NucleusEmptyBelowZero(candidates: seq<Token>, eliminated: seq<Token>, topP: real)
    requires NucleusSplit(candidates, eliminated, topP)
    requires topP <= 0.0
    ensures candidates == []
  {
    if candidates != [] {
      EmptyPrefix(candidates);
      assert false;
    }
  }

  lemma EmptyPrefix(s: seq<Token>)
    ensures s[..0] == [] && Mass(s[..0]) == 0.0
  {
    assert Probs(s[..0]) == [];
  }

  /** With positive probabilities summing to 1, a threshold of 1 or more keeps everything. */
  lemma NucleusKeepsAll(sorted: seq<Token>, candidates: seq<Token>, eliminated: seq<Token>, topP: real)
    requires candidates + eliminated == sorted
    requires NucleusSplit(candidates, eliminated, topP)
    requires Positive(sorted) && Mass(sorted) == 1.0 && topP >= 1.0
    ensures eliminated == []
  {
    if eliminated != [] {
      MassConcat(candidates, eliminated);
      MassCons(eliminated);
      assert eliminated[0] == sorted[|candidates|];
      assert Positive(eliminated[1..]) by {
        forall k | 0 <= k < |eliminated[1..]|
          ensures eliminated[1..][k].prob > 0.0
        {
          assert eliminated[1..][k] == sorted[|candidates| + 1 + k];
        }
      }
    }
  }

  /**
   * The split is determined by the sorted list and the threshold: two
   * splits of the same list that both satisfy `NucleusSplit` are equal.
   */
  lemma NucleusSplitUnique(c1: seq<Token>, e1: seq<Token>, c2: seq<Token>, e2: seq<Token>, topP: real)
    requires c1 + e1 == c2 + e2
    requires NucleusSplit(c1, e1, topP) && NucleusSplit(c2, e2, topP)
    ensures c1 == c2 && e1 == e2
  {
    SharedPrefix(c1, e1, c2, e2);
    SharedPrefix(c2, e2, c1, e1);
    if |c1| < |c2| {
      assert false;
    } else if |c2| < |c1| {
      assert false;
    }
    assert c1 == (c1 + e1)[..|c1|] == (c2 + e2)[..|c2|] == c2;
    assert e1 == (c1 + e1)[|c1|..] == (c2 + e2)[|c2|..] == e2;
  }

  lemma SharedPrefix(c1: seq<Token>, e1: seq<Token>, c2: seq<Token>, e2: seq<Token>)
    ensures c1 + e1 == c2 + e2 && |c1| <= |c2| ==> c2[..|c1|] == c1
  {
    if c1 + e1 == c2 + e2 && |c1| <= |c2| {
      assert c2[..|c1|] == (c2 + e2)[..|c1|];
    }
  }

  /**
   * With non-negative probabilities the split is a monotone threshold on
   * prefix mass: position `k` of the sorted list is a candidate exactly
   * when the mass of the items before it is below `topP`.
   */
  lemma NucleusIsMassThreshold(sorted: seq<Token>, candidates: seq<Token>, eliminated: seq<Token>, topP: real, k: nat)
    requires candidates + eliminated == sorted
    requires NucleusSplit(candidates, eliminated, topP)
    requires NonNegative(sorted)
    requires k < |sorted|
    ensures k < |candidates| <==> Mass(sorted[..k]) < topP
  {
    if k < |candidates| {
      assert sorted[..k] == candidates[..k];
    } else {
      assert sorted[..|candidates|] == candidates;
      PrefixMassMonotone(sorted, |candidates|, k);
    }
  }

  /** The candidates of a distribution with non-negative probabilities have non-negative probabilities. */
  lemma CandidatesKeepSign(dist: seq<Token>, candidates: seq<Token>, eliminated: seq<Token>)
    requires candidates + eliminated == SortByProb(dist)
    requires NonNegative(dist)
    ensures NonNegative(candidates)
  {
    var sorted := SortByProb(dist);
    SortByProbIsSortedPermutation(dist);
    PermutationKeepsSign(dist, sorted);
    assert forall k :: 0 <= k < |candidates| ==> candidates[k] == sorted[k];
  }

  /**
   * Three words with probabilities 0.721, 0.265 and 0.013 (the softmax of
   * the scores -1, -2 and -5 at temperature 1, to three places) and
   * `topP = 0.95`:
   * the mass before "b" is 0.721 < 0.95, so "b" is kept although it takes
   * the mass over the threshold, and the mass before "c" is 0.986, so "c"
   * is eliminated. Any split the filter can return is this one.
   */
  lemma NucleusScenario(candidates: seq<Token>, eliminated: seq<Token>)
    requires candidates + eliminated == SortByProb([Token("a", 0.721), Token("b", 0.265), Token("c", 0.013)])
    requires NucleusSplit(candidates, eliminated, 0.95)
    ensures candidates == [Token("a", 0.721), Token("b", 0.265)]
    ensures eliminated == [Token("c", 0.013)]
  {
    var a, b, c := Token("a", 0.721), Token("b", 0.265), Token("c", 0.013);
    ScenarioSorted(a, b, c);
    ScenarioOutcome(a, b, c, candidates, eliminated);
  }

  lemma ScenarioOutcome(a: Token, b: Token, c: Token, candidates: seq<Token>, eliminated: seq<Token>)
    requires a.prob == 0.721 && b.prob == 0.265
    requires candidates + eliminated == [a, b, c]
    requires NucleusSplit(candidates, eliminated, 0.95)
    ensures candidates == [a, b] && eliminated == [c]
  {
    ScenarioSplit(a, b, c);
    assert [a, b] + [c] == [a, b, c];
    NucleusSplitUnique(candidates, eliminated, [a, b], [c], 0.95);
  }

  lemma ScenarioSorted(a: Token, b: Token, c: Token)
    requires a.prob >= b.prob >= c.prob
    ensures SortByProb([a, b, c]) == [a, b, c]
  {
    assert [a, b, c][1..] == [b, c];
    assert [b, c][1..] == [c];
    assert [c][1..] == [];
    assert SortByProb([c]) == [c];
    assert SortByProb([b, c]) == [b, c];
  }

  lemma ScenarioSplit(a: Token, b: Token, c: Token)
    requires a.prob == 0.721 && b.prob == 0.265
    ensures NucleusSplit([a, b], [c], 0.95)
  {
    var kept := [a, b];
    EmptyPrefix(kept);
    assert kept[..1] == [] + [a];
    MassSnoc([], a);
    assert kept == kept[..1] + [b];
    MassSnoc(kept[..1], b);
    assert forall k :: 0 <= k < 2 ==> kept[..k] == [] || kept[..k] == kept[..1];
  }
}

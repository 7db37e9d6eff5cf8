/**
 * The maximising search of wordle2.cc.  `ScoreGuess` is the expected number
 * of answers a guess eliminates: a feedback group of size c has probability
 * c/n and eliminates n − c answers, plus, before the search horizon, the
 * best score of the group one level deeper.  `BestGuess` keeps the guesses
 * whose horizon score is above 0.2·n, sorts them best first, and either
 * returns the best of them (at the horizon) or re-scores at most 100 of
 * them deeply and returns the first strict maximum above 0.
 *
 * Feedback is read from a table `codes` of any shape that `Codec.Fits`,
 * in particular the program's table of shift-after codes (`Codec.Faithful`
 * with `ShiftAfter`); the cache module serves both packings.
 */
module Wordle2 {
  import opened Wrappers
  import opened Words
  import opened Codec
  import opened Filter
  import opened Partition
  import opened Ranking
  import opened Search

  /** At most this many shortlisted guesses are scored deeply. */
  const MAX_CANDIDATES: nat := 100

  /** The shortlist threshold: 0.2 times the number of answers. */
  function Threshold(answers: seq<nat>): real {
    0.2 * (|answers| as real)
  }

  /**
   * `best_guess`.  An empty shortlist (which is what an empty answer list
   * or an empty pool gives) returns guess 0 with score 0.  The loop's guess
   * variable starts uninitialised; it is `None` here, and it is only
   * returned when no candidate scores above 0.
   */
  function BestGuess(t: Tables, codes: seq<seq<nat>>, pool: seq<nat>, answers: seq<nat>, depth: nat, maxDepth: nat): (r: Pick<nat>)
    requires Env(t, codes, pool, answers)
    ensures r.score >= 0.0
    ensures r.guess.Some? && |t.guesses| > 0 ==> r.guess.value < |t.guesses|
    ensures |answers| == 1 ==> r.guess.Some? && r.guess.value < |t.guesses| && t.guesses[r.guess.value] == t.answers[answers[0]] && r.score == 0.0
    decreases Gap(depth, maxDepth), 4, 0
  {
    if |answers| == 1 then
      Pick(Some(LookupGuess(t, t.answers[answers[0]])), 0.0)
    else
      var kept := Kept(t, codes, pool, answers);
      if |kept| == 0 then
        Pick(Some(0), 0.0)
      else
        var sorted := Ranked(t, Maximize, kept);
        if depth == maxDepth then
          Pick(Some(sorted[0].guess), sorted[0].score)
        else
          var cands := TopGuesses(t, sorted, MAX_CANDIDATES);
          var rescored := Rescore(t, codes, cands, Worthwhile(t, kept), answers, depth, maxDepth, |cands|);
          FirstBestIsFirstExtremum(Maximize, rescored, Pick(None, 0.0));
          FirstBest(Maximize, rescored, Pick(None, 0.0))
  }

  /** The shortlist: the guesses whose horizon score is above the threshold, in pool order. */
  function Kept(t: Tables, codes: seq<seq<nat>>, pool: seq<nat>, answers: seq<nat>): (kept: seq<Scored<nat>>)
    requires Env(t, codes, pool, answers)
    ensures ScoredIndices(t, kept)
    ensures forall k :: 0 <= k < |kept| ==> kept[k].score > Threshold(answers)
    decreases 0, 3, |pool| + 1
  {
    var shallow := Shallow(t, codes, pool, answers, |pool|);
    var kept := KeepAbove(shallow, Threshold(answers));
    KeepAboveComplete(shallow, Threshold(answers));
    assert ScoredIndices(t, shallow);
    ScoredMembers(t, shallow, kept);
    kept
  }

  /** The horizon scores of the first `k` guesses of the pool, in pool order. */
  function Shallow(t: Tables, codes: seq<seq<nat>>, pool: seq<nat>, answers: seq<nat>, k: nat): (r: seq<Scored<nat>>)
    requires Env(t, codes, pool, answers) && k <= |pool|
    ensures |r| == k
    ensures forall i :: 0 <= i < k ==> r[i].guess == pool[i] && r[i].score >= 0.0
    decreases 0, 3, k
  {
    if k == 0 then []
    else
      Shallow(t, codes, pool, answers, k - 1) + [Scored(pool[k - 1], ScoreGuess(t, codes, pool[k - 1], pool, answers, 0, 0))]
  }

  /** The deep scores of the first `k` candidates, in candidate order. */
  function Rescore(t: Tables, codes: seq<seq<nat>>, cands: seq<nat>, pool: seq<nat>, answers: seq<nat>, depth: nat, maxDepth: nat, k: nat): (r: seq<Scored<nat>>)
    requires Env(t, codes, pool, answers) && GuessIndices(t, cands) && k <= |cands|
    ensures |r| == k
    ensures forall i :: 0 <= i < k ==> r[i].guess == cands[i] && r[i].score >= 0.0
    decreases Gap(depth, maxDepth), 2, k
  {
    if k == 0 then []
    else
      Rescore(t, codes, cands, pool, answers, depth, maxDepth, k - 1)
        + [Scored(cands[k - 1], ScoreGuess(t, codes, cands[k - 1], pool, answers, depth, maxDepth))]
  }

  /** `score_guess`: the expected number of answers eliminated by guessing `g`. */
  function ScoreGuess(t: Tables, codes: seq<seq<nat>>, g: nat, pool: seq<nat>, answers: seq<nat>, depth: nat, maxDepth: nat): (r: real)
    requires Env(t, codes, pool, answers) && g < |t.guesses|
    ensures r >= 0.0
    decreases Gap(depth, maxDepth), 1, 0
  {
    BucketsGrouped(t, codes, g, answers);
    BucketSum(t, codes, g, pool, answers, depth, maxDepth, Buckets(t, codes, g, answers))
  }

  /** The contributions of a list of feedback groups. */
  function BucketSum(t: Tables, codes: seq<seq<nat>>, g: nat, pool: seq<nat>, answers: seq<nat>, depth: nat, maxDepth: nat,
                     bs: seq<Bucket<nat, nat>>): (r: real)
    requires Env(t, codes, pool, answers) && GroupedBy(t, codes, g, answers, bs)
    ensures r >= 0.0
    decreases Gap(depth, maxDepth), 0, |bs|
  {
    if |bs| == 0 then 0.0
    else
      GroupedTail(t, codes, g, answers, bs);
      Contribution(t, codes, g, pool, answers, depth, maxDepth, bs[0])
        + BucketSum(t, codes, g, pool, answers, depth, maxDepth, bs[1..])
  }

  /**
   * One group's share: its probability c/n times the n − c answers it
   * eliminates, plus before the horizon the best score of the group one
   * level deeper.
   */
  function Contribution(t: Tables, codes: seq<seq<nat>>, g: nat, pool: seq<nat>, answers: seq<nat>, depth: nat, maxDepth: nat,
                        b: Bucket<nat, nat>): (r: real)
    requires Env(t, codes, pool, answers) && g < |t.guesses|
    requires |b.members| > 0 && b.members == FilterAnswers(t, codes, answers, [Outcome(g, b.key)])
    ensures r >= 0.0
    decreases Gap(depth, maxDepth), 0, 0
  {
    var count := |b.members|;
    var n := |answers|;
    var prob := count as real / n as real;
    var eliminated := n as real - count as real;
    var total :=
      if depth < maxDepth then
        var left := FilterAnswers(t, codes, answers, [Outcome(g, b.key)]);
        eliminated + BestGuess(t, codes, pool, left, depth + 1, maxDepth).score
      else eliminated;
    NonNegativeProduct(prob, total);
    prob * total
  }

  /** Entry `j` of the deep scores is candidate `j` with its deep score. */
  lemma {:induction false} RescoreEntry(t: Tables, codes: seq<seq<nat>>, cands: seq<nat>, pool: seq<nat>, answers: seq<nat>, depth: nat, maxDepth: nat, k: nat, j: nat)
    requires Env(t, codes, pool, answers) && GuessIndices(t, cands) && j < k <= |cands|
    ensures Rescore(t, codes, cands, pool, answers, depth, maxDepth, k)[j].score == ScoreGuess(t, codes, cands[j], pool, answers, depth, maxDepth)
  {
    if j < k - 1 {
      RescoreEntry(t, codes, cands, pool, answers, depth, maxDepth, k - 1, j);
    }
  }

  /**
   * A guess is shortlisted, with its horizon score, exactly when that score
   * is above 0.2·n.
   */
  lemma ShortlistKeepsAbove(t: Tables, codes: seq<seq<nat>>, pool: seq<nat>, answers: seq<nat>, i: nat)
    requires Env(t, codes, pool, answers) && i < |pool|
    ensures var s := Scored(pool[i], ScoreGuess(t, codes, pool[i], pool, answers, 0, 0));
      s in Kept(t, codes, pool, answers) <==> s.score > Threshold(answers)
  {
    var shallow := Shallow(t, codes, pool, answers, |pool|);
    KeepAboveComplete(shallow, Threshold(answers));
    ShallowEntry(t, codes, pool, answers, |pool|, i);
  }

  /** Entry `i` of the horizon scores is guess `pool[i]` with its horizon score. */
  lemma {:induction false} ShallowEntry(t: Tables, codes: seq<seq<nat>>, pool: seq<nat>, answers: seq<nat>, k: nat, i: nat)
    requires Env(t, codes, pool, answers) && i < k <= |pool|
    ensures Shallow(t, codes, pool, answers, k)[i] == Scored(pool[i], ScoreGuess(t, codes, pool[i], pool, answers, 0, 0))
  {
    if i < k - 1 {
      ShallowEntry(t, codes, pool, answers, k - 1, i);
    }
  }

  /** With two or more answers and nothing shortlisted, the result is guess 0 with score 0. */
  lemma EmptyShortlistGivesFirstGuess(t: Tables, codes: seq<seq<nat>>, pool: seq<nat>, answers: seq<nat>, depth: nat, maxDepth: nat)
    requires Env(t, codes, pool, answers) && |answers| != 1
    requires forall i :: 0 <= i < |pool| ==> ScoreGuess(t, codes, pool[i], pool, answers, 0, 0) <= Threshold(answers)
    ensures BestGuess(t, codes, pool, answers, depth, maxDepth) == Pick(Some(0), 0.0)
  {
    var kept := Kept(t, codes, pool, answers);
    if |kept| > 0 {
      var shallow := Shallow(t, codes, pool, answers, |pool|);
      KeepAboveComplete(shallow, Threshold(answers));
      assert kept[0] in shallow;
      var i :| 0 <= i < |shallow| && shallow[i] == kept[0];
      ShallowEntry(t, codes, pool, answers, |pool|, i);
      assert false;
    }
  }

  /** No guess eliminates anything from an empty answer list, so the result is guess 0 with score 0. */
  lemma NoAnswersGivesFirstGuess(t: Tables, codes: seq<seq<nat>>, pool: seq<nat>, depth: nat, maxDepth: nat)
    requires Env(t, codes, pool, [])
    ensures BestGuess(t, codes, pool, [], depth, maxDepth) == Pick(Some(0), 0.0)
  {
    forall i | 0 <= i < |pool|
      ensures ScoreGuess(t, codes, pool[i], pool, [], 0, 0) <= Threshold([])
    {
      BucketsGrouped(t, codes, pool[i], []);
      assert |Buckets(t, codes, pool[i], [])| == 0;
    }
    EmptyShortlistGivesFirstGuess(t, codes, pool, [], depth, maxDepth);
  }

  /**
   * At the horizon, with something shortlisted, the result is a
   * shortlisted guess with its horizon score, and no shortlisted guess
   * scores higher.
   */
  lemma HorizonPickIsMaximum(t: Tables, codes: seq<seq<nat>>, pool: seq<nat>, answers: seq<nat>, depth: nat, maxDepth: nat)
    requires Env(t, codes, pool, answers) && |answers| > 1 && depth == maxDepth && |Kept(t, codes, pool, answers)| > 0
    ensures var kept := Kept(t, codes, pool, answers);
      var r := BestGuess(t, codes, pool, answers, depth, maxDepth);
      && r.guess.Some?
      && Scored(r.guess.value, r.score) in kept
      && forall i :: 0 <= i < |kept| ==> r.score >= kept[i].score
  {
    SortHeadIsBest(Maximize, Kept(t, codes, pool, answers));
  }

  /**
   * Before the horizon, with something shortlisted, the result is the
   * first strict maximum of the deep scores of the best at most 100
   * shortlisted guesses, each scored with the whole shortlist as the next
   * pool; it is `None` exactly when none of them scores above 0.
   */
  lemma DeepPickIsFirstMaximum(t: Tables, codes: seq<seq<nat>>, pool: seq<nat>, answers: seq<nat>, depth: nat, maxDepth: nat)
    requires Env(t, codes, pool, answers) && |answers| > 1 && depth != maxDepth && |Kept(t, codes, pool, answers)| > 0
    ensures var kept := Kept(t, codes, pool, answers);
      var next := Worthwhile(t, kept);
      var cands := TopGuesses(t, Ranked(t, Maximize, kept), MAX_CANDIDATES);
      var rescored := Rescore(t, codes, cands, next, answers, depth, maxDepth, |cands|);
      var r := BestGuess(t, codes, pool, answers, depth, maxDepth);
      && |cands| <= MAX_CANDIDATES
      && (forall j :: 0 <= j < |cands| ==> rescored[j] == Scored(cands[j], ScoreGuess(t, codes, cands[j], next, answers, depth, maxDepth)))
      && IsFirstBest(Maximize, rescored, Pick(None, 0.0), r)
      && (r.guess.None? <==> r == Pick(None, 0.0))
  {
    var kept := Kept(t, codes, pool, answers);
    var next := Worthwhile(t, kept);
    var cands := TopGuesses(t, Ranked(t, Maximize, kept), MAX_CANDIDATES);
    var rescored := Rescore(t, codes, cands, next, answers, depth, maxDepth, |cands|);
    var init := Pick(None, 0.0);
    FirstBestIsFirstExtremum(Maximize, rescored, init);
    assert BestGuess(t, codes, pool, answers, depth, maxDepth) == FirstBest(Maximize, rescored, init);
    RescoreEntries(t, codes, cands, next, answers, depth, maxDepth);
  }

  /** Entry `j` of the deep scores is candidate `j` with its deep score. */
  lemma RescoreEntries(t: Tables, codes: seq<seq<nat>>, cands: seq<nat>, pool: seq<nat>, answers: seq<nat>, depth: nat, maxDepth: nat)
    requires Env(t, codes, pool, answers) && GuessIndices(t, cands)
    ensures forall j :: 0 <= j < |cands| ==>
      Rescore(t, codes, cands, pool, answers, depth, maxDepth, |cands|)[j] == Scored(cands[j], ScoreGuess(t, codes, cands[j], pool, answers, depth, maxDepth))
  {
    forall j | 0 <= j < |cands|
      ensures Rescore(t, codes, cands, pool, answers, depth, maxDepth, |cands|)[j] == Scored(cands[j], ScoreGuess(t, codes, cands[j], pool, answers, depth, maxDepth))
    {
      RescoreEntry(t, codes, cands, pool, answers, depth, maxDepth, |cands|, j);
    }
  }


  /** At the horizon one group of size c contributes c − c²/n. */
  lemma ContributionAtHorizon(t: Tables, codes: seq<seq<nat>>, g: nat, pool: seq<nat>, answers: seq<nat>, depth: nat, maxDepth: nat,
                              b: Bucket<nat, nat>)
    requires Env(t, codes, pool, answers) && g < |t.guesses| && depth >= maxDepth
    requires |b.members| > 0 && b.members == FilterAnswers(t, codes, answers, [Outcome(g, b.key)])
    ensures Contribution(t, codes, g, pool, answers, depth, maxDepth, b)
      == |b.members| as real - ((|b.members| * |b.members|) as real) / (|answers| as real)
  {
    EliminatedShare(|b.members|, |answers|);
  }

  /** At the horizon the groups add up to their total size minus Σc²/n. */
  lemma {:induction false} BucketSumAtHorizon(t: Tables, codes: seq<seq<nat>>, g: nat, pool: seq<nat>, answers: seq<nat>, depth: nat, maxDepth: nat,
                                              bs: seq<Bucket<nat, nat>>)
    requires Env(t, codes, pool, answers) && |answers| > 0 && GroupedBy(t, codes, g, answers, bs) && depth >= maxDepth
    ensures BucketSum(t, codes, g, pool, answers, depth, maxDepth, bs) == Size(bs) as real - (SumSquares(bs) as real) / (|answers| as real)
  {
    if |bs| > 0 {
      GroupedTail(t, codes, g, answers, bs);
      BucketSumAtHorizon(t, codes, g, pool, answers, depth, maxDepth, bs[1..]);
      ContributionAtHorizon(t, codes, g, pool, answers, depth, maxDepth, bs[0]);
      AddRatios(|bs[0].members| * |bs[0].members|, SumSquares(bs[1..]), |answers|);
    }
  }

  /**
   * At the horizon a guess eliminates n − Σc²/n answers in expectation,
   * where the group sizes c add up to n; this lies between 0 and n − 1.
   */
  lemma ScoreGuessAtHorizon(t: Tables, codes: seq<seq<nat>>, g: nat, pool: seq<nat>, answers: seq<nat>, depth: nat, maxDepth: nat)
    requires Env(t, codes, pool, answers) && |answers| > 0 && g < |t.guesses| && depth >= maxDepth
    ensures var bs := Buckets(t, codes, g, answers);
      var n := |answers| as real;
      && Size(bs) == |answers|
      && ScoreGuess(t, codes, g, pool, answers, depth, maxDepth) == n - (SumSquares(bs) as real) / n
      && ScoreGuess(t, codes, g, pool, answers, depth, maxDepth) <= n - 1.0
  {
    var bs := Buckets(t, codes, g, answers);
    BucketsGrouped(t, codes, g, answers);
    BucketSumAtHorizon(t, codes, g, pool, answers, depth, maxDepth, bs);
    SumSquaresBounds(bs);
    RatioAtLeastOne(SumSquares(bs), |answers|);
  }
}

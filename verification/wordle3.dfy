/**
 * The minimising search of wordle3.cc.  `ScoreGuess` is the expected number
 * of answers still left after a guess: the answers are grouped by the
 * feedback the guess gives, a group of size c has probability c/n, the
 * winning group counts 0, and every other group counts either its size (at
 * the search horizon) or the best score one level deeper plus 0.001.
 * `BestGuess` scores every guess of the pool at the horizon, keeps the
 * first guess and every guess below 0.8·n, sorts them, and either returns
 * the best of them (at the horizon) or re-scores at most 100 of them
 * deeply and returns the first strict minimum.
 *
 * Feedback is read from a table `codes` of any shape that `Codec.Fits`,
 * in particular the program's table of most-significant-first codes
 * (`Codec.Faithful`); the cache module shows the cached lookup returns the
 * same codes.
 */
module Wordle3 {
  import opened Wrappers
  import opened Words
  import opened Codec
  import opened Filter
  import opened Partition
  import opened Ranking
  import opened Search

  /** At most this many shortlisted guesses are scored deeply. */
  const MAX_CANDIDATES: nat := 100
  /** The starting "best score" of the re-scoring loop. */
  const SENTINEL: real := 1000000.0
  /** Added to a deeper level's score for the extra guess it costs. */
  const STEP_COST: real := 0.001

  /** The shortlist threshold: 0.8 times the number of answers. */
  function Threshold(answers: seq<nat>): real {
    0.8 * (|answers| as real)
  }

  /**
   * `best_guess`.  The program asserts that `answers` is not empty.  The
   * loop's guess variable starts uninitialised; it is `None` here, and it is
   * only returned when no candidate scores below the sentinel.
   */
  function BestGuess(t: Tables, codes: seq<seq<nat>>, pool: seq<nat>, answers: seq<nat>, depth: nat, maxDepth: nat): (r: Pick<nat>)
    requires Env(t, codes, pool, answers) && |pool| > 0 && |answers| > 0
    ensures r.score >= 0.0
    ensures r.guess.Some? ==> r.guess.value < |t.guesses|
    ensures |answers| == 1 ==> r.guess.Some? && t.guesses[r.guess.value] == t.answers[answers[0]] && r.score == 0.0
    decreases Gap(depth, maxDepth), 4, 0
  {
    if |answers| == 1 then
      Pick(Some(LookupGuess(t, t.answers[answers[0]])), 0.0)
    else
      var kept := Kept(t, codes, pool, answers);
      var sorted := Ranked(t, Minimize, kept);
      if depth == maxDepth then
        Pick(Some(sorted[0].guess), sorted[0].score)
      else
        var cands := TopGuesses(t, sorted, MAX_CANDIDATES);
        var rescored := Rescore(t, codes, cands, Worthwhile(t, kept), answers, depth, maxDepth, |cands|);
        FirstBestIsFirstExtremum(Minimize, rescored, Pick(None, SENTINEL));
        FirstBest(Minimize, rescored, Pick(None, SENTINEL))
  }

  /**
   * The shortlist: the first guess of the pool, then every later guess
   * whose horizon score is below the threshold.
   */
  function Kept(t: Tables, codes: seq<seq<nat>>, pool: seq<nat>, answers: seq<nat>): (kept: seq<Scored<nat>>)
    requires Env(t, codes, pool, answers) && |pool| > 0 && |answers| > 0
    ensures |kept| > 0 && kept[0].guess == pool[0] && ScoredIndices(t, kept)
    decreases 0, 3, |pool| + 1
  {
    var shallow := Shallow(t, codes, pool, answers, |pool|);
    var kept := ShortlistFirstOrBelow(shallow, Threshold(answers));
    assert ScoredIndices(t, shallow);
    ScoredMembers(t, shallow, kept);
    kept
  }

  /** The horizon scores of the first `k` guesses of the pool, in pool order. */
  function Shallow(t: Tables, codes: seq<seq<nat>>, pool: seq<nat>, answers: seq<nat>, k: nat): (r: seq<Scored<nat>>)
    requires Env(t, codes, pool, answers) && |pool| > 0 && |answers| > 0 && k <= |pool|
    ensures |r| == k
    ensures forall i :: 0 <= i < k ==> r[i].guess == pool[i] && r[i].score >= 0.0
    decreases 0, 3, k
  {
    if k == 0 then []
    else
      Shallow(t, codes, pool, answers, k - 1) + [Scored(pool[k - 1], ScoreGuess(t, codes, pool[k - 1], pool, answers, 0, 0))]
  }

  /** The deep scores of the first `k` candidates, in candidate order. */
  function Rescore(t: Tables, codes: seq<seq<nat>>, cands: seq<nat>, pool: seq<nat>, answers: seq<nat>, depth: nat, maxDepth: nat, k: nat): (r: seq<Scored<nat>>)
    requires Env(t, codes, pool, answers) && |pool| > 0 && |answers| > 0 && GuessIndices(t, cands) && k <= |cands|
    ensures |r| == k
    ensures forall i :: 0 <= i < k ==> r[i].guess == cands[i] && r[i].score >= 0.0
    decreases Gap(depth, maxDepth), 2, k
  {
    if k == 0 then []
    else
      Rescore(t, codes, cands, pool, answers, depth, maxDepth, k - 1)
        + [Scored(cands[k - 1], ScoreGuess(t, codes, cands[k - 1], pool, answers, depth, maxDepth))]
  }

  /** `score_guess`: the expected number of answers left after guessing `g`. */
  function ScoreGuess(t: Tables, codes: seq<seq<nat>>, g: nat, pool: seq<nat>, answers: seq<nat>, depth: nat, maxDepth: nat): (r: real)
    requires Env(t, codes, pool, answers) && |pool| > 0 && |answers| > 0 && g < |t.guesses|
    ensures r >= 0.0
    decreases Gap(depth, maxDepth), 1, 0
  {
    BucketsGrouped(t, codes, g, answers);
    BucketSum(t, codes, g, pool, answers, depth, maxDepth, Buckets(t, codes, g, answers))
  }

  /** The contributions of a list of feedback groups. */
  function BucketSum(t: Tables, codes: seq<seq<nat>>, g: nat, pool: seq<nat>, answers: seq<nat>, depth: nat, maxDepth: nat,
                     bs: seq<Bucket<nat, nat>>): (r: real)
    requires Env(t, codes, pool, answers) && |pool| > 0 && |answers| > 0 && GroupedBy(t, codes, g, answers, bs)
    ensures r >= 0.0
    decreases Gap(depth, maxDepth), 0, |bs|
  {
    if |bs| == 0 then 0.0
    else
      GroupedTail(t, codes, g, answers, bs);
      Contribution(t, codes, g, pool, answers, depth, maxDepth, bs[0])
        + BucketSum(t, codes, g, pool, answers, depth, maxDepth, bs[1..])
  }

  /**
   * One group's share: its probability c/n times 0 for the winning
   * feedback, the deeper best score plus 0.001 before the horizon, or c at
   * the horizon.
   */
  function Contribution(t: Tables, codes: seq<seq<nat>>, g: nat, pool: seq<nat>, answers: seq<nat>, depth: nat, maxDepth: nat,
                        b: Bucket<nat, nat>): (r: real)
    requires Env(t, codes, pool, answers) && |pool| > 0 && g < |t.guesses|
    requires |b.members| > 0 && b.members == FilterAnswers(t, codes, answers, [Outcome(g, b.key)])
    ensures r >= 0.0
    decreases Gap(depth, maxDepth), 0, 0
  {
    var remaining := |b.members|;
    var prob := remaining as real / |answers| as real;
    var score :=
      if b.key == ALL_HIT then 0.0
      else if depth < maxDepth then
        var left := FilterAnswers(t, codes, answers, [Outcome(g, b.key)]);
        BestGuess(t, codes, pool, left, depth + 1, maxDepth).score + STEP_COST
      else remaining as real;
    NonNegativeProduct(prob, score);
    prob * score
  }

  /** Entry `i` of the horizon scores is guess `pool[i]` with its horizon score. */
  lemma {:induction false} ShallowEntry(t: Tables, codes: seq<seq<nat>>, pool: seq<nat>, answers: seq<nat>, k: nat, i: nat)
    requires Env(t, codes, pool, answers) && |pool| > 0 && |answers| > 0 && i < k <= |pool|
    ensures Shallow(t, codes, pool, answers, k)[i] == Scored(pool[i], ScoreGuess(t, codes, pool[i], pool, answers, 0, 0))
  {
    if i < k - 1 {
      ShallowEntry(t, codes, pool, answers, k - 1, i);
    }
  }

  /**
   * The shortlist starts with the first guess of the pool, with its
   * horizon score, and then holds exactly the later guesses whose horizon
   * score is below 0.8·n.
   */
  lemma ShortlistKeepsFirstAndBelow(t: Tables, codes: seq<seq<nat>>, pool: seq<nat>, answers: seq<nat>)
    requires Env(t, codes, pool, answers) && |pool| > 0 && |answers| > 0
    ensures var shallow := Shallow(t, codes, pool, answers, |pool|);
      var kept := Kept(t, codes, pool, answers);
      && kept[0] == Scored(pool[0], ScoreGuess(t, codes, pool[0], pool, answers, 0, 0))
      && forall x :: x in kept[1..] <==> x in shallow[1..] && x.score < Threshold(answers)
  {
    var shallow := Shallow(t, codes, pool, answers, |pool|);
    ShortlistFirstOrBelowKeeps(shallow, Threshold(answers));
    ShallowEntry(t, codes, pool, answers, |pool|, 0);
  }

  /**
   * At the horizon (with two or more answers) the result is a shortlisted
   * guess with its horizon score, and no shortlisted guess scores lower.
   */
  lemma HorizonPickIsMinimum(t: Tables, codes: seq<seq<nat>>, pool: seq<nat>, answers: seq<nat>, depth: nat, maxDepth: nat)
    requires Env(t, codes, pool, answers) && |pool| > 0 && |answers| > 1 && depth == maxDepth
    ensures var kept := Kept(t, codes, pool, answers);
      var r := BestGuess(t, codes, pool, answers, depth, maxDepth);
      && r.guess.Some?
      && Scored(r.guess.value, r.score) in kept
      && forall i :: 0 <= i < |kept| ==> r.score <= kept[i].score
  {
    SortHeadIsBest(Minimize, Kept(t, codes, pool, answers));
  }

  /**
   * Before the horizon (with two or more answers) the result is the first
   * strict minimum of the deep scores of the best at most 100 shortlisted
   * guesses, each scored with the whole shortlist as the next pool; it is
   * `None` exactly when none of them scores below the sentinel.
   */
  lemma DeepPickIsFirstMinimum(t: Tables, codes: seq<seq<nat>>, pool: seq<nat>, answers: seq<nat>, depth: nat, maxDepth: nat)
    requires Env(t, codes, pool, answers) && |pool| > 0 && |answers| > 1 && depth != maxDepth
    ensures var kept := Kept(t, codes, pool, answers);
      var next := Worthwhile(t, kept);
      var cands := TopGuesses(t, Ranked(t, Minimize, kept), MAX_CANDIDATES);
      var rescored := Rescore(t, codes, cands, next, answers, depth, maxDepth, |cands|);
      var r := BestGuess(t, codes, pool, answers, depth, maxDepth);
      && |cands| <= MAX_CANDIDATES
      && (forall j :: 0 <= j < |cands| ==> rescored[j] == Scored(cands[j], ScoreGuess(t, codes, cands[j], next, answers, depth, maxDepth)))
      && IsFirstBest(Minimize, rescored, Pick(None, SENTINEL), r)
      && (r.guess.None? <==> r == Pick(None, SENTINEL))
  {
    var kept := Kept(t, codes, pool, answers);
    var next := Worthwhile(t, kept);
    var cands := TopGuesses(t, Ranked(t, Minimize, kept), MAX_CANDIDATES);
    var rescored := Rescore(t, codes, cands, next, answers, depth, maxDepth, |cands|);
    var init := Pick(None, SENTINEL);
    FirstBestIsFirstExtremum(Minimize, rescored, init);
    assert BestGuess(t, codes, pool, answers, depth, maxDepth) == FirstBest(Minimize, rescored, init);
    RescoreEntries(t, codes, cands, next, answers, depth, maxDepth);
  }


  /** Entry `j` of the deep scores is candidate `j` with its deep score. */
  lemma RescoreEntries(t: Tables, codes: seq<seq<nat>>, cands: seq<nat>, pool: seq<nat>, answers: seq<nat>, depth: nat, maxDepth: nat)
    requires Env(t, codes, pool, answers) && |pool| > 0 && |answers| > 0 && GuessIndices(t, cands)
    ensures forall j :: 0 <= j < |cands| ==>
      Rescore(t, codes, cands, pool, answers, depth, maxDepth, |cands|)[j].score == ScoreGuess(t, codes, cands[j], pool, answers, depth, maxDepth)
  {
    forall j | 0 <= j < |cands|
      ensures Rescore(t, codes, cands, pool, answers, depth, maxDepth, |cands|)[j].score == ScoreGuess(t, codes, cands[j], pool, answers, depth, maxDepth)
    {
      RescoreEntry(t, codes, cands, pool, answers, depth, maxDepth, |cands|, j);
    }
  }

  lemma {:induction false} RescoreEntry(t: Tables, codes: seq<seq<nat>>, cands: seq<nat>, pool: seq<nat>, answers: seq<nat>, depth: nat, maxDepth: nat, k: nat, j: nat)
    requires Env(t, codes, pool, answers) && |pool| > 0 && |answers| > 0 && GuessIndices(t, cands) && j < k <= |cands|
    ensures Rescore(t, codes, cands, pool, answers, depth, maxDepth, k)[j].score == ScoreGuess(t, codes, cands[j], pool, answers, depth, maxDepth)
  {
    if j < k - 1 {
      RescoreEntry(t, codes, cands, pool, answers, depth, maxDepth, k - 1, j);
    }
  }

  /** At the horizon the groups add up as c/n · c each, leaving out the winning group. */
  lemma {:induction false} BucketSumAtHorizon(t: Tables, codes: seq<seq<nat>>, g: nat, pool: seq<nat>, answers: seq<nat>, depth: nat, maxDepth: nat,
                                              bs: seq<Bucket<nat, nat>>)
    requires Env(t, codes, pool, answers) && |pool| > 0 && |answers| > 0 && GroupedBy(t, codes, g, answers, bs) && depth >= maxDepth
    ensures BucketSum(t, codes, g, pool, answers, depth, maxDepth, bs) == (SquaresExcept(bs, ALL_HIT) as real) / (|answers| as real)
  {
    if |bs| > 0 {
      GroupedTail(t, codes, g, answers, bs);
      BucketSumAtHorizon(t, codes, g, pool, answers, depth, maxDepth, bs[1..]);
      var head := if bs[0].key == ALL_HIT then 0 else |bs[0].members| * |bs[0].members|;
      ContributionAtHorizon(t, codes, g, pool, answers, depth, maxDepth, bs[0]);
      AddRatios(head, SquaresExcept(bs[1..], ALL_HIT), |answers|);
    }
  }

  /** At the horizon one group of size c contributes c²/n, or nothing when it is the winning group. */
  lemma ContributionAtHorizon(t: Tables, codes: seq<seq<nat>>, g: nat, pool: seq<nat>, answers: seq<nat>, depth: nat, maxDepth: nat,
                              b: Bucket<nat, nat>)
    requires Env(t, codes, pool, answers) && |pool| > 0 && g < |t.guesses| && depth >= maxDepth
    requires |b.members| > 0 && b.members == FilterAnswers(t, codes, answers, [Outcome(g, b.key)])
    ensures Contribution(t, codes, g, pool, answers, depth, maxDepth, b)
      == ((if b.key == ALL_HIT then 0 else |b.members| * |b.members|) as real) / (|answers| as real)
  {
    if b.key != ALL_HIT {
      var c := |b.members|;
      SquareShare(c, |answers|, Contribution(t, codes, g, pool, answers, depth, maxDepth, b));
    }
  }

  /**
   * At the horizon a guess scores the sum of c²/n over its non-winning
   * feedback groups, where the group sizes c add up to n; the score is at
   * most n.
   */
  lemma ScoreGuessAtHorizon(t: Tables, codes: seq<seq<nat>>, g: nat, pool: seq<nat>, answers: seq<nat>, depth: nat, maxDepth: nat)
    requires Env(t, codes, pool, answers) && |pool| > 0 && |answers| > 0 && g < |t.guesses| && depth >= maxDepth
    ensures var bs := Buckets(t, codes, g, answers);
      && Size(bs) == |answers|
      && ScoreGuess(t, codes, g, pool, answers, depth, maxDepth) == (SquaresExcept(bs, ALL_HIT) as real) / (|answers| as real)
      && ScoreGuess(t, codes, g, pool, answers, depth, maxDepth) <= |answers| as real
  {
    var bs := Buckets(t, codes, g, answers);
    BucketsGrouped(t, codes, g, answers);
    BucketSumAtHorizon(t, codes, g, pool, answers, depth, maxDepth, bs);
    SquaresExceptBound(bs, ALL_HIT);
    SumSquaresBounds(bs);
    RatioBound(SquaresExcept(bs, ALL_HIT), |answers|);
  }

  /**
   * `score_guess_new`: the groups themselves are searched instead of
   * re-filtering, every group of two or more answers is searched one level
   * deeper (the winning group is not singled out), and a group of one
   * answer counts 1.
   */
  function ScoreGuessNew(t: Tables, codes: seq<seq<nat>>, g: nat, pool: seq<nat>, answers: seq<nat>, depth: nat, maxDepth: nat): (r: real)
    requires Env(t, codes, pool, answers) && |pool| > 0 && |answers| > 0 && g < |t.guesses|
    ensures r >= 0.0
  {
    BucketsGrouped(t, codes, g, answers);
    NewBucketSum(t, codes, g, pool, answers, depth, maxDepth, Buckets(t, codes, g, answers))
  }

  /** The contributions of `score_guess_new` over a list of feedback groups. */
  function NewBucketSum(t: Tables, codes: seq<seq<nat>>, g: nat, pool: seq<nat>, answers: seq<nat>, depth: nat, maxDepth: nat,
                        bs: seq<Bucket<nat, nat>>): (r: real)
    requires Env(t, codes, pool, answers) && |pool| > 0 && |answers| > 0 && GroupedBy(t, codes, g, answers, bs)
    ensures r >= 0.0
    decreases |bs|
  {
    if |bs| == 0 then 0.0
    else
      GroupedTail(t, codes, g, answers, bs);
      NewContribution(t, codes, g, pool, answers, depth, maxDepth, bs[0])
        + NewBucketSum(t, codes, g, pool, answers, depth, maxDepth, bs[1..])
  }

  /** One group's share in `score_guess_new`. */
  function NewContribution(t: Tables, codes: seq<seq<nat>>, g: nat, pool: seq<nat>, answers: seq<nat>, depth: nat, maxDepth: nat,
                           b: Bucket<nat, nat>): (r: real)
    requires Env(t, codes, pool, answers) && |pool| > 0 && g < |t.guesses|
    requires |b.members| > 0 && b.members == FilterAnswers(t, codes, answers, [Outcome(g, b.key)])
    ensures r >= 0.0
  {
    var remaining := |b.members|;
    var prob := remaining as real / |answers| as real;
    var score :=
      if remaining > 1 && depth < maxDepth then
        FilterKeepsExactly(t, codes, answers, [Outcome(g, b.key)]);
        BestGuess(t, codes, pool, b.members, depth + 1, maxDepth).score + STEP_COST
      else remaining as real;
    NonNegativeProduct(prob, score);
    prob * score
  }

  /**
   * At the horizon `score_guess_new` is Σc²/n over all groups, the
   * winning one included, so it lies between 1 and n.
   */
  lemma ScoreGuessNewAtHorizon(t: Tables, codes: seq<seq<nat>>, g: nat, pool: seq<nat>, answers: seq<nat>, depth: nat, maxDepth: nat)
    requires Env(t, codes, pool, answers) && |pool| > 0 && |answers| > 0 && g < |t.guesses| && depth >= maxDepth
    ensures var bs := Buckets(t, codes, g, answers);
      && ScoreGuessNew(t, codes, g, pool, answers, depth, maxDepth) == (SumSquares(bs) as real) / (|answers| as real)
      && 1.0 <= ScoreGuessNew(t, codes, g, pool, answers, depth, maxDepth) <= |answers| as real
  {
    var bs := Buckets(t, codes, g, answers);
    BucketsGrouped(t, codes, g, answers);
    NewBucketSumAtHorizon(t, codes, g, pool, answers, depth, maxDepth, bs);
    SumSquaresBounds(bs);
    RatioBound(SumSquares(bs), |answers|);
    RatioAtLeastOne(SumSquares(bs), |answers|);
  }

  lemma {:induction false} NewBucketSumAtHorizon(t: Tables, codes: seq<seq<nat>>, g: nat, pool: seq<nat>, answers: seq<nat>, depth: nat, maxDepth: nat,
                                                 bs: seq<Bucket<nat, nat>>)
    requires Env(t, codes, pool, answers) && |pool| > 0 && |answers| > 0 && GroupedBy(t, codes, g, answers, bs) && depth >= maxDepth
    ensures NewBucketSum(t, codes, g, pool, answers, depth, maxDepth, bs) == (SumSquares(bs) as real) / (|answers| as real)
  {
    if |bs| > 0 {
      GroupedTail(t, codes, g, answers, bs);
      NewBucketSumAtHorizon(t, codes, g, pool, answers, depth, maxDepth, bs[1..]);
      WeightedSquare(|bs[0].members|, |answers|);
      AddRatios(|bs[0].members| * |bs[0].members|, SumSquares(bs[1..]), |answers|);
    }
  }
}

/**
 * The Go variant, gordle4.go.  Feedback is computed without a cache and
 * stored once for every (guess, answer) pair in a complete table.  The
 * shallow score is the expected size of the group the answer falls in
 * (Σc²/n); the deep score counts the expected number of further guesses:
 * 0 for the winning group, one more than the best score one level deeper
 * before the horizon, and 5 − depth at the horizon.  Only the sequential
 * branch of the candidate loop is modelled: with ten answers or fewer the
 * answers themselves are tried first, then the shortlist best first, at
 * most 100 guesses in all.
 */
module Gordle {
  import opened Wrappers
  import opened Words
  import opened Feedback
  import opened Codec
  import opened Filter
  import opened Partition
  import opened Ranking
  import opened Search

  /** At most this many guesses are scored deeply. */
  const MAX_CANDIDATES: nat := 100
  /** The starting "best score" of the candidate loop. */
  const SENTINEL: real := 1000000.0
  /** With at most this many answers left, the answers are tried first. */
  const FEW_ANSWERS: nat := 10
  /** The number of guesses every puzzle is assumed to be solvable in. */
  const GUESS_BUDGET: int := 5

  /** The shortlist threshold: 0.8 times the number of answers. */
  function Threshold(answers: seq<nat>): real {
    0.8 * (|answers| as real)
  }

  /** Uncached `get_colors`: the colouring pass, packed most significant first. */
  method GetColors(t: Tables, g: nat, a: nat) returns (code: nat)
    requires ValidTables(t) && g < |t.guesses| && a < |t.answers|
    ensures code == Code(t, MsbFirst, g, a) && code < NUM_COLORS
  {
    var colors := ComputeColors(t.guesses[g], t.answers[a]);
    ColorsAreFeedback(t.guesses[g], t.answers[a]);
    code := ColorsIndex(MsbFirst, colors);
  }

  /** `initialize_colors_table`: the row-by-row fill of the complete feedback table. */
  method InitializeColorsTable(t: Tables) returns (codes: seq<seq<nat>>)
    requires ValidTables(t)
    ensures Faithful(t, MsbFirst, codes)
    ensures forall g, a :: 0 <= g < |t.guesses| && 0 <= a < |t.answers| ==> codes[g][a] < NUM_COLORS
  {
    codes := [];
    var g := 0;
    while g < |t.guesses|
      invariant g <= |t.guesses| && |codes| == g
      invariant forall i :: 0 <= i < g ==> |codes[i]| == |t.answers|
      invariant forall i, a :: 0 <= i < g && 0 <= a < |t.answers| ==> codes[i][a] == Code(t, MsbFirst, i, a) < NUM_COLORS
    {
      var row := FillRow(t, g);
      codes := codes + [row];
      assert codes[g] == row;
      g := g + 1;
    }
  }

  /** One row of the table: guess `g` against every answer, in order. */
  method FillRow(t: Tables, g: nat) returns (row: seq<nat>)
    requires ValidTables(t) && g < |t.guesses|
    ensures |row| == |t.answers|
    ensures forall j :: 0 <= j < |row| ==> row[j] == Code(t, MsbFirst, g, j) < NUM_COLORS
  {
    row := [];
    var a := 0;
    while a < |t.answers|
      invariant a <= |t.answers| && |row| == a
      invariant forall j :: 0 <= j < a ==> row[j] == Code(t, MsbFirst, g, j) < NUM_COLORS
    {
      var code := GetColors(t, g, a);
      row := row + [code];
      a := a + 1;
    }
  }

  /**
   * `score_guess`: the expected size of the feedback group the answer falls
   * in.  An empty answer list has no groups and scores 0.
   */
  function ScoreGuess(t: Tables, codes: seq<seq<nat>>, g: nat, answers: seq<nat>): (r: real)
    requires Fits(t, codes) && g < |t.guesses| && AnswerIndices(t, answers)
    ensures |answers| > 0 ==> 1.0 <= r <= |answers| as real
    ensures |answers| == 0 ==> r == 0.0
  {
    var bs := Buckets(t, codes, g, answers);
    BucketsGrouped(t, codes, g, answers);
    SumSquaresBounds(bs);
    if |answers| == 0 then
      0.0
    else
      WeightedSizesIs(bs, |answers|);
      RatioBound(SumSquares(bs), |answers|);
      RatioAtLeastOne(SumSquares(bs), |answers|);
      WeightedSizes(bs, |answers|)
  }

  /** Σ (c/n)·c over the groups. */
  function WeightedSizes(bs: seq<Bucket<nat, nat>>, n: nat): real
    requires n > 0
  {
    if |bs| == 0 then 0.0
    else
      var c := |bs[0].members| as real;
      (c / n as real) * c + WeightedSizes(bs[1..], n)
  }

  lemma {:induction false} WeightedSizesIs(bs: seq<Bucket<nat, nat>>, n: nat)
    requires n > 0
    ensures WeightedSizes(bs, n) == (SumSquares(bs) as real) / (n as real)
  {
    if |bs| > 0 {
      WeightedSizesIs(bs[1..], n);
      WeightedSquare(|bs[0].members|, n);
      AddRatios(|bs[0].members| * |bs[0].members|, SumSquares(bs[1..]), n);
    }
  }

  /** A guess's score is Σc²/n over its feedback groups, whose sizes c add up to n. */
  lemma ScoreGuessIsMeanGroupSize(t: Tables, codes: seq<seq<nat>>, g: nat, answers: seq<nat>)
    requires Fits(t, codes) && g < |t.guesses| && AnswerIndices(t, answers) && |answers| > 0
    ensures var bs := Buckets(t, codes, g, answers);
      && Size(bs) == |answers|
      && ScoreGuess(t, codes, g, answers) == (SumSquares(bs) as real) / (|answers| as real)
  {
    BucketsGrouped(t, codes, g, answers);
    WeightedSizesIs(Buckets(t, codes, g, answers), |answers|);
  }

  /** The horizon scores of the first `k` guesses of the pool, in pool order. */
  function Shallow(t: Tables, codes: seq<seq<nat>>, pool: seq<nat>, answers: seq<nat>, k: nat): (r: seq<Scored<nat>>)
    requires Env(t, codes, pool, answers) && k <= |pool|
    ensures |r| == k
    ensures forall i :: 0 <= i < k ==> r[i] == Scored(pool[i], ScoreGuess(t, codes, pool[i], answers))
  {
    if k == 0 then []
    else Shallow(t, codes, pool, answers, k - 1) + [Scored(pool[k - 1], ScoreGuess(t, codes, pool[k - 1], answers))]
  }

  /**
   * The shortlist: the first guess of the pool and every later guess whose
   * shallow score is below 0.8·n, each with its shallow score.
   */
  function Kept(t: Tables, codes: seq<seq<nat>>, pool: seq<nat>, answers: seq<nat>): (kept: seq<Scored<nat>>)
    requires Env(t, codes, pool, answers) && |pool| > 0
    ensures |kept| > 0 && kept[0] == Scored(pool[0], ScoreGuess(t, codes, pool[0], answers))
    ensures ScoredIndices(t, kept)
    ensures forall x :: x in kept[1..] <==> x in Shallow(t, codes, pool, answers, |pool|)[1..] && x.score < Threshold(answers)
  {
    var shallow := Shallow(t, codes, pool, answers, |pool|);
    var kept := ShortlistFirstOrBelow(shallow, Threshold(answers));
    ShortlistFirstOrBelowKeeps(shallow, Threshold(answers));
    assert ScoredIndices(t, shallow);
    ScoredMembers(t, shallow, kept);
    kept
  }

  /** The answers' own guess indices, in answer order. */
  function AnswerGuesses(t: Tables, answers: seq<nat>): (gs: seq<nat>)
    requires ValidTables(t) && AnswerIndices(t, answers)
    ensures |gs| == |answers| && GuessIndices(t, gs)
    ensures forall i :: 0 <= i < |answers| ==> t.guesses[gs[i]] == t.answers[answers[i]]
    ensures forall i :: 0 <= i < |answers| ==> gs[i] == LookupGuess(t, t.answers[answers[i]])
  {
    seq(|answers|, i requires 0 <= i < |answers| => LookupGuess(t, t.answers[answers[i]]))
  }

  /**
   * The guesses the sequential candidate loop tries from step `i` on, with
   * `j` shortlist entries used so far: the loop runs while fewer than 100
   * guesses were tried and the shortlist is not used up; with ten answers
   * or fewer, step `i` below the number of answers tries answer `i`,
   * otherwise the next shortlist entry.
   */
  function CandidatesFrom(t: Tables, answers: seq<nat>, ranked: seq<nat>, i: nat, j: nat): (cs: seq<nat>)
    requires ValidTables(t) && AnswerIndices(t, answers) && GuessIndices(t, ranked) && j <= |ranked|
    ensures GuessIndices(t, cs)
    decreases MAX_CANDIDATES - i
  {
    if i >= MAX_CANDIDATES || j >= |ranked| then []
    else if |answers| <= FEW_ANSWERS && i < |answers| then
      [LookupGuess(t, t.answers[answers[i]])] + CandidatesFrom(t, answers, ranked, i + 1, j)
    else
      [ranked[j]] + CandidatesFrom(t, answers, ranked, i + 1, j + 1)
  }

  /** The guesses the sequential candidate loop tries, in order. */
  function Candidates(t: Tables, answers: seq<nat>, ranked: seq<nat>): (cs: seq<nat>)
    requires ValidTables(t) && AnswerIndices(t, answers) && GuessIndices(t, ranked)
    ensures GuessIndices(t, cs) && |cs| <= MAX_CANDIDATES
  {
    CandidatesFromBound(t, answers, ranked, 0, 0);
    CandidatesFrom(t, answers, ranked, 0, 0)
  }

  /** From step `i` on the loop tries at most 100 − i guesses. */
  lemma {:induction false} CandidatesFromBound(t: Tables, answers: seq<nat>, ranked: seq<nat>, i: nat, j: nat)
    requires ValidTables(t) && AnswerIndices(t, answers) && GuessIndices(t, ranked) && j <= |ranked| && i <= MAX_CANDIDATES
    ensures |CandidatesFrom(t, answers, ranked, i, j)| <= MAX_CANDIDATES - i
    decreases MAX_CANDIDATES - i
  {
    if i < MAX_CANDIDATES && j < |ranked| {
      if |answers| <= FEW_ANSWERS && i < |answers| {
        CandidatesFromBound(t, answers, ranked, i + 1, j);
      } else {
        CandidatesFromBound(t, answers, ranked, i + 1, j + 1);
      }
    }
  }

  /**
   * The loop tries at most 100 guesses: with ten answers or fewer (and a
   * non-empty shortlist) the answers first and then the best shortlist
   * entries, otherwise only shortlist entries, best first.
   */
  lemma CandidatesShape(t: Tables, answers: seq<nat>, ranked: seq<nat>)
    requires ValidTables(t) && AnswerIndices(t, answers) && GuessIndices(t, ranked) && |ranked| > 0
    ensures |Candidates(t, answers, ranked)| <= MAX_CANDIDATES
    ensures Candidates(t, answers, ranked) ==
      if |answers| <= FEW_ANSWERS then AnswerGuesses(t, answers) + Take(ranked, MAX_CANDIDATES - |answers|)
      else Take(ranked, MAX_CANDIDATES)
  {
    if |answers| <= FEW_ANSWERS {
      AnswersFirst(t, answers, ranked, 0);
      ShortlistRest(t, answers, ranked, |answers|, 0);
    } else {
      ShortlistRest(t, answers, ranked, 0, 0);
    }
    assert ranked[0..] == ranked;
  }

  /** While answers remain to be tried, they come first, in order. */
  lemma {:induction false} AnswersFirst(t: Tables, answers: seq<nat>, ranked: seq<nat>, i: nat)
    requires ValidTables(t) && AnswerIndices(t, answers) && GuessIndices(t, ranked) && |ranked| > 0
    requires |answers| <= FEW_ANSWERS && i <= |answers|
    ensures CandidatesFrom(t, answers, ranked, i, 0)
      == AnswerGuesses(t, answers)[i..] + CandidatesFrom(t, answers, ranked, |answers|, 0)
    decreases |answers| - i
  {
    if i < |answers| {
      AnswersFirst(t, answers, ranked, i + 1);
      var ag := AnswerGuesses(t, answers);
      AnswerStep(t, answers, ranked, i, ag[i + 1..], CandidatesFrom(t, answers, ranked, |answers|, 0));
      AnswerGuessesFrom(t, answers, i);
    }
  }

  /** The answers' guesses from `i` on are answer `i`'s guess followed by the rest. */
  lemma AnswerGuessesFrom(t: Tables, answers: seq<nat>, i: nat)
    requires ValidTables(t) && AnswerIndices(t, answers) && i < |answers|
    ensures AnswerGuesses(t, answers)[i..] == [LookupGuess(t, t.answers[answers[i]])] + AnswerGuesses(t, answers)[i + 1..]
  {
    var ag := AnswerGuesses(t, answers);
    assert ag[i..] == [ag[i]] + ag[i + 1..];
  }

  /** One step of the answer phase: the loop tries answer `i` and moves on. */
  lemma AnswerStep(t: Tables, answers: seq<nat>, ranked: seq<nat>, i: nat, rest: seq<nat>, tail: seq<nat>)
    requires ValidTables(t) && AnswerIndices(t, answers) && GuessIndices(t, ranked) && |ranked| > 0
    requires i < |answers| <= FEW_ANSWERS
    requires CandidatesFrom(t, answers, ranked, i + 1, 0) == rest + tail
    ensures CandidatesFrom(t, answers, ranked, i, 0) == [LookupGuess(t, t.answers[answers[i]])] + rest + tail
  {
  }

  /** Once the answers are used up, the loop takes shortlist entries until 100 guesses or the end of the shortlist. */
  lemma {:induction false} ShortlistRest(t: Tables, answers: seq<nat>, ranked: seq<nat>, i: nat, j: nat)
    requires ValidTables(t) && AnswerIndices(t, answers) && GuessIndices(t, ranked) && j <= |ranked|
    requires i <= MAX_CANDIDATES && (i >= |answers| || |answers| > FEW_ANSWERS) && i - j == (if |answers| <= FEW_ANSWERS then |answers| else 0)
    ensures CandidatesFrom(t, answers, ranked, i, j) == Take(ranked[j..], MAX_CANDIDATES - i)
    decreases MAX_CANDIDATES - i
  {
    if i < MAX_CANDIDATES && j < |ranked| {
      ShortlistRest(t, answers, ranked, i + 1, j + 1);
      ShortlistStep(t, answers, ranked, i, j);
    } else {
      ShortlistEnd(t, answers, ranked, i, j);
    }
  }

  /** With 100 guesses tried or the shortlist used up, the loop tries nothing more. */
  lemma ShortlistEnd(t: Tables, answers: seq<nat>, ranked: seq<nat>, i: nat, j: nat)
    requires ValidTables(t) && AnswerIndices(t, answers) && GuessIndices(t, ranked) && j <= |ranked|
    requires i <= MAX_CANDIDATES && !(i < MAX_CANDIDATES && j < |ranked|)
    ensures CandidatesFrom(t, answers, ranked, i, j) == [] == Take(ranked[j..], MAX_CANDIDATES - i)
  {
    assert |ranked[j..]| == 0 || MAX_CANDIDATES - i == 0;
  }

  /** One step of the shortlist phase: the loop tries the next entry and moves on. */
  lemma ShortlistStep(t: Tables, answers: seq<nat>, ranked: seq<nat>, i: nat, j: nat)
    requires ValidTables(t) && AnswerIndices(t, answers) && GuessIndices(t, ranked) && j < |ranked|
    requires i < MAX_CANDIDATES && (i >= |answers| || |answers| > FEW_ANSWERS)
    requires CandidatesFrom(t, answers, ranked, i + 1, j + 1) == Take(ranked[j + 1..], MAX_CANDIDATES - (i + 1))
    ensures CandidatesFrom(t, answers, ranked, i, j) == Take(ranked[j..], MAX_CANDIDATES - i)
  {
    var rest := ranked[j..];
    assert rest[1..] == ranked[j + 1..];
    TakeCons(rest, MAX_CANDIDATES - i);
    assert CandidatesFrom(t, answers, ranked, i, j) == [ranked[j]] + CandidatesFrom(t, answers, ranked, i + 1, j + 1);
  }

  /**
   * `best_guess`.  An empty answer list is the fatal case.  The loop's
   * guess variable starts as Go's zero value, guess 0, with the sentinel
   * score.
   */
  function BestGuess(t: Tables, codes: seq<seq<nat>>, pool: seq<nat>, answers: seq<nat>, depth: nat, maxDepth: nat): (r: Pick<nat>)
    requires Env(t, codes, pool, answers) && |pool| > 0 && |answers| > 0
    ensures r.guess.Some? && r.guess.value < |t.guesses|
    ensures |answers| == 1 ==> t.guesses[r.guess.value] == t.answers[answers[0]] && r.score == 0.0
    ensures depth <= maxDepth <= GUESS_BUDGET ==> 0.0 <= r.score
    decreases Gap(depth, maxDepth), 4, 0
  {
    if |answers| == 1 then
      Pick(Some(LookupGuess(t, t.answers[answers[0]])), 0.0)
    else
      var kept := Kept(t, codes, pool, answers);
      var sorted := Ranked(t, Minimize, kept);
      if depth == maxDepth then
        Pick(Some(sorted[0].guess), sorted[0].score)
      else
        var cands := Candidates(t, answers, GuessesOf(sorted));
        var rescored := Rescore(t, codes, cands, Worthwhile(t, kept), answers, depth, maxDepth, |cands|);
        var init := Pick(Some(0), SENTINEL);
        FirstBestIsFirstExtremum(Minimize, rescored, init);
        var r := FirstBest(Minimize, rescored, init);
        assert r != init ==> exists i :: 0 <= i < |rescored| && r == Pick(Some(rescored[i].guess), rescored[i].score);
        r
  }

  /** The deep scores of the first `k` candidates, in candidate order. */
  function Rescore(t: Tables, codes: seq<seq<nat>>, cands: seq<nat>, pool: seq<nat>, answers: seq<nat>, depth: nat, maxDepth: nat, k: nat): (r: seq<Scored<nat>>)
    requires Env(t, codes, pool, answers) && |pool| > 0 && |answers| > 0 && GuessIndices(t, cands) && k <= |cands|
    ensures |r| == k
    ensures forall i :: 0 <= i < k ==> r[i].guess == cands[i]
    ensures depth <= maxDepth <= GUESS_BUDGET ==> forall i :: 0 <= i < k ==> r[i].score >= 0.0
    decreases Gap(depth, maxDepth), 2, k
  {
    if k == 0 then []
    else
      Rescore(t, codes, cands, pool, answers, depth, maxDepth, k - 1)
        + [Scored(cands[k - 1], ScoreGuessSteps(t, codes, cands[k - 1], pool, answers, depth, maxDepth))]
  }

  /** `score_guess_steps`: the expected number of further guesses after guessing `g`. */
  function ScoreGuessSteps(t: Tables, codes: seq<seq<nat>>, g: nat, pool: seq<nat>, answers: seq<nat>, depth: nat, maxDepth: nat): (r: real)
    requires Env(t, codes, pool, answers) && |pool| > 0 && |answers| > 0 && g < |t.guesses|
    ensures depth <= maxDepth <= GUESS_BUDGET ==> r >= 0.0
    decreases Gap(depth, maxDepth), 1, 0
  {
    BucketsGrouped(t, codes, g, answers);
    BucketSum(t, codes, g, pool, answers, depth, maxDepth, Buckets(t, codes, g, answers))
  }

  /** The contributions of a list of feedback groups. */
  function BucketSum(t: Tables, codes: seq<seq<nat>>, g: nat, pool: seq<nat>, answers: seq<nat>, depth: nat, maxDepth: nat,
                     bs: seq<Bucket<nat, nat>>): (r: real)
    requires Env(t, codes, pool, answers) && |pool| > 0 && |answers| > 0 && GroupedBy(t, codes, g, answers, bs)
    ensures depth <= maxDepth <= GUESS_BUDGET ==> r >= 0.0
    decreases Gap(depth, maxDepth), 0, |bs|
  {
    if |bs| == 0 then 0.0
    else
      GroupedTail(t, codes, g, answers, bs);
      Contribution(t, codes, g, pool, answers, depth, maxDepth, bs[0])
        + BucketSum(t, codes, g, pool, answers, depth, maxDepth, bs[1..])
  }

  /**
   * One group's share: its probability c/n times 0 for the winning
   * feedback, one more than the best score one level deeper before the
   * horizon, or 5 − depth at the horizon.
   */
  function Contribution(t: Tables, codes: seq<seq<nat>>, g: nat, pool: seq<nat>, answers: seq<nat>, depth: nat, maxDepth: nat,
                        b: Bucket<nat, nat>): (r: real)
    requires Env(t, codes, pool, answers) && |pool| > 0 && g < |t.guesses|
    requires |b.members| > 0 && b.members == FilterAnswers(t, codes, answers, [Outcome(g, b.key)])
    ensures depth <= maxDepth <= GUESS_BUDGET ==> r >= 0.0
    decreases Gap(depth, maxDepth), 0, 0
  {
    var count := |b.members|;
    var prob := count as real / |answers| as real;
    var score :=
      if b.key == ALL_HIT then 0.0
      else if depth < maxDepth then
        var left := FilterAnswers(t, codes, answers, [Outcome(g, b.key)]);
        BestGuess(t, codes, pool, left, depth + 1, maxDepth).score + 1.0
      else (GUESS_BUDGET - depth) as real;
    assert depth <= maxDepth <= GUESS_BUDGET ==> prob * score >= 0.0 by {
      if depth <= maxDepth <= GUESS_BUDGET {
        NonNegativeProduct(prob, score);
      }
    }
    prob * score
  }

  /** Entry `j` of the deep scores is candidate `j` with its deep score. */
  lemma {:induction false} RescoreEntry(t: Tables, codes: seq<seq<nat>>, cands: seq<nat>, pool: seq<nat>, answers: seq<nat>, depth: nat, maxDepth: nat, k: nat, j: nat)
    requires Env(t, codes, pool, answers) && |pool| > 0 && |answers| > 0 && GuessIndices(t, cands) && j < k <= |cands|
    ensures Rescore(t, codes, cands, pool, answers, depth, maxDepth, k)[j].score == ScoreGuessSteps(t, codes, cands[j], pool, answers, depth, maxDepth)
  {
    if j < k - 1 {
      RescoreEntry(t, codes, cands, pool, answers, depth, maxDepth, k - 1, j);
    }
  }

  /**
   * At the horizon (with two or more answers) the result is a shortlisted
   * guess with its shallow score, and no shortlisted guess scores lower.
   */
  lemma HorizonPickIsMinimum(t: Tables, codes: seq<seq<nat>>, pool: seq<nat>, answers: seq<nat>, depth: nat, maxDepth: nat)
    requires Env(t, codes, pool, answers) && |pool| > 0 && |answers| > 1 && depth == maxDepth
    ensures var kept := Kept(t, codes, pool, answers);
      var r := BestGuess(t, codes, pool, answers, depth, maxDepth);
      && Scored(r.guess.value, r.score) in kept
      && forall i :: 0 <= i < |kept| ==> r.score <= kept[i].score
  {
    SortHeadIsBest(Minimize, Kept(t, codes, pool, answers));
  }

  /**
   * Before the horizon (with two or more answers) the result is the first
   * strict minimum of the step scores of the guesses the candidate loop
   * tries, each scored with the whole shortlist as the next pool; it is
   * guess 0 with the sentinel score exactly when none of them scores below
   * the sentinel.
   */
  lemma DeepPickIsFirstMinimum(t: Tables, codes: seq<seq<nat>>, pool: seq<nat>, answers: seq<nat>, depth: nat, maxDepth: nat)
    requires Env(t, codes, pool, answers) && |pool| > 0 && |answers| > 1 && depth != maxDepth
    ensures var kept := Kept(t, codes, pool, answers);
      var next := Worthwhile(t, kept);
      var cands := Candidates(t, answers, GuessesOf(Ranked(t, Minimize, kept)));
      var rescored := Rescore(t, codes, cands, next, answers, depth, maxDepth, |cands|);
      && |cands| <= MAX_CANDIDATES
      && (forall j :: 0 <= j < |cands| ==> rescored[j] == Scored(cands[j], ScoreGuessSteps(t, codes, cands[j], next, answers, depth, maxDepth)))
      && IsFirstBest(Minimize, rescored, Pick(Some(0), SENTINEL), BestGuess(t, codes, pool, answers, depth, maxDepth))
  {
    var kept := Kept(t, codes, pool, answers);
    var next := Worthwhile(t, kept);
    var cands := Candidates(t, answers, GuessesOf(Ranked(t, Minimize, kept)));
    var rescored := Rescore(t, codes, cands, next, answers, depth, maxDepth, |cands|);
    assert BestGuess(t, codes, pool, answers, depth, maxDepth) == FirstBest(Minimize, rescored, Pick(Some(0), SENTINEL));
    FirstBestIsFirstExtremum(Minimize, rescored, Pick(Some(0), SENTINEL));
    RescoreEntries(t, codes, cands, next, answers, depth, maxDepth);
  }

  /** Entry `j` of the deep scores is candidate `j` with its step score. */
  lemma RescoreEntries(t: Tables, codes: seq<seq<nat>>, cands: seq<nat>, pool: seq<nat>, answers: seq<nat>, depth: nat, maxDepth: nat)
    requires Env(t, codes, pool, answers) && |pool| > 0 && |answers| > 0 && GuessIndices(t, cands)
    ensures forall j :: 0 <= j < |cands| ==>
      Rescore(t, codes, cands, pool, answers, depth, maxDepth, |cands|)[j].score == ScoreGuessSteps(t, codes, cands[j], pool, answers, depth, maxDepth)
  {
    forall j | 0 <= j < |cands|
      ensures Rescore(t, codes, cands, pool, answers, depth, maxDepth, |cands|)[j].score == ScoreGuessSteps(t, codes, cands[j], pool, answers, depth, maxDepth)
    {
      RescoreEntry(t, codes, cands, pool, answers, depth, maxDepth, |cands|, j);
    }
  }

  /** At the horizon one group contributes 0 when it is the winning group and (5 − depth)·c/n otherwise. */
  lemma ContributionAtHorizon(t: Tables, codes: seq<seq<nat>>, g: nat, pool: seq<nat>, answers: seq<nat>, depth: nat, maxDepth: nat,
                              b: Bucket<nat, nat>)
    requires Env(t, codes, pool, answers) && |pool| > 0 && g < |t.guesses| && depth >= maxDepth
    requires |b.members| > 0 && b.members == FilterAnswers(t, codes, answers, [Outcome(g, b.key)])
    ensures Contribution(t, codes, g, pool, answers, depth, maxDepth, b)
      == (((GUESS_BUDGET - depth) * (if b.key == ALL_HIT then 0 else |b.members|)) as real) / (|answers| as real)
  {
    ScaledShare(|b.members|, |answers|, GUESS_BUDGET - depth);
  }

  /** At the horizon the groups add up to (5 − depth) times the number of answers outside the winning group, over n. */
  lemma {:induction false} BucketSumAtHorizon(t: Tables, codes: seq<seq<nat>>, g: nat, pool: seq<nat>, answers: seq<nat>, depth: nat, maxDepth: nat,
                                              bs: seq<Bucket<nat, nat>>)
    requires Env(t, codes, pool, answers) && |pool| > 0 && |answers| > 0 && GroupedBy(t, codes, g, answers, bs) && depth >= maxDepth
    ensures BucketSum(t, codes, g, pool, answers, depth, maxDepth, bs)
      == (((GUESS_BUDGET - depth) * SizeExcept(bs, ALL_HIT)) as real) / (|answers| as real)
  {
    if |bs| > 0 {
      GroupedTail(t, codes, g, answers, bs);
      BucketSumAtHorizon(t, codes, g, pool, answers, depth, maxDepth, bs[1..]);
      ContributionAtHorizon(t, codes, g, pool, answers, depth, maxDepth, bs[0]);
      var k := GUESS_BUDGET - depth;
      var head: nat := if bs[0].key == ALL_HIT then 0 else |bs[0].members|;
      var rest := SizeExcept(bs[1..], ALL_HIT);
      assert SizeExcept(bs, ALL_HIT) == head + rest;
      assert BucketSum(t, codes, g, pool, answers, depth, maxDepth, bs)
          == Contribution(t, codes, g, pool, answers, depth, maxDepth, bs[0]) + BucketSum(t, codes, g, pool, answers, depth, maxDepth, bs[1..]);
      AddShares(k, head, rest, |answers|,
                Contribution(t, codes, g, pool, answers, depth, maxDepth, bs[0]), BucketSum(t, codes, g, pool, answers, depth, maxDepth, bs[1..]));
    }
  }

  /**
   * At the horizon a guess scores 5 − depth times the share of answers
   * outside the winning group (see `Filter.OutcomeGroupSplit` and
   * `Filter.WinningOutcomeKeepsGuessWord` for what that share is).
   */
  lemma ScoreGuessStepsAtHorizon(t: Tables, codes: seq<seq<nat>>, g: nat, pool: seq<nat>, answers: seq<nat>, depth: nat, maxDepth: nat)
    requires Env(t, codes, pool, answers) && |pool| > 0 && |answers| > 0 && g < |t.guesses| && depth >= maxDepth
    ensures var bs := Buckets(t, codes, g, answers);
      ScoreGuessSteps(t, codes, g, pool, answers, depth, maxDepth)
           == (((GUESS_BUDGET - depth) * SizeExcept(bs, ALL_HIT)) as real) / (|answers| as real)
  {
    var bs := Buckets(t, codes, g, answers);
    BucketsGrouped(t, codes, g, answers);
    assert ScoreGuessSteps(t, codes, g, pool, answers, depth, maxDepth) == BucketSum(t, codes, g, pool, answers, depth, maxDepth, bs);
    BucketSumAtHorizon(t, codes, g, pool, answers, depth, maxDepth, bs);
  }
}

/**
 * The first variant, wordle.cc, which works on the words themselves rather
 * than on table indices.  Feedback is a pattern string, memoised in a map
 * keyed by the guess followed by the answer.  `ScoreGuess` is the expected
 * number of answers eliminated (n − c for a group of size c, plus the
 * deeper best score before the horizon); `BestGuess` has no shortcut for a
 * single answer, keeps every guess with a positive horizon score, falls
 * back to the first guess of the pool when none has one, and otherwise
 * returns the best shortlisted guess (at the horizon) or the first strict
 * maximum above 0 among the best 100 re-scored guesses.
 */
module WordleStrings {
  import opened Wrappers
  import opened Words
  import opened Feedback
  import opened Partition
  import opened Ranking
  import opened Search

  /** At most this many shortlisted guesses are scored deeply. */
  const MAX_CANDIDATES: nat := 100

  /** One recorded fact: the guess word and the pattern it received. */
  datatype Outcome = Outcome(guess: Word, colors: string)

  /** Every entry is a word of the game's length. */
  predicate AllWords(ws: seq<Word>) {
    forall i :: 0 <= i < |ws| ==> IsWord(ws[i])
  }

  predicate ValidOutcomes(outcomes: seq<Outcome>) {
    forall i :: 0 <= i < |outcomes| ==> IsWord(outcomes[i].guess)
  }

  // ---------------------------------------------------------------------
  // The memoised colouring

  type Memo = map<string, string>

  /** Every memo entry is keyed by a guess followed by an answer and holds their pattern. */
  predicate MemoValid(memo: Memo) {
    forall key :: key in memo ==>
      |key| == 2 * WORD_LENGTH && memo[key] == Colors(key[..WORD_LENGTH], key[WORD_LENGTH..])
  }

  /** For words of the game's length the key `guess + answer` names one pair only. */
  lemma KeyInjective(g1: Word, a1: Word, g2: Word, a2: Word)
    requires IsWord(g1) && IsWord(a1) && IsWord(g2) && IsWord(a2)
    ensures g1 + a1 == g2 + a2 <==> g1 == g2 && a1 == a2
  {
    if g1 + a1 == g2 + a2 {
      assert g1 == (g1 + a1)[..WORD_LENGTH] && g2 == (g2 + a2)[..WORD_LENGTH];
      assert a1 == (g1 + a1)[WORD_LENGTH..] && a2 == (g2 + a2)[WORD_LENGTH..];
    }
  }

  /**
   * `get_colors` with the memo: a stored pattern is returned as is,
   * otherwise the colouring pass runs and its result is stored.  Either way
   * the pattern is the uncached one and only the pair's own entry can
   * change.
   */
  method GetColors(memo: Memo, guess: Word, answer: Word) returns (colors: string, next: Memo)
    requires MemoValid(memo) && IsWord(guess) && IsWord(answer)
    ensures colors == Colors(guess, answer)
    ensures next == memo[guess + answer := colors]
    ensures guess + answer in memo ==> next == memo
    ensures MemoValid(next)
  {
    var key := guess + answer;
    assert key[..WORD_LENGTH] == guess && key[WORD_LENGTH..] == answer;
    if key in memo {
      colors := memo[key];
      next := memo;
      assert memo[key := colors] == memo;
    } else {
      colors := ComputeColors(guess, answer);
      next := memo[key := colors];
    }
  }

  // ---------------------------------------------------------------------
  // Filtering

  /** Outcomes are checked in order and the first mismatch rejects the word. */
  function PossibleAnswer(word: Word, outcomes: seq<Outcome>): bool
    requires IsWord(word) && ValidOutcomes(outcomes)
  {
    if |outcomes| == 0 then true
    else if Colors(outcomes[0].guess, word) != outcomes[0].colors then false
    else PossibleAnswer(word, outcomes[1..])
  }

  /** A word is possible exactly when every outcome's pattern is what its guess gives against the word. */
  lemma {:induction false} PossibleAnswerAll(word: Word, outcomes: seq<Outcome>)
    requires IsWord(word) && ValidOutcomes(outcomes)
    ensures PossibleAnswer(word, outcomes)
        <==> forall i :: 0 <= i < |outcomes| ==> Colors(outcomes[i].guess, word) == outcomes[i].colors
  {
    if |outcomes| > 0 {
      PossibleAnswerAll(word, outcomes[1..]);
      assert forall i :: 1 <= i < |outcomes| ==> outcomes[1..][i - 1] == outcomes[i];
    }
  }

  /** The answers, in their original order, that are possible under all outcomes. */
  function FilterAnswers(answers: seq<Word>, outcomes: seq<Outcome>): (r: seq<Word>)
    requires AllWords(answers) && ValidOutcomes(outcomes)
    ensures |r| <= |answers| && AllWords(r)
  {
    if |answers| == 0 then []
    else
      var n := |answers| - 1;
      FilterAnswers(answers[..n], outcomes) + (if PossibleAnswer(answers[n], outcomes) then [answers[n]] else [])
  }

  /** Filtering one more answer of a list appends it when it is possible. */
  lemma FilterStep(answers: seq<Word>, outcomes: seq<Outcome>, i: nat)
    requires AllWords(answers) && ValidOutcomes(outcomes) && i < |answers|
    ensures AllWords(answers[..i]) && AllWords(answers[..i + 1])
    ensures FilterAnswers(answers[..i + 1], outcomes)
      == FilterAnswers(answers[..i], outcomes) + (if PossibleAnswer(answers[i], outcomes) then [answers[i]] else [])
  {
    assert answers[..i + 1][..i] == answers[..i];
  }

  /** The filter keeps exactly the possible answers. */
  lemma {:induction false} FilterKeepsExactly(answers: seq<Word>, outcomes: seq<Outcome>)
    requires AllWords(answers) && ValidOutcomes(outcomes)
    ensures forall x :: x in FilterAnswers(answers, outcomes) <==> x in answers && PossibleAnswer(x, outcomes)
  {
    if |answers| > 0 {
      var n := |answers| - 1;
      FilterKeepsExactly(answers[..n], outcomes);
      assert answers == answers[..n] + [answers[n]];
    }
  }

  lemma AllWordsConcat(xs: seq<Word>, ys: seq<Word>)
    requires AllWords(xs) && AllWords(ys)
    ensures AllWords(xs + ys)
  {
    var zs := xs + ys;
    forall i | 0 <= i < |zs| ensures IsWord(zs[i]) {
      if i >= |xs| { assert zs[i] == ys[i - |xs|]; }
    }
  }

  /** Filtering keeps the original order: it distributes over concatenation. */
  lemma {:induction false} FilterConcat(xs: seq<Word>, ys: seq<Word>, outcomes: seq<Outcome>)
    requires AllWords(xs) && AllWords(ys) && ValidOutcomes(outcomes)
    ensures AllWords(xs + ys)
    ensures FilterAnswers(xs + ys, outcomes) == FilterAnswers(xs, outcomes) + FilterAnswers(ys, outcomes)
    decreases |ys|
  {
    var zs := xs + ys;
    AllWordsConcat(xs, ys);
    if |ys| == 0 {
      assert zs == xs;
    } else {
      var n := |ys| - 1;
      var m := |zs| - 1;
      assert zs[..m] == xs + ys[..n];
      assert zs[m] == ys[n];
      FilterConcat(xs, ys[..n], outcomes);
      var tail := if PossibleAnswer(ys[n], outcomes) then [ys[n]] else [];
      assert FilterAnswers(zs, outcomes) == FilterAnswers(zs[..m], outcomes) + tail;
      assert FilterAnswers(ys, outcomes) == FilterAnswers(ys[..n], outcomes) + tail;
    }
  }

  /** `possible_answer` through the memo gives the pure verdict and keeps the memo valid. */
  method PossibleAnswerMemo(memo: Memo, word: Word, outcomes: seq<Outcome>) returns (ok: bool, next: Memo)
    requires MemoValid(memo) && IsWord(word) && ValidOutcomes(outcomes)
    ensures ok == PossibleAnswer(word, outcomes)
    ensures MemoValid(next)
  {
    next := memo;
    var i := 0;
    while i < |outcomes|
      invariant i <= |outcomes|
      invariant MemoValid(next)
      invariant PossibleAnswer(word, outcomes) == PossibleAnswer(word, outcomes[i..])
    {
      var colors;
      colors, next := GetColors(next, outcomes[i].guess, word);
      assert outcomes[i..][1..] == outcomes[i + 1..];
      if colors != outcomes[i].colors {
        return false, next;
      }
      i := i + 1;
    }
    ok := true;
  }

  /** `filter_answers` through the memo keeps the same answers, in the same order, as the pure filter. */
  method FilterAnswersMemo(memo: Memo, answers: seq<Word>, outcomes: seq<Outcome>) returns (filtered: seq<Word>, next: Memo)
    requires MemoValid(memo) && AllWords(answers) && ValidOutcomes(outcomes)
    ensures filtered == FilterAnswers(answers, outcomes)
    ensures MemoValid(next)
  {
    filtered := [];
    next := memo;
    var i := 0;
    while i < |answers|
      invariant i <= |answers|
      invariant MemoValid(next)
      invariant AllWords(answers[..i])
      invariant filtered == FilterAnswers(answers[..i], outcomes)
    {
      var ok;
      ok, next := PossibleAnswerMemo(next, answers[i], outcomes);
      FilterStep(answers, outcomes, i);
      if ok {
        filtered := filtered + [answers[i]];
      }
      i := i + 1;
    }
    assert answers[..|answers|] == answers;
  }

  // ---------------------------------------------------------------------
  // Grouping by pattern

  /** The pattern guess `g` gives against each answer of a list. */
  function ColorsOf(g: Word, answers: seq<Word>): (cs: seq<string>)
    requires IsWord(g) && AllWords(answers)
    ensures |cs| == |answers| && forall i :: 0 <= i < |answers| ==> cs[i] == Colors(g, answers[i])
  {
    seq(|answers|, i requires 0 <= i < |answers| => Colors(g, answers[i]))
  }

  /** The answers grouped by the pattern guess `g` produces against them. */
  function Buckets(g: Word, answers: seq<Word>): seq<Bucket<string, Word>>
    requires IsWord(g) && AllWords(answers)
  {
    Group(answers, ColorsOf(g, answers))
  }

  /** The answers with pattern `c` are exactly those `filter_answers` keeps for the outcome (g, c). */
  lemma {:induction false} SelectIsFilter(g: Word, answers: seq<Word>, c: string)
    requires IsWord(g) && AllWords(answers)
    ensures Select(answers, ColorsOf(g, answers), c) == FilterAnswers(answers, [Outcome(g, c)])
  {
    if |answers| > 0 {
      var n := |answers| - 1;
      var o := [Outcome(g, c)];
      assert ColorsOf(g, answers)[..n] == ColorsOf(g, answers[..n]);
      assert o[1..] == [];
      assert PossibleAnswer(answers[n], o) <==> Colors(g, answers[n]) == c;
      SelectIsFilter(g, answers[..n], c);
    }
  }

  /** Every group is non-empty and is exactly the filtered list for its own outcome. */
  predicate GroupedBy(g: Word, answers: seq<Word>, bs: seq<Bucket<string, Word>>) {
    && IsWord(g) && AllWords(answers)
    && forall i :: 0 <= i < |bs| ==>
         |bs[i].members| > 0 && bs[i].members == FilterAnswers(answers, [Outcome(g, bs[i].key)])
  }

  /** The partition by pattern is grouped that way, and its sizes add up to the number of answers. */
  lemma BucketsGrouped(g: Word, answers: seq<Word>)
    requires IsWord(g) && AllWords(answers)
    ensures GroupedBy(g, answers, Buckets(g, answers))
    ensures NonEmpty(Buckets(g, answers)) && Size(Buckets(g, answers)) == |answers|
  {
    var cs := ColorsOf(g, answers);
    var bs := Group(answers, cs);
    assert Buckets(g, answers) == bs;
    forall i | 0 <= i < |bs|
      ensures |bs[i].members| > 0 && bs[i].members == FilterAnswers(answers, [Outcome(g, bs[i].key)])
    {
      GroupMembers(answers, cs, i);
      SelectIsFilter(g, answers, bs[i].key);
    }
  }

  lemma GroupedTail(g: Word, answers: seq<Word>, bs: seq<Bucket<string, Word>>)
    requires GroupedBy(g, answers, bs) && |bs| > 0
    ensures GroupedBy(g, answers, bs[1..])
  {
    forall i | 0 <= i < |bs[1..]| ensures bs[1..][i] == bs[i + 1] { }
  }

  // ---------------------------------------------------------------------
  // The search

  /** The word lists every search function works on; the pool must not be empty. */
  predicate Lists(pool: seq<Word>, answers: seq<Word>) {
    AllWords(pool) && |pool| > 0 && AllWords(answers)
  }

  /** Every entry is a guess of the pool with a non-negative score. */
  predicate FromPool(pool: seq<Word>, s: seq<Scored<Word>>) {
    forall k :: 0 <= k < |s| ==> s[k].guess in pool && s[k].score >= 0.0
  }

  /** The shortlist sorted best first, still naming guesses of the pool. */
  function RankedWords(pool: seq<Word>, kept: seq<Scored<Word>>): (sorted: seq<Scored<Word>>)
    requires FromPool(pool, kept)
    ensures FromPool(pool, sorted) && Sorted(Maximize, sorted) && multiset(sorted) == multiset(kept)
    ensures |sorted| == |kept| && sorted == Sort(Maximize, kept)
  {
    SortMembers(Maximize, kept);
    var sorted := Sort(Maximize, kept);
    assert forall k :: 0 <= k < |sorted| ==> sorted[k] in kept;
    sorted
  }

  /** The guesses of at most the first `limit` entries. */
  function TopWords(pool: seq<Word>, sorted: seq<Scored<Word>>, limit: nat): (cands: seq<Word>)
    requires AllWords(pool) && FromPool(pool, sorted)
    ensures AllWords(cands) && |cands| <= limit && |cands| <= |sorted|
    ensures forall k :: 0 <= k < |cands| ==> cands[k] == sorted[k].guess && cands[k] in pool
  {
    var cands := GuessesOf(Take(sorted, limit));
    assert forall k :: 0 <= k < |cands| ==> cands[k] in pool;
    cands
  }

  /**
   * `best_guess`.  With no shortlisted guess the first guess of the pool is
   * returned with score 0.  The loop's guess variable starts as the empty
   * string with score 0, and it is only replaced by a candidate scoring
   * above 0.
   */
  function BestGuess(pool: seq<Word>, answers: seq<Word>, depth: nat, maxDepth: nat): (r: Pick<Word>)
    requires Lists(pool, answers)
    ensures r.guess.Some? && (r.guess.value in pool || r.guess.value == [])
    ensures r.score >= 0.0
    decreases Gap(depth, maxDepth), 4, 0
  {
    var kept := Kept(pool, answers);
    if |kept| == 0 then
      Pick(Some(pool[0]), 0.0)
    else
      var sorted := RankedWords(pool, kept);
      if depth == maxDepth then
        Pick(Some(sorted[0].guess), sorted[0].score)
      else
        var cands := TopWords(pool, sorted, MAX_CANDIDATES);
        var rescored := Rescore(cands, pool, answers, depth, maxDepth, |cands|);
        var init := Pick(Some([]), 0.0);
        FirstBestIsFirstExtremum(Maximize, rescored, init);
        var r := FirstBest(Maximize, rescored, init);
        assert r != init ==> exists i :: 0 <= i < |rescored| && r == Pick(Some(rescored[i].guess), rescored[i].score);
        r
  }

  /** The shortlist: the guesses with a positive horizon score, in pool order. */
  function Kept(pool: seq<Word>, answers: seq<Word>): (kept: seq<Scored<Word>>)
    requires Lists(pool, answers)
    ensures FromPool(pool, kept)
    ensures forall k :: 0 <= k < |kept| ==> kept[k].score > 0.0
    decreases 0, 3, |pool| + 1
  {
    var shallow := Shallow(pool, answers, |pool|);
    var kept := KeepAbove(shallow, 0.0);
    KeepAboveComplete(shallow, 0.0);
    assert FromPool(pool, kept) by {
      forall k | 0 <= k < |kept| ensures kept[k].guess in pool && kept[k].score >= 0.0 {
        assert kept[k] in shallow;
      }
    }
    kept
  }

  /** The horizon scores of the first `k` guesses of the pool, in pool order. */
  function Shallow(pool: seq<Word>, answers: seq<Word>, k: nat): (r: seq<Scored<Word>>)
    requires Lists(pool, answers) && k <= |pool|
    ensures |r| == k
    ensures forall i :: 0 <= i < k ==> r[i].guess == pool[i] && r[i].score >= 0.0
    decreases 0, 3, k
  {
    if k == 0 then []
    else Shallow(pool, answers, k - 1) + [Scored(pool[k - 1], ScoreGuess(pool[k - 1], pool, answers, 0, 0))]
  }

  /** The deep scores of the first `k` candidates, in candidate order. */
  function Rescore(cands: seq<Word>, pool: seq<Word>, answers: seq<Word>, depth: nat, maxDepth: nat, k: nat): (r: seq<Scored<Word>>)
    requires Lists(pool, answers) && AllWords(cands) && k <= |cands|
    ensures |r| == k
    ensures forall i :: 0 <= i < k ==> r[i].guess == cands[i] && r[i].score >= 0.0
    decreases Gap(depth, maxDepth), 2, k
  {
    if k == 0 then []
    else
      Rescore(cands, pool, answers, depth, maxDepth, k - 1)
        + [Scored(cands[k - 1], ScoreGuess(cands[k - 1], pool, answers, depth, maxDepth))]
  }

  /** `score_guess`: the expected number of answers eliminated by guessing `g`. */
  function ScoreGuess(g: Word, pool: seq<Word>, answers: seq<Word>, depth: nat, maxDepth: nat): (r: real)
    requires Lists(pool, answers) && IsWord(g)
    ensures r >= 0.0
    decreases Gap(depth, maxDepth), 1, 0
  {
    BucketsGrouped(g, answers);
    BucketSum(g, pool, answers, depth, maxDepth, Buckets(g, answers))
  }

  /** The contributions of a list of pattern groups. */
  function BucketSum(g: Word, pool: seq<Word>, answers: seq<Word>, depth: nat, maxDepth: nat, bs: seq<Bucket<string, Word>>): (r: real)
    requires Lists(pool, answers) && GroupedBy(g, answers, bs)
    ensures r >= 0.0
    decreases Gap(depth, maxDepth), 0, |bs|
  {
    if |bs| == 0 then 0.0
    else
      GroupedTail(g, answers, bs);
      Contribution(g, pool, answers, depth, maxDepth, bs[0]) + BucketSum(g, pool, answers, depth, maxDepth, bs[1..])
  }

  /**
   * One group's share: its probability c/n times the n − c answers it
   * eliminates, plus before the horizon the best score of the group one
   * level deeper (searched with the whole pool).
   */
  function Contribution(g: Word, pool: seq<Word>, answers: seq<Word>, depth: nat, maxDepth: nat, b: Bucket<string, Word>): (r: real)
    requires Lists(pool, answers) && IsWord(g)
    requires |b.members| > 0 && b.members == FilterAnswers(answers, [Outcome(g, b.key)])
    ensures r >= EliminationShare(|b.members|, |answers|) >= 0.0
    decreases Gap(depth, maxDepth), 0, 0
  {
    var count := |b.members|;
    var n := |answers|;
    var eliminated := n as real - count as real;
    var total :=
      if depth < maxDepth then eliminated + BestGuess(pool, b.members, depth + 1, maxDepth).score
      else eliminated;
    ShareAtLeastEliminated(count, n, total);
    Weighted(count, n, total)
  }

  // ---------------------------------------------------------------------
  // Properties of the search

  lemma {:induction false} ShallowEntry(pool: seq<Word>, answers: seq<Word>, k: nat, i: nat)
    requires Lists(pool, answers) && i < k <= |pool|
    ensures Shallow(pool, answers, k)[i] == Scored(pool[i], ScoreGuess(pool[i], pool, answers, 0, 0))
  {
    if i < k - 1 {
      ShallowEntry(pool, answers, k - 1, i);
    }
  }

  lemma {:induction false} RescoreEntry(cands: seq<Word>, pool: seq<Word>, answers: seq<Word>, depth: nat, maxDepth: nat, k: nat, j: nat)
    requires Lists(pool, answers) && AllWords(cands) && j < k <= |cands|
    ensures Rescore(cands, pool, answers, depth, maxDepth, k)[j].score == ScoreGuess(cands[j], pool, answers, depth, maxDepth)
  {
    if j < k - 1 {
      RescoreEntry(cands, pool, answers, depth, maxDepth, k - 1, j);
    }
  }

  /** A guess of the pool is shortlisted, with its horizon score, exactly when that score is positive. */
  lemma ShortlistKeepsPositive(pool: seq<Word>, answers: seq<Word>, i: nat)
    requires Lists(pool, answers) && i < |pool|
    ensures var s := Scored(pool[i], ScoreGuess(pool[i], pool, answers, 0, 0));
      s in Kept(pool, answers) <==> s.score > 0.0
  {
    KeepAboveComplete(Shallow(pool, answers, |pool|), 0.0);
    ShallowEntry(pool, answers, |pool|, i);
  }

  /**
   * The shortlist is empty exactly when no guess of the pool eliminates
   * anything at the horizon, and then the first guess of the pool is
   * returned with score 0 whatever the depth.
   */
  lemma EmptyShortlistGivesFirstGuess(pool: seq<Word>, answers: seq<Word>, depth: nat, maxDepth: nat)
    requires Lists(pool, answers)
    ensures |Kept(pool, answers)| == 0
        <==> forall i :: 0 <= i < |pool| ==> ScoreGuess(pool[i], pool, answers, 0, 0) == 0.0
    ensures |Kept(pool, answers)| == 0 ==> BestGuess(pool, answers, depth, maxDepth) == Pick(Some(pool[0]), 0.0)
  {
    var kept := Kept(pool, answers);
    if |kept| == 0 {
      forall i | 0 <= i < |pool| ensures ScoreGuess(pool[i], pool, answers, 0, 0) == 0.0 {
        ShortlistKeepsPositive(pool, answers, i);
      }
    } else {
      var k :| 0 <= k < |pool| && kept[0].guess == pool[k];
      KeepAboveComplete(Shallow(pool, answers, |pool|), 0.0);
      var j :| 0 <= j < |pool| && Shallow(pool, answers, |pool|)[j] == kept[0];
      ShallowEntry(pool, answers, |pool|, j);
    }
  }

  /**
   * With at most one answer left no guess eliminates anything, so the
   * first guess of the pool comes back with score 0 (even when the single
   * answer is itself a guess of the pool).
   */
  lemma FewAnswersGiveFirstGuess(pool: seq<Word>, answers: seq<Word>, depth: nat, maxDepth: nat)
    requires Lists(pool, answers) && |answers| <= 1
    ensures BestGuess(pool, answers, depth, maxDepth) == Pick(Some(pool[0]), 0.0)
  {
    forall i | 0 <= i < |pool| ensures ScoreGuess(pool[i], pool, answers, 0, 0) == 0.0 {
      ScoreGuessAtHorizon(pool[i], pool, answers, 0, 0);
      if |answers| == 1 {
        SumSquaresBounds(Buckets(pool[i], answers));
      }
    }
    EmptyShortlistGivesFirstGuess(pool, answers, depth, maxDepth);
  }

  /** At the horizon the best shortlisted guess is returned: its score is no lower than any guess's in the pool. */
  lemma HorizonPickIsMaximum(pool: seq<Word>, answers: seq<Word>, depth: nat, maxDepth: nat)
    requires Lists(pool, answers) && depth == maxDepth && |Kept(pool, answers)| > 0
    ensures var r := BestGuess(pool, answers, depth, maxDepth);
      && r.guess.Some? && r.guess.value in pool
      && r.score == ScoreGuess(r.guess.value, pool, answers, 0, 0) > 0.0
      && forall i :: 0 <= i < |pool| ==> ScoreGuess(pool[i], pool, answers, 0, 0) <= r.score
  {
    var kept := Kept(pool, answers);
    var shallow := Shallow(pool, answers, |pool|);
    SortHeadIsBest(Maximize, kept);
    var head := Sort(Maximize, kept)[0];
    KeepAboveComplete(shallow, 0.0);
    var j :| 0 <= j < |pool| && shallow[j] == head;
    ShallowEntry(pool, answers, |pool|, j);
    forall i | 0 <= i < |pool| ensures ScoreGuess(pool[i], pool, answers, 0, 0) <= head.score {
      ShortlistKeepsPositive(pool, answers, i);
    }
  }

  /** Looking deeper never lowers a score: every deeper best score added is non-negative. */
  lemma DeepScoreAtLeastShallow(g: Word, pool: seq<Word>, answers: seq<Word>, depth: nat, maxDepth: nat)
    requires Lists(pool, answers) && IsWord(g)
    ensures ScoreGuess(g, pool, answers, depth, maxDepth) >= ScoreGuess(g, pool, answers, 0, 0)
  {
    BucketsGrouped(g, answers);
    BucketSumAtLeastShallow(g, pool, answers, depth, maxDepth, Buckets(g, answers));
  }

  lemma {:induction false} BucketSumAtLeastShallow(g: Word, pool: seq<Word>, answers: seq<Word>, depth: nat, maxDepth: nat,
                                                   bs: seq<Bucket<string, Word>>)
    requires Lists(pool, answers) && GroupedBy(g, answers, bs)
    ensures BucketSum(g, pool, answers, depth, maxDepth, bs) >= BucketSum(g, pool, answers, 0, 0, bs)
  {
    if |bs| > 0 {
      GroupedTail(g, answers, bs);
      BucketSumAtLeastShallow(g, pool, answers, depth, maxDepth, bs[1..]);
      ContributionAtLeastShallow(g, pool, answers, depth, maxDepth, bs[0]);
    }
  }

  lemma ContributionAtLeastShallow(g: Word, pool: seq<Word>, answers: seq<Word>, depth: nat, maxDepth: nat, b: Bucket<string, Word>)
    requires Lists(pool, answers) && IsWord(g)
    requires |b.members| > 0 && b.members == FilterAnswers(answers, [Outcome(g, b.key)])
    ensures Contribution(g, pool, answers, depth, maxDepth, b) >= Contribution(g, pool, answers, 0, 0, b)
  {
    ContributionAtHorizon(g, pool, answers, 0, 0, b);
  }

  /**
   * Below the horizon the pick is the first strict maximum among the best
   * 100 shortlisted guesses re-scored at this depth, each paired with its
   * deep score.
   */
  lemma DeepPickIsFirstMaximum(pool: seq<Word>, answers: seq<Word>, depth: nat, maxDepth: nat)
    requires Lists(pool, answers) && depth != maxDepth && |Kept(pool, answers)| > 0
    ensures var cands := TopWords(pool, RankedWords(pool, Kept(pool, answers)), MAX_CANDIDATES);
      var rescored := Rescore(cands, pool, answers, depth, maxDepth, |cands|);
      var r := BestGuess(pool, answers, depth, maxDepth);
      && 0 < |cands| <= MAX_CANDIDATES
      && (forall j :: 0 <= j < |cands| ==> rescored[j] == Scored(cands[j], ScoreGuess(cands[j], pool, answers, depth, maxDepth)))
      && IsFirstBest(Maximize, rescored, Pick(Some([]), 0.0), r)
  {
    var kept := Kept(pool, answers);
    var cands := TopWords(pool, RankedWords(pool, kept), MAX_CANDIDATES);
    var rescored := Rescore(cands, pool, answers, depth, maxDepth, |cands|);
    var init := Pick(Some([]), 0.0);
    FirstBestIsFirstExtremum(Maximize, rescored, init);
    assert BestGuess(pool, answers, depth, maxDepth) == FirstBest(Maximize, rescored, init);
    forall j | 0 <= j < |cands|
      ensures rescored[j].score == ScoreGuess(cands[j], pool, answers, depth, maxDepth)
    {
      RescoreEntry(cands, pool, answers, depth, maxDepth, |cands|, j);
    }
  }

  /**
   * Below the horizon the pick is never the empty initial guess, since the
   * top shortlisted guess already scores above 0: it is a guess of the pool.
   */
  lemma DeepPickIsPoolGuess(pool: seq<Word>, answers: seq<Word>, depth: nat, maxDepth: nat)
    requires Lists(pool, answers) && depth != maxDepth && |Kept(pool, answers)| > 0
    ensures var r := BestGuess(pool, answers, depth, maxDepth);
      r != Pick(Some([]), 0.0) && r.guess.Some? && r.guess.value in pool
  {
    var cands := TopWords(pool, RankedWords(pool, Kept(pool, answers)), MAX_CANDIDATES);
    var rescored := Rescore(cands, pool, answers, depth, maxDepth, |cands|);
    DeepPickIsFirstMaximum(pool, answers, depth, maxDepth);
    TopCandidatePositive(pool, answers, depth, maxDepth);
    assert Better(Maximize, rescored[0].score, 0.0);
  }


  /** The best shortlisted guess scores above 0 at any depth. */
  lemma TopCandidatePositive(pool: seq<Word>, answers: seq<Word>, depth: nat, maxDepth: nat)
    requires Lists(pool, answers) && |Kept(pool, answers)| > 0
    ensures var cands := TopWords(pool, RankedWords(pool, Kept(pool, answers)), MAX_CANDIDATES);
      |cands| > 0 && ScoreGuess(cands[0], pool, answers, depth, maxDepth) > 0.0
  {
    var kept := Kept(pool, answers);
    var sorted := RankedWords(pool, kept);
    var cands := TopWords(pool, sorted, MAX_CANDIDATES);
    assert sorted[0] in multiset(kept);
    ShortlistedIsPositive(pool, answers, sorted[0]);
    DeepScoreAtLeastShallow(cands[0], pool, answers, depth, maxDepth);
  }

  /** Every shortlisted entry is a guess of the pool with its positive horizon score. */
  lemma ShortlistedIsPositive(pool: seq<Word>, answers: seq<Word>, s: Scored<Word>)
    requires Lists(pool, answers) && s in Kept(pool, answers)
    ensures s.guess in pool && IsWord(s.guess)
    ensures s.score == ScoreGuess(s.guess, pool, answers, 0, 0) > 0.0
  {
    var shallow := Shallow(pool, answers, |pool|);
    KeepAboveComplete(shallow, 0.0);
    var j :| 0 <= j < |pool| && shallow[j] == s;
    ShallowEntry(pool, answers, |pool|, j);
  }

  lemma ContributionAtHorizon(g: Word, pool: seq<Word>, answers: seq<Word>, depth: nat, maxDepth: nat, b: Bucket<string, Word>)
    requires Lists(pool, answers) && IsWord(g) && depth >= maxDepth
    requires |b.members| > 0 && b.members == FilterAnswers(answers, [Outcome(g, b.key)])
    ensures Contribution(g, pool, answers, depth, maxDepth, b) == EliminationShare(|b.members|, |answers|)
  {
    var c := |b.members|;
    var n := |answers|;
    EliminatedValue(c, n, Contribution(g, pool, answers, depth, maxDepth, b));
  }

  /** At the horizon the groups add up to their total size minus Σc²/n. */
  lemma {:induction false} BucketSumAtHorizon(g: Word, pool: seq<Word>, answers: seq<Word>, depth: nat, maxDepth: nat,
                                              bs: seq<Bucket<string, Word>>)
    requires Lists(pool, answers) && |answers| > 0 && GroupedBy(g, answers, bs) && depth >= maxDepth
    ensures BucketSum(g, pool, answers, depth, maxDepth, bs) == Size(bs) as real - (SumSquares(bs) as real) / (|answers| as real)
  {
    if |bs| > 0 {
      GroupedTail(g, answers, bs);
      BucketSumAtHorizon(g, pool, answers, depth, maxDepth, bs[1..]);
      ContributionAtHorizon(g, pool, answers, depth, maxDepth, bs[0]);
      AddRatios(|bs[0].members| * |bs[0].members|, SumSquares(bs[1..]), |answers|);
    }
  }

  /**
   * At the horizon a guess eliminates n − Σc²/n answers in expectation,
   * where the group sizes c add up to n; this lies between 0 and n − 1,
   * and with no answers it is 0.
   */
  lemma ScoreGuessAtHorizon(g: Word, pool: seq<Word>, answers: seq<Word>, depth: nat, maxDepth: nat)
    requires Lists(pool, answers) && IsWord(g) && depth >= maxDepth
    ensures |answers| == 0 ==> ScoreGuess(g, pool, answers, depth, maxDepth) == 0.0
    ensures |answers| > 0 ==>
      var bs := Buckets(g, answers);
      var n := |answers| as real;
      && Size(bs) == |answers|
      && ScoreGuess(g, pool, answers, depth, maxDepth) == n - (SumSquares(bs) as real) / n
      && ScoreGuess(g, pool, answers, depth, maxDepth) <= n - 1.0
  {
    var bs := Buckets(g, answers);
    BucketsGrouped(g, answers);
    if |answers| > 0 {
      BucketSumAtHorizon(g, pool, answers, depth, maxDepth, bs);
      SumSquaresBounds(bs);
      RatioAtLeastOne(SumSquares(bs), |answers|);
    } else {
      assert |bs| == 0;
    }
  }
}

/**
 * The Python variant, python/wordle.py.  Its `get_outcome` is the same
 * single colouring pass over the zipped positions.  Its `possible_answer`
 * does not compare feedback at all: it checks three rules per recorded
 * (guess, outcome) pair — '!' exactly where the letters agree, at least as
 * many copies of a letter as it has '!'/'+' marks, and no more copies of a
 * '-' letter than its '!'/'+' marks.  `score_guess` is the expected number
 * of answers eliminated, with the answer list passed in.
 */
module PyWordle {
  import opened Feedback
  import opened Partition
  import opened Search

  function Min(a: nat, b: nat): nat {
    if a <= b then a else b
  }

  /** `get_outcome`: the colouring pass over the zipped positions, counting letters over the whole answer. */
  function GetOutcome(guess: string, answer: string): (o: string)
    ensures |o| == Min(|guess|, |answer|)
  {
    Scan(guess, answer, Min(|guess|, |answer|)).colors
  }

  /** On words of equal length `get_outcome` gives the feedback the other variants compute. */
  lemma GetOutcomeIsColors(guess: string, answer: string)
    requires |guess| == |answer|
    ensures GetOutcome(guess, answer) == Colors(guess, answer)
    ensures IsFeedback(GetOutcome(guess, answer))
    ensures forall i :: 0 <= i < |guess| ==> (GetOutcome(guess, answer)[i] == HIT <==> guess[i] == answer[i])
  {
    ColorsAreFeedback(guess, answer);
    HitExactlyWhereEqual(guess, answer);
  }

  // ---------------------------------------------------------------------
  // The rule-based filter

  /** How many positions `zip(guess, outcome, word)` visits. */
  function Zipped(guess: string, outcome: string, word: string): (n: nat)
    ensures n <= |guess| && n <= |outcome| && n <= |word|
  {
    Min(Min(|guess|, |outcome|), |word|)
  }

  /** '!' sits exactly where the guess and the word have the same letter. */
  predicate PositionsAgree(word: string, guess: string, outcome: string) {
    forall k :: 0 <= k < Zipped(guess, outcome, word) ==> (outcome[k] == HIT <==> guess[k] == word[k])
  }

  /** `positive_counts`: the letters of the guess marked '!' or '+', with multiplicity. */
  function PositiveCounts(guess: string, outcome: string, word: string): multiset<char> {
    Claimed(guess, outcome[..Zipped(guess, outcome, word)])
  }

  /** `negative_letters`: the letters of the guess marked '-'. */
  function NegativeLetters(guess: string, outcome: string, word: string): set<char> {
    MissSet(guess, outcome[..Zipped(guess, outcome, word)])
  }

  /** The letters of `guess` at the positions where `colors` holds '-', as a set. */
  function MissSet(guess: string, colors: string): set<char>
    requires |colors| <= |guess|
  {
    if |colors| == 0 then {}
    else
      var n := |colors| - 1;
      MissSet(guess, colors[..n]) + (if colors[n] == MISS then {guess[n]} else {})
  }

  /** The three rules one (guess, outcome) pair imposes on a word. */
  predicate PairAllows(word: string, guess: string, outcome: string) {
    && PositionsAgree(word, guess, outcome)
    && PositiveCounts(guess, outcome, word) <= multiset(word)
    && forall l :: l in NegativeLetters(guess, outcome, word) ==> multiset(word)[l] <= PositiveCounts(guess, outcome, word)[l]
  }

  /** `possible_answer`: every zipped (guess, outcome) pair allows the word; with no pairs every word is possible. */
  function PossibleAnswer(word: string, guesses: seq<string>, outcomes: seq<string>): (ok: bool)
    ensures |guesses| == 0 || |outcomes| == 0 ==> ok
    decreases |guesses|
  {
    if |guesses| == 0 || |outcomes| == 0 then true
    else PairAllows(word, guesses[0], outcomes[0]) && PossibleAnswer(word, guesses[1..], outcomes[1..])
  }

  /** The verdict is the conjunction over the zipped pairs. */
  lemma {:induction false} PossibleAnswerAll(word: string, guesses: seq<string>, outcomes: seq<string>)
    ensures PossibleAnswer(word, guesses, outcomes)
        <==> forall i :: 0 <= i < Min(|guesses|, |outcomes|) ==> PairAllows(word, guesses[i], outcomes[i])
    decreases |guesses|
  {
    if |guesses| > 0 && |outcomes| > 0 {
      PossibleAnswerAll(word, guesses[1..], outcomes[1..]);
      assert forall i :: 1 <= i < Min(|guesses|, |outcomes|) ==>
        guesses[1..][i - 1] == guesses[i] && outcomes[1..][i - 1] == outcomes[i];
    }
  }

  /** Recording more pairs can only rule words out: the verdict splits over concatenated records. */
  lemma {:induction false} PossibleAnswerAppend(word: string, g1: seq<string>, o1: seq<string>, g2: seq<string>, o2: seq<string>)
    requires |g1| == |o1|
    ensures PossibleAnswer(word, g1 + g2, o1 + o2) == (PossibleAnswer(word, g1, o1) && PossibleAnswer(word, g2, o2))
    decreases |g1|
  {
    if |g1| > 0 {
      assert (g1 + g2)[1..] == g1[1..] + g2;
      assert (o1 + o2)[1..] == o1[1..] + o2;
      PossibleAnswerAppend(word, g1[1..], o1[1..], g2, o2);
    } else {
      assert g1 + g2 == g2 && o1 + o2 == o2;
    }
  }

  /**
   * The checks of one pair as the program runs them: a pass over the
   * zipped positions that rejects on a positional mismatch and collects the
   * marked letters, then the count checks over the letters collected.
   */
  method PairAllowsLoop(word: string, guess: string, outcome: string) returns (ok: bool)
    ensures ok == PairAllows(word, guess, outcome)
  {
    var agree, positive, negative := PositionPass(word, guess, outcome);
    if !agree {
      return false;
    }
    var counts := multiset(word);
    ok := CountCheck(positive, counts);
    if !ok {
      return;
    }
    ok := MissCheck(negative, positive, counts);
  }

  /** The loop over `zip(guess, outcome, word)`: positional checks and the two collections. */
  method PositionPass(word: string, guess: string, outcome: string) returns (agree: bool, positive: multiset<char>, negative: set<char>)
    ensures agree == PositionsAgree(word, guess, outcome)
    ensures agree ==> positive == PositiveCounts(guess, outcome, word) && negative == NegativeLetters(guess, outcome, word)
  {
    var n := Zipped(guess, outcome, word);
    positive := multiset{};
    negative := {};
    var k := 0;
    while k < n
      invariant k <= n
      invariant forall j :: 0 <= j < k ==> (outcome[j] == HIT <==> guess[j] == word[j])
      invariant Collected(guess, outcome, k, positive, negative)
    {
      var g, o, w := guess[k], outcome[k], word[k];
      if o == HIT && g != w {
        return false, positive, negative;
      }
      if o != HIT && g == w {
        return false, positive, negative;
      }
      var positive', negative' := positive, negative;
      if o == HIT || o == PRESENT {
        positive' := positive + multiset{g};
      }
      if o == MISS {
        negative' := negative + {g};
      }
      PassStep(guess, outcome, k, positive, negative, positive', negative');
      positive, negative := positive', negative';
      k := k + 1;
    }
    agree := true;
  }

  /** After `k` positions the pass has collected the claimed letters and the set of '-' letters. */
  predicate Collected(guess: string, outcome: string, k: nat, positive: multiset<char>, negative: set<char>)
    requires k <= |guess| && k <= |outcome|
  {
    && positive == Claimed(guess, outcome[..k])
    && negative == MissSet(guess, outcome[..k])
  }

  /** One position of the pass: the collections grow by that position's letter as its symbol says. */
  lemma PassStep(guess: string, outcome: string, k: nat, positive: multiset<char>, negative: set<char>,
                 positive': multiset<char>, negative': set<char>)
    requires k < |guess| && k < |outcome|
    requires Collected(guess, outcome, k, positive, negative)
    requires positive' == if outcome[k] == HIT || outcome[k] == PRESENT then positive + multiset{guess[k]} else positive
    requires negative' == if outcome[k] == MISS then negative + {guess[k]} else negative
    ensures Collected(guess, outcome, k + 1, positive', negative')
  {
    ClaimedStep(guess, outcome, k);
    MissStep(guess, outcome, k, negative, negative');
  }

  /** The claimed letters grow by the position's letter exactly when it is marked '!' or '+'. */
  lemma ClaimedStep(guess: string, outcome: string, k: nat)
    requires k < |guess| && k < |outcome|
    ensures Claimed(guess, outcome[..k + 1]) == Claimed(guess, outcome[..k])
      + if outcome[k] == HIT || outcome[k] == PRESENT then multiset{guess[k]} else multiset{}
  {
    LettersStep(guess, outcome, k, HIT);
    LettersStep(guess, outcome, k, PRESENT);
  }

  /** The set of '-' letters grows by the position's letter exactly when it is marked '-'. */
  lemma MissStep(guess: string, outcome: string, k: nat, negative: set<char>, negative': set<char>)
    requires k < |guess| && k < |outcome|
    requires negative == MissSet(guess, outcome[..k])
    requires negative' == if outcome[k] == MISS then negative + {guess[k]} else negative
    ensures negative' == MissSet(guess, outcome[..k + 1])
  {
    assert outcome[..k + 1][..k] == outcome[..k];
  }

  /** Extending the outcome prefix by one position adds that position's letter if it holds `sym`. */
  lemma LettersStep(guess: string, outcome: string, k: nat, sym: char)
    requires k < |guess| && k < |outcome|
    ensures Letters(guess, outcome[..k + 1], sym)
         == Letters(guess, outcome[..k], sym) + (if outcome[k] == sym then multiset{guess[k]} else multiset{})
  {
    assert outcome[..k + 1][..k] == outcome[..k];
  }

  /** No letter is marked '!' or '+' more often than the word holds it. */
  method CountCheck(positive: multiset<char>, counts: multiset<char>) returns (ok: bool)
    ensures ok == (positive <= counts)
  {
    var letters := set l | l in positive;
    var checked: set<char> := {};
    while letters != {}
      invariant letters !! checked && (set l | l in positive) == letters + checked
      invariant forall l :: l in checked ==> positive[l] <= counts[l]
    {
      var l :| l in letters;
      if counts[l] < positive[l] {
        return false;
      }
      letters := letters - {l};
      checked := checked + {l};
    }
    assert forall l :: positive[l] <= counts[l] by {
      forall l ensures positive[l] <= counts[l] {
        if l !in positive {
          assert positive[l] == 0;
        }
      }
    }
    ok := true;
  }

  /** No letter marked '-' occurs in the word more often than it is marked '!' or '+'. */
  method MissCheck(negative: set<char>, positive: multiset<char>, counts: multiset<char>) returns (ok: bool)
    ensures ok == forall l :: l in negative ==> counts[l] <= positive[l]
  {
    var rest := negative;
    while rest != {}
      invariant rest <= negative
      invariant forall l :: l in negative - rest ==> counts[l] <= positive[l]
    {
      var l :| l in rest;
      if counts[l] > positive[l] {
        return false;
      }
      rest := rest - {l};
    }
    ok := true;
  }

  /** `possible_answer` as the program runs it: pair by pair, stopping at the first rejection. */
  method PossibleAnswerLoop(word: string, guesses: seq<string>, outcomes: seq<string>) returns (ok: bool)
    ensures ok == PossibleAnswer(word, guesses, outcomes)
  {
    var i := 0;
    while i < Min(|guesses|, |outcomes|)
      invariant i <= Min(|guesses|, |outcomes|)
      invariant PossibleAnswer(word, guesses, outcomes) == PossibleAnswer(word, guesses[i..], outcomes[i..])
    {
      assert guesses[i..][1..] == guesses[i + 1..] && outcomes[i..][1..] == outcomes[i + 1..];
      ok := PairAllowsLoop(word, guesses[i], outcomes[i]);
      if !ok {
        return;
      }
      i := i + 1;
    }
    ok := true;
  }

  // ---------------------------------------------------------------------
  // How the rules treat the program's own feedback

  /** A letter of `MissSet(guess, colors)` comes from a position holding '-'. */
  lemma {:induction false} MissSetSource(guess: string, colors: string, ch: char)
    requires |colors| <= |guess| && ch in MissSet(guess, colors)
    ensures exists k :: 0 <= k < |colors| && colors[k] == MISS && guess[k] == ch
  {
    var n := |colors| - 1;
    if ch in MissSet(guess, colors[..n]) {
      MissSetSource(guess, colors[..n], ch);
      var k :| 0 <= k < n && colors[..n][k] == MISS && guess[k] == ch;
      assert colors[k] == MISS;
    }
  }

  /**
   * For the feedback the pass itself gives, the positional rule and the
   * '-' rule always hold: a '-' is only written once the letters claimed
   * before it already cover every copy in the word.  (The count rule can
   * fail: see `SinglePassFailsCountRule`.)
   */
  lemma OwnOutcomeKeepsPositionAndMissRules(guess: string, word: string)
    requires |guess| == |word|
    ensures PositionsAgree(word, guess, GetOutcome(guess, word))
    ensures var o := GetOutcome(guess, word);
      forall l :: l in NegativeLetters(guess, o, word) ==> multiset(word)[l] <= PositiveCounts(guess, o, word)[l]
  {
    var o := GetOutcome(guess, word);
    GetOutcomeIsColors(guess, word);
    assert Zipped(guess, o, word) == |guess|;
    assert o[..|guess|] == o;
    forall l | l in NegativeLetters(guess, o, word)
      ensures multiset(word)[l] <= PositiveCounts(guess, o, word)[l]
    {
      MissSetSource(guess, o, l);
      var k :| 0 <= k < |o| && o[k] == MISS && guess[k] == l;
      ColorsCharacterization(guess, word, k);
      LettersPrefix(guess, o, HIT, k);
      LettersPrefix(guess, o, PRESENT, k);
    }
  }

  // ---------------------------------------------------------------------
  // Scoring

  /** The outcome of `guess` against each answer. */
  function OutcomesOf(guess: string, answers: seq<string>): (os: seq<string>)
    ensures |os| == |answers| && forall i :: 0 <= i < |answers| ==> os[i] == GetOutcome(guess, answers[i])
  {
    seq(|answers|, i requires 0 <= i < |answers| => GetOutcome(guess, answers[i]))
  }

  /** Each group's probability c/n times the n − c answers it eliminates, summed. */
  function Shares(bs: seq<Bucket<string, string>>, n: nat): real
    requires n > 0 || |bs| == 0
  {
    if |bs| == 0 then 0.0
    else Weighted(|bs[0].members|, n, n as real - |bs[0].members| as real) + Shares(bs[1..], n)
  }

  /** `score_guess`: the expected number of answers the guess eliminates. */
  function ScoreGuess(guess: string, answers: seq<string>): real {
    Shares(Group(answers, OutcomesOf(guess, answers)), |answers|)
  }

  lemma {:induction false} SharesIs(bs: seq<Bucket<string, string>>, n: nat)
    requires n > 0
    ensures Shares(bs, n) == Size(bs) as real - (SumSquares(bs) as real) / (n as real)
  {
    if |bs| > 0 {
      var c := |bs[0].members|;
      SharesIs(bs[1..], n);
      EliminatedShare(c, n);
      AddRatios(c * c, SumSquares(bs[1..]), n);
    }
  }

  /**
   * The score is n − Σc²/n over the outcome groups, whose sizes add up to
   * n; it lies between 0 and n − 1, and with no answers it is 0.
   */
  lemma ScoreGuessIsExpectedEliminated(guess: string, answers: seq<string>)
    ensures |answers| == 0 ==> ScoreGuess(guess, answers) == 0.0
    ensures |answers| > 0 ==>
      var bs := Group(answers, OutcomesOf(guess, answers));
      var n := |answers| as real;
      && Size(bs) == |answers|
      && ScoreGuess(guess, answers) == n - (SumSquares(bs) as real) / n
      && 0.0 <= ScoreGuess(guess, answers) <= n - 1.0
  {
    var bs := Group(answers, OutcomesOf(guess, answers));
    if |answers| > 0 {
      SharesIs(bs, |answers|);
      SumSquaresBounds(bs);
      RatioAtLeastOne(SumSquares(bs), |answers|);
      RatioBound(SumSquares(bs), |answers|);
    } else {
      assert |bs| == 0;
    }
  }
}

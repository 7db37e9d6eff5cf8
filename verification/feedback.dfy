/**
 * The colouring of a guess against an answer: one symbol per position,
 * '!' (Hit), '+' (Present) or '-' (Miss), computed in a single
 * left-to-right pass that keeps a running count of how many copies of each
 * letter the guess has already claimed.
 *
 * The pass does not reserve the Hits before it hands out Presents, so a
 * letter may be marked '+' at an early position and '!' at a later one even
 * when the answer holds a single copy of it (see `SinglePassDoubleCounts`).
 */
module Feedback {
  import opened Words

  const HIT: char := '!'
  const PRESENT: char := '+'
  const MISS: char := '-'

  /** What the pass carries from one position to the next. */
  datatype PassState = PassState(colors: string, used: multiset<char>)

  /**
   * The state after the pass has looked at the first `n` positions: the
   * symbols written so far, and in `used` the letters already marked '!' or
   * '+'.  A letter that differs from the answer's letter at its position is
   * Present while `used` holds fewer copies of it than the whole answer.
   */
  function Scan(guess: string, answer: string, n: nat): (s: PassState)
    requires n <= |guess| && n <= |answer|
    ensures |s.colors| == n
  {
    if n == 0 then PassState([], multiset{})
    else
      var prev := Scan(guess, answer, n - 1);
      var g := guess[n - 1];
      if g == answer[n - 1] then PassState(prev.colors + [HIT], prev.used + multiset{g})
      else if prev.used[g] < multiset(answer)[g] then PassState(prev.colors + [PRESENT], prev.used + multiset{g})
      else PassState(prev.colors + [MISS], prev.used)
  }

  /** The feedback for a guess against an answer of the same length. */
  function Colors(guess: Word, answer: Word): string
    requires |guess| == |answer|
  {
    Scan(guess, answer, |guess|).colors
  }

  /** The letters of `guess` at the positions where `colors` holds `sym`. */
  function Letters(guess: string, colors: string, sym: char): multiset<char>
    requires |colors| <= |guess|
  {
    if |colors| == 0 then multiset{}
    else
      var n := |colors| - 1;
      Letters(guess, colors[..n], sym) + (if colors[n] == sym then multiset{guess[n]} else multiset{})
  }

  /** The letters the pass has claimed: every non-Miss position. */
  function Claimed(guess: string, colors: string): multiset<char>
    requires |colors| <= |guess|
  {
    Letters(guess, colors, HIT) + Letters(guess, colors, PRESENT)
  }

  /** The symbol the pass gives a position, from the letters claimed before it. */
  function SymbolFor(g: char, a: char, claimedBefore: nat, inAnswer: nat): char {
    if g == a then HIT else if claimedBefore < inAnswer then PRESENT else MISS
  }

  /** Every symbol of a feedback string is one of the three. */
  predicate IsFeedback(s: string) {
    forall i :: 0 <= i < |s| ==> s[i] == HIT || s[i] == PRESENT || s[i] == MISS
  }

  /** `n` Hits in a row: the feedback for a correct guess. */
  function AllHits(n: nat): (s: string)
    ensures |s| == n && forall i :: 0 <= i < n ==> s[i] == HIT
  {
    seq(n, _ => HIT)
  }

  lemma {:induction false} LettersPrefix(guess: string, colors: string, sym: char, m: nat)
    requires |colors| <= |guess| && m <= |colors|
    ensures Letters(guess, colors[..m], sym) <= Letters(guess, colors, sym)
    decreases |colors|
  {
    if m < |colors| {
      var n := |colors| - 1;
      assert colors[..n][..m] == colors[..m];
      LettersPrefix(guess, colors[..n], sym, m);
    } else {
      assert colors[..m] == colors;
    }
  }

  /** A longer pass extends a shorter one: later positions never rewrite earlier ones. */
  lemma {:induction false} ScanExtends(guess: string, answer: string, m: nat, n: nat)
    requires m <= n <= |guess| && n <= |answer|
    ensures Scan(guess, answer, m).colors == Scan(guess, answer, n).colors[..m]
    decreases n
  {
    if m < n {
      ScanExtends(guess, answer, m, n - 1);
      var c := Scan(guess, answer, n).colors;
      assert c[..n - 1] == Scan(guess, answer, n - 1).colors;
      assert c[..m] == c[..n - 1][..m];
    }
  }

  /** The running counter is exactly the multiset of claimed letters. */
  lemma {:induction false} UsedIsClaimed(guess: string, answer: string, n: nat)
    requires n <= |guess| && n <= |answer|
    ensures Scan(guess, answer, n).used == Claimed(guess, Scan(guess, answer, n).colors)
  {
    if n > 0 {
      UsedIsClaimed(guess, answer, n - 1);
      var c := Scan(guess, answer, n).colors;
      assert c[..n - 1] == Scan(guess, answer, n - 1).colors;
    }
  }

  /**
   * Reference definition of the pass, position by position: position `i`
   * is a Hit exactly when the letters agree; otherwise it is Present exactly
   * when fewer copies of its letter were claimed before it than the answer
   * holds, and a Miss otherwise.
   */
  lemma ColorsCharacterization(guess: Word, answer: Word, i: nat)
    requires |guess| == |answer| && i < |guess|
    ensures var c := Colors(guess, answer);
      c[i] == SymbolFor(guess[i], answer[i], Claimed(guess, c[..i])[guess[i]], multiset(answer)[guess[i]])
  {
    var c := Colors(guess, answer);
    ScanExtends(guess, answer, i, |guess|);
    ScanExtends(guess, answer, i + 1, |guess|);
    UsedIsClaimed(guess, answer, i);
    assert c[..i + 1] == Scan(guess, answer, i + 1).colors;
    assert c[i] == c[..i + 1][i];
  }

  lemma {:induction false} ScanFollows(guess: string, answer: string, c: string, n: nat)
    requires n <= |guess| && n <= |answer| && n <= |c|
    requires forall i :: 0 <= i < n ==>
      c[i] == SymbolFor(guess[i], answer[i], Claimed(guess, c[..i])[guess[i]], multiset(answer)[guess[i]])
    ensures Scan(guess, answer, n).colors == c[..n]
  {
    if n > 0 {
      ScanFollows(guess, answer, c, n - 1);
      UsedIsClaimed(guess, answer, n - 1);
      var prev := Scan(guess, answer, n - 1);
      var g := guess[n - 1];
      assert prev.used[g] == Claimed(guess, c[..n - 1])[g];
      assert c[n - 1] == SymbolFor(g, answer[n - 1], prev.used[g], multiset(answer)[g]);
      assert Scan(guess, answer, n).colors == prev.colors + [c[n - 1]];
      PrefixSnoc(c, n);
    }
  }

  /** A prefix is the shorter prefix followed by its last element. */
  lemma PrefixSnoc<T>(s: seq<T>, n: nat)
    requires 0 < n <= |s|
    ensures s[..n] == s[..n - 1] + [s[n - 1]]
  {
  }

  /**
   * The converse of `ColorsCharacterization`: a string that follows the
   * position-by-position rule everywhere is the feedback, so the rule
   * defines the pass completely.
   */
  lemma ColorsFromCharacterization(guess: Word, answer: Word, c: string)
    requires |guess| == |answer| == |c|
    requires forall i :: 0 <= i < |c| ==>
      c[i] == SymbolFor(guess[i], answer[i], Claimed(guess, c[..i])[guess[i]], multiset(answer)[guess[i]])
    ensures Colors(guess, answer) == c
  {
    ScanFollows(guess, answer, c, |c|);
    assert c[..|c|] == c;
  }

  /** The pass only ever writes the three feedback symbols. */
  lemma ColorsAreFeedback(guess: Word, answer: Word)
    requires |guess| == |answer|
    ensures IsFeedback(Colors(guess, answer))
  {
    forall i | 0 <= i < |guess|
      ensures Colors(guess, answer)[i] in {HIT, PRESENT, MISS}
    {
      ColorsCharacterization(guess, answer, i);
    }
  }

  /** '!' sits exactly where guess and answer agree. */
  lemma HitExactlyWhereEqual(guess: Word, answer: Word)
    requires |guess| == |answer|
    ensures forall i :: 0 <= i < |guess| ==> (Colors(guess, answer)[i] == HIT <==> guess[i] == answer[i])
  {
    forall i | 0 <= i < |guess|
      ensures Colors(guess, answer)[i] == HIT <==> guess[i] == answer[i]
    {
      ColorsCharacterization(guess, answer, i);
    }
  }

  lemma {:induction false} PresentBoundScan(guess: string, answer: string, n: nat)
    requires n <= |guess| && n <= |answer|
    ensures var s := Scan(guess, answer, n);
      forall ch :: Letters(guess, s.colors, PRESENT)[ch] <= s.used[ch]
                && Letters(guess, s.colors, PRESENT)[ch] <= multiset(answer)[ch]
  {
    if n > 0 {
      PresentBoundScan(guess, answer, n - 1);
      ScanStep(guess, answer, n);
      var s := Scan(guess, answer, n);
      PresentStep(Letters(guess, s.colors[..n - 1], PRESENT), Letters(guess, s.colors, PRESENT),
                  Scan(guess, answer, n - 1).used, s.used, multiset(answer), guess[n - 1], s.colors[n - 1] == PRESENT);
    }
  }

  /** One step of the pass extends the colours by one symbol and only ever adds to the claimed letters; a '+' claims its letter while a copy is unclaimed. */
  lemma ScanStep(guess: string, answer: string, n: nat)
    requires 0 < n <= |guess| && n <= |answer|
    ensures var prev := Scan(guess, answer, n - 1);
      var s := Scan(guess, answer, n);
      && s.colors[..n - 1] == prev.colors
      && prev.used <= s.used
      && (s.colors[n - 1] == PRESENT ==> s.used == prev.used + multiset{guess[n - 1]} && prev.used[guess[n - 1]] < multiset(answer)[guess[n - 1]])
  {
    assert Scan(guess, answer, n).colors[..n - 1] == Scan(guess, answer, n - 1).colors;
  }

  /**
   * One position of the bound: a '+' for `g` is only added while the claimed
   * copies of `g` are fewer than the answer's, and it is claimed at once.
   */
  lemma PresentStep(before: multiset<char>, after: multiset<char>, usedBefore: multiset<char>, used: multiset<char>,
                    inAnswer: multiset<char>, g: char, present: bool)
    requires forall ch :: before[ch] <= usedBefore[ch] && before[ch] <= inAnswer[ch]
    requires after == before + (if present then multiset{g} else multiset{})
    requires usedBefore <= used
    requires present ==> used == usedBefore + multiset{g} && usedBefore[g] < inAnswer[g]
    ensures forall ch :: after[ch] <= used[ch] && after[ch] <= inAnswer[ch]
  {
    forall ch
      ensures after[ch] <= used[ch] && after[ch] <= inAnswer[ch]
    {
      assert before[ch] <= usedBefore[ch] && before[ch] <= inAnswer[ch];
      assert usedBefore[ch] <= used[ch];
    }
  }

  /**
   * A '+' is only ever given while the answer still has an unclaimed copy,
   * so for every letter the number of '+' marks is at most the number of
   * copies in the answer.
   */
  lemma PresentBound(guess: Word, answer: Word)
    requires |guess| == |answer|
    ensures forall ch :: Letters(guess, Colors(guess, answer), PRESENT)[ch] <= multiset(answer)[ch]
  {
    PresentBoundScan(guess, answer, |guess|);
  }

  /** The feedback is all Hits exactly when the guess is the answer. */
  lemma AllHitsIffEqual(guess: Word, answer: Word)
    requires |guess| == |answer|
    ensures Colors(guess, answer) == AllHits(|guess|) <==> guess == answer
  {
    HitExactlyWhereEqual(guess, answer);
    if guess == answer {
      assert Colors(guess, answer) == AllHits(|guess|);
    }
    if Colors(guess, answer) == AllHits(|guess|) {
      assert forall i :: 0 <= i < |guess| ==> guess[i] == answer[i];
    }
  }

  /**
   * The colouring loop as the program writes it: a counter map of the
   * answer's letters, a counter map of claimed letters read with default 0,
   * and one symbol appended per position.
   */
  method ComputeColors(guess: Word, answer: Word) returns (colors: string)
    requires IsWord(guess) && IsWord(answer)
    ensures colors == Colors(guess, answer)
  {
    var answerCounts := LetterCounts(answer);
    var guessCounts: map<char, nat> := map[];
    colors := [];
    var i := 0;
    while i < WORD_LENGTH
      invariant i <= WORD_LENGTH
      invariant colors == Scan(guess, answer, i).colors
      invariant forall ch :: Get(guessCounts, ch) == Scan(guess, answer, i).used[ch]
    {
      var g := guess[i];
      if g == answer[i] {
        colors := colors + [HIT];
        guessCounts := guessCounts[g := Get(guessCounts, g) + 1];
      } else if Get(guessCounts, g) < Get(answerCounts, g) {
        colors := colors + [PRESENT];
        guessCounts := guessCounts[g := Get(guessCounts, g) + 1];
      } else {
        colors := colors + [MISS];
      }
      i := i + 1;
    }
  }
}

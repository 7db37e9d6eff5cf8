/**
 * The word tables of the solver: two ordered lists of fixed-length words
 * (legal guesses, possible answers), their per-word letter counts, and the
 * text-to-index lookups.  Words are identified by their index in a table.
 */
module Words {

  /** Every word in the game has exactly this many letters. */
  const WORD_LENGTH: nat := 5

  type Word = string

  /** The two tables the solver works on, loaded once and never changed. */
  datatype Tables = Tables(guesses: seq<Word>, answers: seq<Word>)

  /** A word of the game's length. */
  predicate IsWord(w: Word) {
    |w| == WORD_LENGTH
  }

  /**
   * The loader's guarantees: every entry has the game's length, and every
   * answer is also a legal guess (it is always legal to guess the answer).
   */
  predicate ValidTables(t: Tables) {
    && (forall i :: 0 <= i < |t.guesses| ==> IsWord(t.guesses[i]))
    && (forall i :: 0 <= i < |t.answers| ==> IsWord(t.answers[i]) && t.answers[i] in t.guesses)
  }

  /** A list of guess indices, all inside the guess table. */
  predicate GuessIndices(t: Tables, gs: seq<nat>) {
    forall i :: 0 <= i < |gs| ==> gs[i] < |t.guesses|
  }

  /** A list of answer indices, all inside the answer table. */
  predicate AnswerIndices(t: Tables, xs: seq<nat>) {
    forall i :: 0 <= i < |xs| ==> xs[i] < |t.answers|
  }

  /**
   * Letter frequencies of a word: exactly the letters that occur, each
   * mapped to its number of occurrences.
   */
  function LetterCounts(w: Word): (counts: map<char, nat>)
    ensures forall c :: c in counts <==> c in multiset(w)
    ensures forall c :: c in counts ==> counts[c] == multiset(w)[c]
  {
    if |w| == 0 then map[]
    else
      var rest := LetterCounts(w[..|w| - 1]);
      var c := w[|w| - 1];
      assert w == w[..|w| - 1] + [c];
      rest[c := if c in rest then rest[c] + 1 else 1]
  }

  /** A counter read the way `counts[c]` reads it: absent letters count 0. */
  function Get(counts: map<char, nat>, c: char): nat {
    if c in counts then counts[c] else 0
  }

  /**
   * Linear search for a word in a table.  The caller must only ask for words
   * the table holds; the result is the first index holding the word.
   */
  function IndexOf(table: seq<Word>, w: Word): (i: nat)
    requires w in table
    ensures i < |table| && table[i] == w
    ensures forall j :: 0 <= j < i ==> table[j] != w
  {
    if table[0] == w then 0 else 1 + IndexOf(table[1..], w)
  }

  /** Index of a guess word. */
  function LookupGuess(t: Tables, w: Word): (i: nat)
    requires w in t.guesses
    ensures i < |t.guesses| && t.guesses[i] == w
    ensures forall j :: 0 <= j < i ==> t.guesses[j] != w
  {
    IndexOf(t.guesses, w)
  }

  /** Index of an answer word. */
  function LookupAnswer(t: Tables, w: Word): (i: nat)
    requires w in t.answers
    ensures i < |t.answers| && t.answers[i] == w
    ensures forall j :: 0 <= j < i ==> t.answers[j] != w
  {
    IndexOf(t.answers, w)
  }

  /** The identity list `0, 1, ..., n-1`, built by the loop that fills it. */
  method Sequence(n: nat) returns (s: seq<nat>)
    ensures |s| == n
    ensures forall i :: 0 <= i < n ==> s[i] == i
  {
    s := [];
    var i := 0;
    while i < n
      invariant i <= n
      invariant |s| == i
      invariant forall k :: 0 <= k < i ==> s[k] == k
    {
      s := s + [i];
      i := i + 1;
    }
  }
}

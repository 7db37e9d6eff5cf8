/**
 * The dense feedback cache of wordle3.cc and wordle2.cc: one cell per
 * (guess, answer) pair at position `guess * |answers| + answer`, holding -1
 * until the pair is first looked up, and two counters for cache hits and
 * misses.  A lookup returns exactly what the uncached computation returns,
 * so filtering through the cache gives the same lists as filtering with a
 * complete table.
 */
module Cache {
  import opened Words
  import opened Feedback
  import opened Codec
  import opened Filter

  /** The value of a cell that has not been computed yet. */
  const UNSET: int := -1

  datatype ColorsCache = ColorsCache(cells: seq<int>, hits: nat, misses: nat)

  /** The cell of a (guess, answer) pair. */
  function Slot(t: Tables, g: nat, a: nat): nat {
    g * |t.answers| + a
  }

  /** Every pair has its own cell, inside the array. */
  lemma SlotInjective(t: Tables, g1: nat, a1: nat, g2: nat, a2: nat)
    requires g1 < |t.guesses| && a1 < |t.answers| && g2 < |t.guesses| && a2 < |t.answers|
    ensures Slot(t, g1, a1) < |t.guesses| * |t.answers|
    ensures Slot(t, g1, a1) == Slot(t, g2, a2) <==> g1 == g2 && a1 == a2
  {
    var n := |t.answers|;
    assert (g1 + 1) * n <= |t.guesses| * n;
    if g1 < g2 {
      assert (g1 + 1) * n <= g2 * n;
    } else if g2 < g1 {
      assert (g2 + 1) * n <= g1 * n;
    }
  }

  /**
   * Every cell of a pair is either unset or holds that pair's entry of the
   * complete table `codes`; entries are never negative, so no code is
   * mistaken for the sentinel.
   */
  predicate Valid(t: Tables, codes: seq<seq<nat>>, c: ColorsCache) {
    && Fits(t, codes)
    && |c.cells| == |t.guesses| * |t.answers|
    && forall g, a :: 0 <= g < |t.guesses| && 0 <= a < |t.answers| ==>
         Slot(t, g, a) < |c.cells| && (c.cells[Slot(t, g, a)] == UNSET || c.cells[Slot(t, g, a)] == codes[g][a])
  }

  /** The cache as the table set-up leaves it: every cell unset, no hits, no misses. */
  function InitialCache(t: Tables, codes: seq<seq<nat>>): (c: ColorsCache)
    requires Fits(t, codes)
    ensures Valid(t, codes, c)
    ensures |c.cells| == |t.guesses| * |t.answers| && forall i :: 0 <= i < |c.cells| ==> c.cells[i] == UNSET
    ensures c.hits == 0 && c.misses == 0
  {
    var c := ColorsCache(seq(|t.guesses| * |t.answers|, _ => UNSET), 0, 0);
    forall g, a | 0 <= g < |t.guesses| && 0 <= a < |t.answers|
      ensures Slot(t, g, a) < |c.cells|
    {
      SlotInjective(t, g, a, g, a);
    }
    c
  }

  /** Writing a pair's own code into its cell keeps every cell correct. */
  lemma StoreKeepsValid(t: Tables, codes: seq<seq<nat>>, c: ColorsCache, g: nat, a: nat)
    requires Valid(t, codes, c) && g < |t.guesses| && a < |t.answers|
    ensures Slot(t, g, a) < |c.cells|
    ensures Valid(t, codes, c.(cells := c.cells[Slot(t, g, a) := codes[g][a]]))
  {
    var cells := c.cells[Slot(t, g, a) := codes[g][a]];
    forall g2, a2 | 0 <= g2 < |t.guesses| && 0 <= a2 < |t.answers|
      ensures cells[Slot(t, g2, a2)] == UNSET || cells[Slot(t, g2, a2)] == codes[g2][a2]
    {
      SlotInjective(t, g, a, g2, a2);
    }
  }

  /**
   * `get_colors` with the cache: a set cell is returned and counted as a
   * hit; otherwise the colouring pass runs, its pattern is packed, stored
   * in the cell and counted as a miss.  Either way the answer is the
   * uncached code and only the pair's own cell can change.
   */
  method GetColors(t: Tables, p: Packing, codes: seq<seq<nat>>, c: ColorsCache, g: nat, a: nat) returns (code: nat, next: ColorsCache)
    requires Faithful(t, p, codes) && Valid(t, codes, c) && g < |t.guesses| && a < |t.answers|
    ensures code == Code(t, p, g, a) && code == codes[g][a]
    ensures Slot(t, g, a) < |c.cells| && next.cells == c.cells[Slot(t, g, a) := code]
    ensures next.hits + next.misses == c.hits + c.misses + 1
    ensures c.cells[Slot(t, g, a)] >= 0 ==> next.hits == c.hits + 1
    ensures c.cells[Slot(t, g, a)] < 0 ==> next.misses == c.misses + 1
    ensures Valid(t, codes, next)
  {
    FaithfulAt(t, p, codes, g, a);
    SlotInjective(t, g, a, g, a);
    var slot := Slot(t, g, a);
    if c.cells[slot] >= 0 {
      code := c.cells[slot];
      next := c.(hits := c.hits + 1);
      assert c.cells[slot := code] == c.cells;
    } else {
      var colors := ComputeColors(t.guesses[g], t.answers[a]);
      ColorsAreFeedback(t.guesses[g], t.answers[a]);
      code := ColorsIndex(p, colors);
      StoreKeepsValid(t, codes, c, g, a);
      next := ColorsCache(c.cells[slot := code], c.hits, c.misses + 1);
    }
  }

  /** A single entry of a faithful table. */
  lemma FaithfulAt(t: Tables, p: Packing, codes: seq<seq<nat>>, g: nat, a: nat)
    requires Faithful(t, p, codes) && g < |t.guesses| && a < |t.answers|
    ensures codes[g][a] == Code(t, p, g, a)
  {
  }

  /**
   * `possible_answer` through the cache: outcomes are checked in order and
   * the first mismatch stops the loop.  The verdict is the one the complete
   * table gives, and every lookup is counted once.
   */
  method PossibleAnswerCached(t: Tables, p: Packing, codes: seq<seq<nat>>, c: ColorsCache, word: nat, outcomes: seq<Outcome>)
    returns (ok: bool, next: ColorsCache)
    requires Faithful(t, p, codes) && Valid(t, codes, c) && word < |t.answers| && OutcomesFor(t, outcomes)
    ensures ok == PossibleAnswer(t, codes, word, outcomes)
    ensures Valid(t, codes, next)
    ensures c.hits + c.misses <= next.hits + next.misses <= c.hits + c.misses + |outcomes|
  {
    next := c;
    var i := 0;
    while i < |outcomes|
      invariant i <= |outcomes|
      invariant Valid(t, codes, next)
      invariant c.hits + c.misses + i == next.hits + next.misses
      invariant PossibleAnswer(t, codes, word, outcomes) == PossibleAnswer(t, codes, word, outcomes[i..])
    {
      var code;
      code, next := GetColors(t, p, codes, next, outcomes[i].guess, word);
      assert outcomes[i..][1..] == outcomes[i + 1..];
      if code != outcomes[i].colors {
        return false, next;
      }
      i := i + 1;
    }
    ok := true;
  }

  /** `filter_answers` through the cache keeps the same answers, in the same order, as the pure filter. */
  method FilterAnswersCached(t: Tables, p: Packing, codes: seq<seq<nat>>, c: ColorsCache, answers: seq<nat>, outcomes: seq<Outcome>)
    returns (filtered: seq<nat>, next: ColorsCache)
    requires Faithful(t, p, codes) && Valid(t, codes, c) && AnswerIndices(t, answers) && OutcomesFor(t, outcomes)
    ensures filtered == FilterAnswers(t, codes, answers, outcomes)
    ensures Valid(t, codes, next)
  {
    filtered := [];
    next := c;
    var i := 0;
    while i < |answers|
      invariant i <= |answers|
      invariant Valid(t, codes, next)
      invariant AnswerIndices(t, answers[..i])
      invariant filtered == FilterAnswers(t, codes, answers[..i], outcomes)
    {
      var ok;
      ok, next := PossibleAnswerCached(t, p, codes, next, answers[i], outcomes);
      FilterSnoc(t, codes, answers, outcomes, i);
      if ok {
        filtered := filtered + [answers[i]];
      }
      i := i + 1;
    }
    assert answers[..|answers|] == answers;
  }

  /** Filtering one more answer of the list appends it exactly when it is possible. */
  lemma FilterSnoc(t: Tables, codes: seq<seq<nat>>, answers: seq<nat>, outcomes: seq<Outcome>, i: nat)
    requires Fits(t, codes) && AnswerIndices(t, answers) && OutcomesFor(t, outcomes) && i < |answers|
    ensures AnswerIndices(t, answers[..i]) && AnswerIndices(t, answers[..i + 1])
    ensures FilterAnswers(t, codes, answers[..i + 1], outcomes)
         == FilterAnswers(t, codes, answers[..i], outcomes)
            + (if PossibleAnswer(t, codes, answers[i], outcomes) then [answers[i]] else [])
  {
    assert answers[..i + 1][..i] == answers[..i];
  }
}

/**
 * Pieces shared by the searches of the index-based variants (wordle3.cc,
 * wordle2.cc and gordle4.go): the recursion measure, the precondition on
 * the tables, and the ranking steps specialised to guess indices.
 */
module Search {
  import opened Words
  import opened Codec
  import opened Ranking

  /** Levels left before the horizon; the mutual recursion decreases it. */
  function Gap(depth: nat, maxDepth: nat): nat {
    if depth < maxDepth then maxDepth - depth else 0
  }

  /** The tables and lists every search function works on. */
  predicate Env(t: Tables, codes: seq<seq<nat>>, pool: seq<nat>, answers: seq<nat>) {
    ValidTables(t) && Fits(t, codes) && GuessIndices(t, pool) && AnswerIndices(t, answers)
  }

  /** Every entry names a guess of the table and has a non-negative score. */
  predicate ScoredIndices(t: Tables, s: seq<Scored<nat>>) {
    forall k :: 0 <= k < |s| ==> s[k].guess < |t.guesses| && s[k].score >= 0.0
  }

  /** Entries drawn from a list of table guesses with non-negative scores are such entries too. */
  lemma ScoredMembers(t: Tables, s: seq<Scored<nat>>, r: seq<Scored<nat>>)
    requires ScoredIndices(t, s) && forall k :: 0 <= k < |r| ==> r[k] in s
    ensures ScoredIndices(t, r)
  {
    forall k | 0 <= k < |r|
      ensures r[k].guess < |t.guesses| && r[k].score >= 0.0
    {
      var i :| 0 <= i < |s| && s[i] == r[k];
    }
  }

  /** A shortlist sorted best first, still naming guesses of the table. */
  function Ranked(t: Tables, d: Direction, kept: seq<Scored<nat>>): (sorted: seq<Scored<nat>>)
    requires ScoredIndices(t, kept)
    ensures ScoredIndices(t, sorted) && Sorted(d, sorted) && multiset(sorted) == multiset(kept)
    ensures |sorted| == |kept| && sorted == Sort(d, kept)
  {
    SortMembers(d, kept);
    var sorted := Sort(d, kept);
    assert forall k :: 0 <= k < |sorted| ==> sorted[k] in kept;
    sorted
  }

  /** The guesses of at most the first `limit` entries. */
  function TopGuesses(t: Tables, sorted: seq<Scored<nat>>, limit: nat): (cands: seq<nat>)
    requires ScoredIndices(t, sorted)
    ensures GuessIndices(t, cands) && |cands| <= limit && |cands| <= |sorted|
    ensures forall k :: 0 <= k < |cands| ==> cands[k] == sorted[k].guess
  {
    GuessesOf(Take(sorted, limit))
  }

  /** The guesses of a shortlist, as the next level's pool. */
  function Worthwhile(t: Tables, kept: seq<Scored<nat>>): (gs: seq<nat>)
    requires ScoredIndices(t, kept)
    ensures GuessIndices(t, gs) && |gs| == |kept|
    ensures forall k :: 0 <= k < |gs| ==> gs[k] == kept[k].guess
  {
    GuessesOf(kept)
  }

  lemma NonNegativeProduct(x: real, y: real)
    requires x >= 0.0 && y >= 0.0
    ensures x * y >= 0.0
  {
  }

  /** Adding a non-negative amount to what is weighted by a non-negative factor cannot lower the product. */
  lemma WeightedGain(w: real, x: real, extra: real)
    requires w >= 0.0 && extra >= 0.0
    ensures w * (x + extra) >= w * x
  {
    NonNegativeProduct(w, extra);
    assert w * (x + extra) == w * x + w * extra;
  }

  /** c/n · c is c²/n. */
  lemma WeightedSquare(c: nat, n: nat)
    requires n > 0
    ensures (c as real / n as real) * (c as real) == ((c * c) as real) / (n as real)
  {
    var cr := c as real;
    var nr := n as real;
    assert (c * c) as real == cr * cr;
    assert (cr / nr) * cr == (cr * cr) / nr;
  }

  /** A value that is c/n · c is c²/n. */
  lemma SquareShare(c: nat, n: nat, v: real)
    requires n > 0 && v == (c as real / n as real) * (c as real)
    ensures v == ((c * c) as real) / (n as real)
  {
    WeightedSquare(c, n);
  }

  /** A count of at most n² items spread over n answers is at most n per answer. */
  lemma RatioBound(x: nat, n: nat)
    requires n > 0 && x <= n * n
    ensures (x as real) / (n as real) <= n as real
  {
    var nr := n as real;
    assert (x as real) <= nr * nr;
    assert (x as real) / nr <= (nr * nr) / nr;
  }

  /** Fractions over the same count add up by their numerators. */
  lemma AddRatios(x: nat, y: nat, n: nat)
    requires n > 0
    ensures (x as real) / (n as real) + (y as real) / (n as real) == ((x + y) as real) / (n as real)
  {
  }

  /** A count of at least n items spread over n answers is at least one per answer. */
  lemma RatioAtLeastOne(x: nat, n: nat)
    requires 0 < n <= x
    ensures 1.0 <= (x as real) / (n as real)
  {
  }

  /** c/n · (n − c) is c − c²/n. */
  lemma EliminatedShare(c: nat, n: nat)
    requires n > 0
    ensures (c as real / n as real) * (n as real - c as real) == c as real - ((c * c) as real) / (n as real)
  {
    WeightedSquare(c, n);
  }

  /** The share c/n · x of an amount x credited to a group of c out of n answers. */
  function Weighted(c: nat, n: nat, x: real): real
    requires n > 0
  {
    (c as real / n as real) * x
  }

  /** c − c²/n: a group of c out of n answers credited the n − c answers it eliminates. */
  function EliminationShare(c: nat, n: nat): real
    requires n > 0
  {
    c as real - ((c * c) as real) / (n as real)
  }

  /** A value that credits a group of c out of n answers exactly the n − c answers it eliminates is c − c²/n. */
  lemma EliminatedValue(c: nat, n: nat, v: real)
    requires n > 0 && v == Weighted(c, n, n as real - c as real)
    ensures v == EliminationShare(c, n)
  {
    EliminatedShare(c, n);
  }

  /**
   * A group of c out of n answers that is credited at least the n − c
   * answers it eliminates contributes at least c − c²/n, and nothing
   * negative.
   */
  lemma ShareAtLeastEliminated(c: nat, n: nat, total: real)
    requires 0 < n && c <= n && total >= n as real - c as real
    ensures Weighted(c, n, total) >= EliminationShare(c, n) >= 0.0
  {
    var prob := c as real / n as real;
    var eliminated := n as real - c as real;
    WeightedGain(prob, eliminated, total - eliminated);
    assert eliminated + (total - eliminated) == total;
    EliminatedShare(c, n);
    NonNegativeProduct(prob, eliminated);
  }

  /** Two shares k·x/n and k·y/n of the same count add up to k·(x + y)/n. */
  lemma AddShares(k: int, x: nat, y: nat, n: nat, a: real, b: real)
    requires n > 0 && a == ((k * x) as real) / (n as real) && b == ((k * y) as real) / (n as real)
    ensures a + b == ((k * (x + y)) as real) / (n as real)
  {
    assert k * (x + y) == k * x + k * y;
  }

  /** c/n · k is k·c/n. */
  lemma ScaledShare(c: nat, n: nat, k: int)
    requires n > 0
    ensures (c as real / n as real) * (k as real) == ((k * c) as real) / (n as real)
  {
    assert (k * c) as real == (k as real) * (c as real);
  }
}

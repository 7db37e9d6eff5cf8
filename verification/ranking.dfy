/**
 * The ranking steps of `best_guess`, independent of what a guess is: the
 * shallow-score shortlist, the sort of the shortlist by score, and the
 * running "best so far" over the re-scored candidates.
 *
 * The program sorts with an unstable library sort; the model uses a stable
 * insertion sort, and every property stated about it holds for any sort
 * (the result is ordered and is a permutation of the input).
 */
module Ranking {
  import opened Wrappers

  /** A guess with its score. */
  datatype Scored<G> = Scored(guess: G, score: real)

  /** Which end of the score scale is better. */
  datatype Direction = Minimize | Maximize

  /** `x` may come before `y` in the sorted shortlist. */
  predicate Before(d: Direction, x: real, y: real) {
    match d
    case Minimize => x <= y
    case Maximize => x >= y
  }

  /** `x` is strictly better than `y`. */
  predicate Better(d: Direction, x: real, y: real) {
    match d
    case Minimize => x < y
    case Maximize => x > y
  }

  predicate Sorted<G>(d: Direction, s: seq<Scored<G>>) {
    forall i, j :: 0 <= i < j < |s| ==> Before(d, s[i].score, s[j].score)
  }

  /** Places `x` in front of the first entry it may precede. */
  function Insert<G(==)>(d: Direction, x: Scored<G>, s: seq<Scored<G>>): (r: seq<Scored<G>>)
    requires Sorted(d, s)
    ensures Sorted(d, r)
    ensures multiset(r) == multiset(s) + multiset{x}
    ensures |r| == |s| + 1
  {
    if |s| == 0 then [x]
    else if Before(d, x.score, s[0].score) then [x] + s
    else
      var rest := Insert(d, x, s[1..]);
      assert multiset(s) == multiset{s[0]} + multiset(s[1..]) by { assert s == [s[0]] + s[1..]; }
      assert forall k :: 0 <= k < |rest| ==> Before(d, s[0].score, rest[k].score) by {
        forall k | 0 <= k < |rest|
          ensures Before(d, s[0].score, rest[k].score)
        {
          assert rest[k] in multiset(rest);
          assert rest[k] == x || rest[k] in multiset(s[1..]);
          if rest[k] != x {
            var j :| 0 <= j < |s[1..]| && s[1..][j] == rest[k];
            assert s[j + 1] == rest[k];
          }
        }
      }
      [s[0]] + rest
  }

  /** The shortlist ordered by score, best first. */
  function Sort<G(==)>(d: Direction, s: seq<Scored<G>>): (r: seq<Scored<G>>)
    ensures Sorted(d, r)
    ensures multiset(r) == multiset(s)
    ensures |r| == |s|
  {
    if |s| == 0 then []
    else
      assert s == [s[0]] + s[1..];
      Insert(d, s[0], Sort(d, s[1..]))
  }

  /**
   * The head of the sorted list is an entry of the input, and no entry of
   * the input is strictly better.
   */
  lemma SortHeadIsBest<G>(d: Direction, s: seq<Scored<G>>)
    requires |s| > 0
    ensures Sort(d, s)[0] in s
    ensures forall i :: 0 <= i < |s| ==> Before(d, Sort(d, s)[0].score, s[i].score)
  {
    var r := Sort(d, s);
    assert r[0] in multiset(r);
    forall i | 0 <= i < |s|
      ensures Before(d, r[0].score, s[i].score)
    {
      assert s[i] in multiset(r);
      var j :| 0 <= j < |r| && r[j] == s[i];
      if j > 0 {
        assert Before(d, r[0].score, r[j].score);
      }
    }
  }

  /** Every entry of the sorted list is an entry of the input. */
  lemma SortMembers<G>(d: Direction, s: seq<Scored<G>>)
    ensures forall k :: 0 <= k < |Sort(d, s)| ==> Sort(d, s)[k] in s
  {
    var r := Sort(d, s);
    forall k | 0 <= k < |r| ensures r[k] in s {
      assert r[k] in multiset(r);
    }
  }

  /** The entries scoring strictly below `threshold`, in order. */
  function KeepBelow<G>(s: seq<Scored<G>>, threshold: real): (r: seq<Scored<G>>)
    ensures |r| <= |s|
    ensures forall k :: 0 <= k < |r| ==> r[k].score < threshold
  {
    if |s| == 0 then []
    else
      var n := |s| - 1;
      KeepBelow(s[..n], threshold) + (if s[n].score < threshold then [s[n]] else [])
  }

  /** The entries scoring strictly above `threshold`, in order. */
  function KeepAbove<G>(s: seq<Scored<G>>, threshold: real): (r: seq<Scored<G>>)
    ensures |r| <= |s|
    ensures forall k :: 0 <= k < |r| ==> r[k].score > threshold
  {
    if |s| == 0 then []
    else
      var n := |s| - 1;
      KeepAbove(s[..n], threshold) + (if s[n].score > threshold then [s[n]] else [])
  }

  /** `KeepBelow` loses nothing that qualifies: every entry scoring below the threshold is kept. */
  lemma {:induction false} KeepBelowComplete<G>(s: seq<Scored<G>>, threshold: real)
    ensures forall x :: x in KeepBelow(s, threshold) <==> x in s && x.score < threshold
  {
    if |s| > 0 {
      var n := |s| - 1;
      KeepBelowComplete(s[..n], threshold);
      assert s == s[..n] + [s[n]];
    }
  }

  /** `KeepAbove` loses nothing that qualifies: every entry scoring above the threshold is kept. */
  lemma {:induction false} KeepAboveComplete<G>(s: seq<Scored<G>>, threshold: real)
    ensures forall x :: x in KeepAbove(s, threshold) <==> x in s && x.score > threshold
  {
    if |s| > 0 {
      var n := |s| - 1;
      KeepAboveComplete(s[..n], threshold);
      assert s == s[..n] + [s[n]];
    }
  }

  /**
   * The minimising shortlist: an entry is kept when nothing has been kept
   * yet or when it scores below the threshold, so the first entry is always
   * kept.
   */
  function ShortlistFirstOrBelow<G>(s: seq<Scored<G>>, threshold: real): (r: seq<Scored<G>>)
    ensures |r| <= |s|
    ensures |s| > 0 ==> |r| > 0 && r[0] == s[0]
    ensures forall k :: 0 <= k < |r| ==> r[k] in s
  {
    if |s| == 0 then []
    else
      var n := |s| - 1;
      var kept := ShortlistFirstOrBelow(s[..n], threshold);
      if |kept| == 0 || s[n].score < threshold then kept + [s[n]] else kept
  }

  /** The minimising shortlist is the first entry followed by the later entries below the threshold. */
  lemma {:induction false} ShortlistFirstOrBelowIs<G>(s: seq<Scored<G>>, threshold: real)
    requires |s| > 0
    ensures ShortlistFirstOrBelow(s, threshold) == [s[0]] + KeepBelow(s[1..], threshold)
  {
    var n := |s| - 1;
    if n > 0 {
      ShortlistFirstOrBelowIs(s[..n], threshold);
      assert s[..n][1..] == s[1..][..n - 1];
      assert s[1..][n - 1] == s[n];
    }
  }

  /**
   * The minimising shortlist keeps the first entry and then exactly the
   * later entries scoring below the threshold.
   */
  lemma ShortlistFirstOrBelowKeeps<G>(s: seq<Scored<G>>, threshold: real)
    requires |s| > 0
    ensures var r := ShortlistFirstOrBelow(s, threshold);
      && |r| > 0 && r[0] == s[0]
      && forall x :: x in r[1..] <==> x in s[1..] && x.score < threshold
  {
    ShortlistFirstOrBelowIs(s, threshold);
    KeepBelowComplete(s[1..], threshold);
    assert ShortlistFirstOrBelow(s, threshold)[1..] == KeepBelow(s[1..], threshold);
  }

  /** The guesses of a scored list, in order. */
  function GuessesOf<G>(s: seq<Scored<G>>): (gs: seq<G>)
    ensures |gs| == |s| && forall k :: 0 <= k < |s| ==> gs[k] == s[k].guess
  {
    seq(|s|, k requires 0 <= k < |s| => s[k].guess)
  }

  /** At most the first `limit` entries. */
  function Take<T>(s: seq<T>, limit: nat): (r: seq<T>)
    ensures |r| <= limit && |r| <= |s|
    ensures forall k :: 0 <= k < |r| ==> r[k] == s[k]
  {
    if |s| <= limit then s else s[..limit]
  }

  /** Taking from a non-empty list takes its head and then from its tail. */
  lemma TakeCons<T>(s: seq<T>, limit: nat)
    requires |s| > 0 && limit > 0
    ensures Take(s, limit) == [s[0]] + Take(s[1..], limit - 1)
  {
    if |s| > limit {
      assert s[..limit] == [s[0]] + s[1..][..limit - 1];
    } else {
      assert s == [s[0]] + s[1..];
    }
  }

  /** The choice made so far: the guess (none before any was chosen) and its score. */
  datatype Pick<G> = Pick(guess: Option<G>, score: real)

  /**
   * The re-scoring loop: starting from `init`, a candidate replaces the
   * current pick only when its score is strictly better, so the earliest of
   * equally good candidates wins.
   */
  function FirstBest<G>(d: Direction, cands: seq<Scored<G>>, init: Pick<G>): (r: Pick<G>)
  {
    if |cands| == 0 then init
    else
      var n := |cands| - 1;
      var prev := FirstBest(d, cands[..n], init);
      if Better(d, cands[n].score, prev.score) then Pick(Some(cands[n].guess), cands[n].score) else prev
  }

  /**
   * `r` is what the running choice over `cands` ends with when it starts
   * from `init`: it is `init` exactly when no candidate beats it; otherwise
   * it is the first candidate with the best score: strictly better than
   * `init` and every earlier candidate, and no worse than any later one.
   */
  predicate IsFirstBest<G(==)>(d: Direction, cands: seq<Scored<G>>, init: Pick<G>, r: Pick<G>) {
    && Before(d, r.score, init.score)
    && (forall j :: 0 <= j < |cands| ==> Before(d, r.score, cands[j].score))
    && (r == init <==> forall j :: 0 <= j < |cands| ==> !Better(d, cands[j].score, init.score))
    && (r != init ==>
          exists i :: 0 <= i < |cands| && r == Pick(Some(cands[i].guess), cands[i].score)
            && Better(d, cands[i].score, init.score)
            && forall j :: 0 <= j < i ==> Better(d, cands[i].score, cands[j].score))
  }

  /** The re-scoring loop ends with the first best candidate, or with `init` when none beats it. */
  lemma {:induction false} FirstBestIsFirstExtremum<G>(d: Direction, cands: seq<Scored<G>>, init: Pick<G>)
    ensures IsFirstBest(d, cands, init, FirstBest(d, cands, init))
  {
    if |cands| > 0 {
      var n := |cands| - 1;
      var prev := FirstBest(d, cands[..n], init);
      FirstBestIsFirstExtremum(d, cands[..n], init);
      var r := FirstBest(d, cands, init);
      assert forall j :: 0 <= j < n ==> cands[..n][j] == cands[j];
      if Better(d, cands[n].score, prev.score) {
        assert r == Pick(Some(cands[n].guess), cands[n].score);
        assert forall j :: 0 <= j < n ==> Better(d, cands[n].score, cands[j].score);
      } else {
        if prev != init {
          var i :| 0 <= i < n && prev == Pick(Some(cands[..n][i].guess), cands[..n][i].score)
              && Better(d, cands[..n][i].score, init.score)
              && forall j :: 0 <= j < i ==> Better(d, cands[..n][i].score, cands[..n][j].score);
          assert r == Pick(Some(cands[i].guess), cands[i].score);
        }
      }
    }
  }
}

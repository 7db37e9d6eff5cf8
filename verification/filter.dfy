/**
 * Candidate filtering on word indices (wordle3.cc, wordle2.cc and
 * gordle4.go): an answer is still possible when every recorded outcome is
 * the feedback its guess would have produced against that answer.
 *
 * The feedback is read from a table `codes` with `codes[g][a]` the packed
 * feedback of guess `g` against answer `a`.  Nothing here depends on how
 * the table was filled; `Codec.Faithful` states that it holds `Code`, and
 * the cache module shows the cached lookup returns exactly those values.
 */
module Filter {
  import opened Words
  import opened Feedback
  import opened Codec
  import opened Partition

  /** One recorded fact: guess index and packed feedback. */
  datatype Outcome = Outcome(guess: nat, colors: int)

  predicate OutcomesFor(t: Tables, outcomes: seq<Outcome>) {
    forall i :: 0 <= i < |outcomes| ==> outcomes[i].guess < |t.guesses|
  }

  /** The outcome for a guess word and a pattern string (`make_outcome`). */
  function MakeOutcome(t: Tables, guess: Word, colors: string): (o: Outcome)
    requires guess in t.guesses && WellFormed(colors)
    ensures o.guess < |t.guesses| && t.guesses[o.guess] == guess
    ensures Decode(o.colors) == colors
  {
    Outcome(LookupGuess(t, guess), Encode(colors))
  }

  /** Outcomes are checked in order and the first mismatch rejects the word. */
  function PossibleAnswer(t: Tables, codes: seq<seq<nat>>, word: nat, outcomes: seq<Outcome>): bool
    requires Fits(t, codes) && word < |t.answers| && OutcomesFor(t, outcomes)
  {
    if |outcomes| == 0 then true
    else if codes[outcomes[0].guess][word] != outcomes[0].colors then false
    else PossibleAnswer(t, codes, word, outcomes[1..])
  }

  /** A word is possible exactly when every outcome is the feedback its guess gives against the word. */
  lemma {:induction false} PossibleAnswerAll(t: Tables, codes: seq<seq<nat>>, word: nat, outcomes: seq<Outcome>)
    requires Fits(t, codes) && word < |t.answers| && OutcomesFor(t, outcomes)
    ensures PossibleAnswer(t, codes, word, outcomes)
        <==> forall i :: 0 <= i < |outcomes| ==> codes[outcomes[i].guess][word] == outcomes[i].colors
  {
    if |outcomes| > 0 {
      PossibleAnswerAll(t, codes, word, outcomes[1..]);
      assert forall i :: 1 <= i < |outcomes| ==> outcomes[1..][i - 1] == outcomes[i];
    }
  }

  /** The answers, in their original order, that are possible under all outcomes. */
  function FilterAnswers(t: Tables, codes: seq<seq<nat>>, answers: seq<nat>, outcomes: seq<Outcome>): (r: seq<nat>)
    requires Fits(t, codes) && AnswerIndices(t, answers) && OutcomesFor(t, outcomes)
    ensures |r| <= |answers| && AnswerIndices(t, r)
  {
    if |answers| == 0 then []
    else
      var n := |answers| - 1;
      FilterAnswers(t, codes, answers[..n], outcomes)
        + (if PossibleAnswer(t, codes, answers[n], outcomes) then [answers[n]] else [])
  }

  /** The filter keeps exactly the possible answers. */
  lemma {:induction false} FilterKeepsExactly(t: Tables, codes: seq<seq<nat>>, answers: seq<nat>, outcomes: seq<Outcome>)
    requires Fits(t, codes) && AnswerIndices(t, answers) && OutcomesFor(t, outcomes)
    ensures forall x :: x in FilterAnswers(t, codes, answers, outcomes) <==> x in answers && PossibleAnswer(t, codes, x, outcomes)
  {
    if |answers| > 0 {
      var n := |answers| - 1;
      FilterKeepsExactly(t, codes, answers[..n], outcomes);
      assert answers == answers[..n] + [answers[n]];
    }
  }

  /** Filtering keeps the original order: it distributes over concatenation. */
  lemma {:induction false} FilterConcat(t: Tables, codes: seq<seq<nat>>, xs: seq<nat>, ys: seq<nat>, outcomes: seq<Outcome>)
    requires Fits(t, codes) && AnswerIndices(t, xs) && AnswerIndices(t, ys) && OutcomesFor(t, outcomes)
    ensures AnswerIndices(t, xs + ys)
    ensures FilterAnswers(t, codes, xs + ys, outcomes) == FilterAnswers(t, codes, xs, outcomes) + FilterAnswers(t, codes, ys, outcomes)
    decreases |ys|
  {
    var zs := xs + ys;
    assert AnswerIndices(t, zs) by {
      forall i | 0 <= i < |zs| ensures zs[i] < |t.answers| {
        if i >= |xs| { assert zs[i] == ys[i - |xs|]; }
      }
    }
    if |ys| == 0 {
      assert zs == xs;
    } else {
      var n := |ys| - 1;
      var m := |zs| - 1;
      assert zs[..m] == xs + ys[..n];
      assert zs[m] == ys[n];
      FilterConcat(t, codes, xs, ys[..n], outcomes);
      var tail := if PossibleAnswer(t, codes, ys[n], outcomes) then [ys[n]] else [];
      assert FilterAnswers(t, codes, zs, outcomes) == FilterAnswers(t, codes, zs[..m], outcomes) + tail;
      assert FilterAnswers(t, codes, ys, outcomes) == FilterAnswers(t, codes, ys[..n], outcomes) + tail;
    }
  }

  /** No outcomes rule nothing out, and a concatenation of outcome lists is the conjunction of its parts. */
  lemma PossibleAnswerAppend(t: Tables, codes: seq<seq<nat>>, word: nat, o1: seq<Outcome>, o2: seq<Outcome>)
    requires Fits(t, codes) && word < |t.answers| && OutcomesFor(t, o1) && OutcomesFor(t, o2)
    ensures OutcomesFor(t, o1 + o2)
    ensures PossibleAnswer(t, codes, word, [])
    ensures PossibleAnswer(t, codes, word, o1 + o2) <==> PossibleAnswer(t, codes, word, o1) && PossibleAnswer(t, codes, word, o2)
  {
    var o := o1 + o2;
    assert forall i :: 0 <= i < |o1| ==> o[i] == o1[i];
    assert forall i :: 0 <= i < |o2| ==> o[|o1| + i] == o2[i];
    PossibleAnswerAll(t, codes, word, o);
    PossibleAnswerAll(t, codes, word, o1);
    PossibleAnswerAll(t, codes, word, o2);
  }

  /** A single answer is kept exactly when it is possible. */
  lemma FilterSingle(t: Tables, codes: seq<seq<nat>>, a: nat, outcomes: seq<Outcome>)
    requires Fits(t, codes) && a < |t.answers| && OutcomesFor(t, outcomes)
    ensures AnswerIndices(t, [a])
    ensures FilterAnswers(t, codes, [a], outcomes) == if PossibleAnswer(t, codes, a, outcomes) then [a] else []
  {
    assert [a][..0] == [];
  }

  /**
   * Filtering by more outcomes is filtering the earlier result again, so
   * adding outcomes never enlarges the candidate list.
   */
  lemma {:induction false} FilterRefines(t: Tables, codes: seq<seq<nat>>, answers: seq<nat>, o1: seq<Outcome>, o2: seq<Outcome>)
    requires Fits(t, codes) && AnswerIndices(t, answers) && OutcomesFor(t, o1) && OutcomesFor(t, o2)
    ensures OutcomesFor(t, o1 + o2)
    ensures FilterAnswers(t, codes, answers, o1 + o2) == FilterAnswers(t, codes, FilterAnswers(t, codes, answers, o1), o2)
    ensures |FilterAnswers(t, codes, answers, o1 + o2)| <= |FilterAnswers(t, codes, answers, o1)|
    decreases |answers|
  {
    assert OutcomesFor(t, o1 + o2);
    if |answers| > 0 {
      var n := |answers| - 1;
      var a := answers[n];
      FilterRefines(t, codes, answers[..n], o1, o2);
      PossibleAnswerAppend(t, codes, a, o1, o2);
      var f1 := FilterAnswers(t, codes, answers[..n], o1);
      if PossibleAnswer(t, codes, a, o1) {
        assert FilterAnswers(t, codes, answers, o1) == f1 + [a];
        FilterConcat(t, codes, f1, [a], o2);
        FilterSingle(t, codes, a, o2);
        assert FilterAnswers(t, codes, answers, o1 + o2)
          == FilterAnswers(t, codes, answers[..n], o1 + o2) + (if PossibleAnswer(t, codes, a, o2) then [a] else []);
      } else {
        assert FilterAnswers(t, codes, answers, o1) == f1;
        assert FilterAnswers(t, codes, answers, o1 + o2) == FilterAnswers(t, codes, answers[..n], o1 + o2);
      }
    }
  }

  /** An answer always survives the outcome its own feedback produces. */
  lemma SelfConsistent(t: Tables, codes: seq<seq<nat>>, g: nat, answers: seq<nat>, i: nat)
    requires Fits(t, codes) && g < |t.guesses| && AnswerIndices(t, answers) && i < |answers|
    ensures answers[i] in FilterAnswers(t, codes, answers, [Outcome(g, codes[g][answers[i]])])
  {
    var o := [Outcome(g, codes[g][answers[i]])];
    assert o[1..] == [];
    assert PossibleAnswer(t, codes, answers[i], o);
    FilterKeepsExactly(t, codes, answers, o);
  }

  /** The feedback of guess `g` against each answer of a list, read from the table. */
  function CodesOf(t: Tables, codes: seq<seq<nat>>, g: nat, answers: seq<nat>): (cs: seq<nat>)
    requires Fits(t, codes) && g < |t.guesses| && AnswerIndices(t, answers)
    ensures |cs| == |answers|
    ensures forall i :: 0 <= i < |answers| ==> cs[i] == codes[g][answers[i]]
  {
    seq(|answers|, i requires 0 <= i < |answers| => codes[g][answers[i]])
  }

  /** The answers grouped by the feedback guess `g` produces against them. */
  function Buckets(t: Tables, codes: seq<seq<nat>>, g: nat, answers: seq<nat>): seq<Bucket<nat, nat>>
    requires Fits(t, codes) && g < |t.guesses| && AnswerIndices(t, answers)
  {
    Group(answers, CodesOf(t, codes, g, answers))
  }

  /** The answers with feedback `c` are exactly those `filter_answers` keeps for the outcome (g, c). */
  lemma {:induction false} SelectIsFilter(t: Tables, codes: seq<seq<nat>>, g: nat, answers: seq<nat>, c: nat)
    requires Fits(t, codes) && g < |t.guesses| && AnswerIndices(t, answers)
    ensures Select(answers, CodesOf(t, codes, g, answers), c) == FilterAnswers(t, codes, answers, [Outcome(g, c)])
  {
    if |answers| > 0 {
      var n := |answers| - 1;
      var o := [Outcome(g, c)];
      assert CodesOf(t, codes, g, answers)[..n] == CodesOf(t, codes, g, answers[..n]);
      assert o[1..] == [];
      assert PossibleAnswer(t, codes, answers[n], o) <==> codes[g][answers[n]] == c;
      SelectIsFilter(t, codes, g, answers[..n], c);
    }
  }

  /**
   * Every group of the partition is the filtered answer list for its own
   * outcome, and it is never empty; together the groups hold every answer.
   */
  lemma BucketIsFilter(t: Tables, codes: seq<seq<nat>>, g: nat, answers: seq<nat>, i: nat)
    requires Fits(t, codes) && g < |t.guesses| && AnswerIndices(t, answers)
    requires i < |Buckets(t, codes, g, answers)|
    ensures var b := Buckets(t, codes, g, answers)[i];
      b.members == FilterAnswers(t, codes, answers, [Outcome(g, b.key)]) && |b.members| > 0
    ensures Size(Buckets(t, codes, g, answers)) == |answers|
  {
    var cs := CodesOf(t, codes, g, answers);
    var bs := Group(answers, cs);
    assert Buckets(t, codes, g, answers) == bs;
    GroupMembers(answers, cs, i);
    assert bs[i].members == Select(answers, cs, bs[i].key);
    SelectIsFilter(t, codes, g, answers, bs[i].key);
    assert bs[i].members == FilterAnswers(t, codes, answers, [Outcome(g, bs[i].key)]);
    assert |bs[i].members| > 0;
  }

  /**
   * A list of groups for guess `g` in which every group is non-empty and is
   * exactly what `filter_answers` keeps for the outcome (g, key).
   */
  predicate GroupedBy(t: Tables, codes: seq<seq<nat>>, g: nat, answers: seq<nat>, bs: seq<Bucket<nat, nat>>) {
    && Fits(t, codes) && g < |t.guesses| && AnswerIndices(t, answers)
    && forall i :: 0 <= i < |bs| ==>
         |bs[i].members| > 0 && bs[i].members == FilterAnswers(t, codes, answers, [Outcome(g, bs[i].key)])
  }

  /** The partition by feedback is grouped that way, and its sizes add up to the number of answers. */
  lemma BucketsGrouped(t: Tables, codes: seq<seq<nat>>, g: nat, answers: seq<nat>)
    requires Fits(t, codes) && g < |t.guesses| && AnswerIndices(t, answers)
    ensures GroupedBy(t, codes, g, answers, Buckets(t, codes, g, answers))
    ensures NonEmpty(Buckets(t, codes, g, answers))
    ensures Size(Buckets(t, codes, g, answers)) == |answers|
  {
    var bs := Buckets(t, codes, g, answers);
    forall i | 0 <= i < |bs|
      ensures |bs[i].members| > 0 && bs[i].members == FilterAnswers(t, codes, answers, [Outcome(g, bs[i].key)])
    {
      BucketIsFilter(t, codes, g, answers, i);
    }
    if |bs| > 0 {
      BucketIsFilter(t, codes, g, answers, 0);
    } else {
      assert Buckets(t, codes, g, answers) == Group(answers, CodesOf(t, codes, g, answers));
    }
  }

  lemma GroupedTail(t: Tables, codes: seq<seq<nat>>, g: nat, answers: seq<nat>, bs: seq<Bucket<nat, nat>>)
    requires GroupedBy(t, codes, g, answers, bs) && |bs| > 0
    ensures GroupedBy(t, codes, g, answers, bs[1..])
  {
    forall i | 0 <= i < |bs[1..]| ensures bs[1..][i] == bs[i + 1] { }
  }

  /**
   * The group of feedback `c` is what `filter_answers` keeps for (g, c),
   * and the other groups hold the remaining answers.
   */
  lemma OutcomeGroupSplit(t: Tables, codes: seq<seq<nat>>, g: nat, answers: seq<nat>, c: nat)
    requires Fits(t, codes) && g < |t.guesses| && AnswerIndices(t, answers)
    ensures MembersOf(Buckets(t, codes, g, answers), c) == FilterAnswers(t, codes, answers, [Outcome(g, c)])
    ensures SizeExcept(Buckets(t, codes, g, answers), c) + |FilterAnswers(t, codes, answers, [Outcome(g, c)])| == |answers|
  {
    var cs := CodesOf(t, codes, g, answers);
    var bs := Group(answers, cs);
    assert Buckets(t, codes, g, answers) == bs;
    SelectIsFilter(t, codes, g, answers, c);
    SizeExceptSplit(bs, c);
  }

  /** With a faithful table, the answers kept for the winning code are exactly those equal to the guess word. */
  lemma WinningOutcomeKeepsGuessWord(t: Tables, p: Packing, codes: seq<seq<nat>>, g: nat, answers: seq<nat>)
    requires Faithful(t, p, codes) && g < |t.guesses| && AnswerIndices(t, answers)
    ensures forall x :: x in FilterAnswers(t, codes, answers, [Outcome(g, AllHitCodeOf(p))]) <==> x in answers && t.answers[x] == t.guesses[g]
  {
    var o := [Outcome(g, AllHitCodeOf(p))];
    FilterKeepsExactly(t, codes, answers, o);
    forall x | x in answers
      ensures PossibleAnswer(t, codes, x, o) <==> t.answers[x] == t.guesses[g]
    {
      assert o[1..] == [];
      CodeIsAllHitIff(t, p, g, x);
    }
  }
}

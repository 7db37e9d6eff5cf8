/**
 * The repository's test cases, stated about the model: the colourings and
 * `possible_answer` cases of go/gordle4_test.go, the `test()` cases of
 * wordle.cc, the call in the main block of python/wordle.py, and a pair on
 * which the single pass gives one copy of a letter two marks.
 *
 * A colouring of two five-letter words is established through
 * `ColorsOfFive`, which checks the rule of `ColorsCharacterization`
 * position by position with the claims before each position spelled out.
 */
module Vectors {
  import opened Words
  import opened Feedback
  import opened Codec
  import F = Filter
  import WS = WordleStrings
  import Py = PyWordle

  // ---------------------------------------------------------------------
  // Checking a five-letter colouring

  /** Copies of `ch` in a five-letter word, position by position. */
  function Occurrences(a: string, ch: char): nat
    requires |a| == 5
  {
    (if a[0] == ch then 1 else 0) + (if a[1] == ch then 1 else 0) + (if a[2] == ch then 1 else 0)
      + (if a[3] == ch then 1 else 0) + (if a[4] == ch then 1 else 0)
  }

  lemma OccurrencesIsCount(a: string, ch: char)
    requires |a| == 5
    ensures multiset(a)[ch] == Occurrences(a, ch)
  {
    assert a[..0] == [];
    CountSnoc(a, 1, ch);
    CountSnoc(a, 2, ch);
    CountSnoc(a, 3, ch);
    CountSnoc(a, 4, ch);
    CountSnoc(a, 5, ch);
    assert a[..5] == a;
  }

  lemma CountSnoc(a: string, n: nat, ch: char)
    requires 0 < n <= |a|
    ensures multiset(a[..n])[ch] == multiset(a[..n - 1])[ch] + (if a[n - 1] == ch then 1 else 0)
  {
    assert a[..n] == a[..n - 1] + [a[n - 1]];
  }

  /** 1 when position `j` claims a copy of `ch` (its letter is `ch` and it is marked '!' or '+'). */
  function Claim(g: string, c: string, j: nat, ch: char): nat
    requires j < |g| && j < |c|
  {
    if g[j] == ch && (c[j] == HIT || c[j] == PRESENT) then 1 else 0
  }

  lemma ClaimedStep(g: string, c: string, i: nat, ch: char)
    requires i < |g| && i < |c|
    ensures Claimed(g, c[..i + 1])[ch] == Claimed(g, c[..i])[ch] + Claim(g, c, i, ch)
  {
    assert c[..i + 1][..i] == c[..i];
    assert c[..i + 1][i] == c[i];
  }

  /** The copies of `ch` claimed before each position of a five-letter pattern. */
  lemma ClaimedPrefixes(g: string, c: string, ch: char)
    requires |g| == 5 && |c| == 5
    ensures Claimed(g, c[..0])[ch] == 0
    ensures Claimed(g, c[..1])[ch] == Claim(g, c, 0, ch)
    ensures Claimed(g, c[..2])[ch] == Claim(g, c, 0, ch) + Claim(g, c, 1, ch)
    ensures Claimed(g, c[..3])[ch] == Claim(g, c, 0, ch) + Claim(g, c, 1, ch) + Claim(g, c, 2, ch)
    ensures Claimed(g, c[..4])[ch] == Claim(g, c, 0, ch) + Claim(g, c, 1, ch) + Claim(g, c, 2, ch) + Claim(g, c, 3, ch)
  {
    assert c[..0] == [];
    ClaimedStep(g, c, 0, ch);
    ClaimedStep(g, c, 1, ch);
    ClaimedStep(g, c, 2, ch);
    ClaimedStep(g, c, 3, ch);
  }

  /** The copies of `ch` a whole five-letter pattern claims. */
  lemma ClaimedFive(g: string, c: string, ch: char)
    requires |g| == 5 && |c| == 5
    ensures Claimed(g, c)[ch] == Claim(g, c, 0, ch) + Claim(g, c, 1, ch) + Claim(g, c, 2, ch) + Claim(g, c, 3, ch) + Claim(g, c, 4, ch)
  {
    ClaimedPrefixes(g, c, ch);
    ClaimedStep(g, c, 4, ch);
    assert c[..5] == c;
  }

  /** The five positions of `c` follow the colouring rule, with the claims counted position by position. */
  lemma FivePositions(g: string, a: string, c: string)
    requires |g| == 5 && |a| == 5 && |c| == 5
    requires c[0] == SymbolFor(g[0], a[0], 0, Occurrences(a, g[0]))
    requires c[1] == SymbolFor(g[1], a[1], Claim(g, c, 0, g[1]), Occurrences(a, g[1]))
    requires c[2] == SymbolFor(g[2], a[2], Claim(g, c, 0, g[2]) + Claim(g, c, 1, g[2]), Occurrences(a, g[2]))
    requires c[3] == SymbolFor(g[3], a[3], Claim(g, c, 0, g[3]) + Claim(g, c, 1, g[3]) + Claim(g, c, 2, g[3]), Occurrences(a, g[3]))
    requires c[4] == SymbolFor(g[4], a[4], Claim(g, c, 0, g[4]) + Claim(g, c, 1, g[4]) + Claim(g, c, 2, g[4]) + Claim(g, c, 3, g[4]), Occurrences(a, g[4]))
    ensures forall i :: 0 <= i < 5 ==> c[i] == SymbolFor(g[i], a[i], Claimed(g, c[..i])[g[i]], multiset(a)[g[i]])
  {
    forall i | 0 <= i < 5
      ensures c[i] == SymbolFor(g[i], a[i], Claimed(g, c[..i])[g[i]], multiset(a)[g[i]])
    {
      OccurrencesIsCount(a, g[i]);
      ClaimedPrefixes(g, c, g[i]);
      if i == 0 {
      } else if i == 1 {
      } else if i == 2 {
      } else if i == 3 {
      } else {
      }
    }
  }

  /** A five-letter pattern that follows the rule at every position is the feedback. */
  lemma ColorsOfFive(g: Word, a: Word, c: string)
    requires |g| == 5 && |a| == 5 && |c| == 5
    requires c[0] == SymbolFor(g[0], a[0], 0, Occurrences(a, g[0]))
    requires c[1] == SymbolFor(g[1], a[1], Claim(g, c, 0, g[1]), Occurrences(a, g[1]))
    requires c[2] == SymbolFor(g[2], a[2], Claim(g, c, 0, g[2]) + Claim(g, c, 1, g[2]), Occurrences(a, g[2]))
    requires c[3] == SymbolFor(g[3], a[3], Claim(g, c, 0, g[3]) + Claim(g, c, 1, g[3]) + Claim(g, c, 2, g[3]), Occurrences(a, g[3]))
    requires c[4] == SymbolFor(g[4], a[4], Claim(g, c, 0, g[4]) + Claim(g, c, 1, g[4]) + Claim(g, c, 2, g[4]) + Claim(g, c, 3, g[4]), Occurrences(a, g[4]))
    ensures Colors(g, a) == c
  {
    FivePositions(g, a, c);
    ColorsFromCharacterization(g, a, c);
  }

  // ---------------------------------------------------------------------
  // Colourings of `Test_get_colors`

  lemma ColorsReastThorn()
    ensures Colors("reast", "thorn") == "+---+"
  {
    ColorsOfFive("reast", "thorn", "+---+");
  }

  lemma ColorsThrobThorn()
    ensures Colors("throb", "thorn") == "!!++-"
  {
    ColorsOfFive("throb", "thorn", "!!++-");
  }

  lemma ColorsOrateThorn()
    ensures Colors("orate", "thorn") == "++-+-"
  {
    ColorsOfFive("orate", "thorn", "++-+-");
  }

  lemma ColorsRoastThorn()
    ensures Colors("roast", "thorn") == "++--+"
  {
    ColorsOfFive("roast", "thorn", "++--+");
  }

  lemma ColorsCourtThorn()
    ensures Colors("court", "thorn") == "-+-!+"
  {
    ColorsOfFive("court", "thorn", "-+-!+");
  }

  lemma ColorsReastOther()
    ensures Colors("reast", "other") == "++--+"
  {
    ColorsOfFive("reast", "other", "++--+");
  }

  lemma ColorsTuteeOther()
    ensures Colors("tutee", "other") == "+--!-"
  {
    ColorsOfFive("tutee", "other", "+--!-");
  }

  lemma ColorsReastTacit()
    ensures Colors("reast", "tacit") == "--+-!"
  {
    ColorsOfFive("reast", "tacit", "--+-!");
  }

  lemma ColorsDoughTacit()
    ensures Colors("dough", "tacit") == "-----"
  {
    ColorsOfFive("dough", "tacit", "-----");
  }

  lemma ColorsTapisTacit()
    ensures Colors("tapis", "tacit") == "!!-!-"
  {
    ColorsOfFive("tapis", "tacit", "!!-!-");
  }

  lemma ColorsQuailTacit()
    ensures Colors("quail", "tacit") == "--+!-"
  {
    ColorsOfFive("quail", "tacit", "--+!-");
  }

  lemma ColorsPeonyTacit()
    ensures Colors("peony", "tacit") == "-----"
  {
    ColorsOfFive("peony", "tacit", "-----");
  }

  lemma ColorsMagicTacit()
    ensures Colors("magic", "tacit") == "-!-!+"
  {
    ColorsOfFive("magic", "tacit", "-!-!+");
  }

  /** The four cases of a word guessed against itself are all Hits. */
  lemma ColorsOfSameWord()
    ensures Colors("abbey", "abbey") == "!!!!!"
    ensures Colors("thorn", "thorn") == "!!!!!"
    ensures Colors("other", "other") == "!!!!!"
    ensures Colors("tacit", "tacit") == "!!!!!"
  {
    assert AllHits(WORD_LENGTH) == "!!!!!";
    AllHitsIffEqual("abbey", "abbey");
    AllHitsIffEqual("thorn", "thorn");
    AllHitsIffEqual("other", "other");
    AllHitsIffEqual("tacit", "tacit");
  }

  lemma ColorsTabooTaboo()
    ensures Colors("taboo", "taboo") == "!!!!!"
  {
    assert AllHits(WORD_LENGTH) == "!!!!!";
    AllHitsIffEqual("taboo", "taboo");
  }

  // ---------------------------------------------------------------------
  // Colourings behind the `possible_answer` cases

  lemma ColorsCranePause()
    ensures Colors("crane", "pause") == "--+-!"
  {
    ColorsOfFive("crane", "pause", "--+-!");
  }

  lemma ColorsMaulsPause()
    ensures Colors("mauls", "pause") == "-!!-+"
  {
    ColorsOfFive("mauls", "pause", "-!!-+");
  }

  lemma ColorsCraneAcorn()
    ensures Colors("crane", "acorn") == "++++-"
  {
    ColorsOfFive("crane", "acorn", "++++-");
  }

  lemma ColorsTabooWagon()
    ensures Colors("taboo", "wagon") == "-!-!-"
  {
    ColorsOfFive("taboo", "wagon", "-!-!-");
  }

  lemma ColorsCraneBoron()
    ensures Colors("crane", "boron") == "-+-+-"
  {
    ColorsOfFive("crane", "boron", "-+-+-");
  }

  lemma ColorsTabooHaloo()
    ensures Colors("taboo", "haloo") == "-!-!!"
  {
    ColorsOfFive("taboo", "haloo", "-!-!!");
  }

  lemma ColorsTabooHaloc()
    ensures Colors("taboo", "haloc") == "-!-!-"
  {
    ColorsOfFive("taboo", "haloc", "-!-!-");
  }

  // ---------------------------------------------------------------------
  // `Test_possible_answer` of go/gordle4_test.go, on index tables

  /** Tables holding the words of the Go cases; every answer is also a guess. */
  const GoTables: Tables := Tables(["crane", "mauls", "taboo", "pause", "acorn", "wagon"], ["pause", "acorn", "taboo", "wagon"])

  lemma GoTablesValid()
    ensures ValidTables(GoTables)
  {
    var t := GoTables;
    assert t.answers[0] == t.guesses[3] && t.answers[1] == t.guesses[4];
    assert t.answers[2] == t.guesses[2] && t.answers[3] == t.guesses[5];
  }

  /** `make_outcome("crane", "--+-!")` on the Go tables. */
  function CraneOutcome(): (o: F.Outcome)
    ensures o.guess < |GoTables.guesses| && GoTables.guesses[o.guess] == "crane" 
    ensures WellFormed("--+-!") && o.colors == Encode("--+-!")
  {
    assert IsFeedback("--+-!");
    F.MakeOutcome(GoTables, "crane", "--+-!")
  }

  /** `make_outcome("mauls", "-!!-+")` on the Go tables. */
  function MaulsOutcome(): (o: F.Outcome)
    ensures o.guess < |GoTables.guesses| && GoTables.guesses[o.guess] == "mauls" 
    ensures WellFormed("-!!-+") && o.colors == Encode("-!!-+")
  {
    assert IsFeedback("-!!-+");
    F.MakeOutcome(GoTables, "mauls", "-!!-+")
  }

  /** `make_outcome("taboo", "-!-!-")` on the Go tables. */
  function TabooOutcome(): (o: F.Outcome)
    ensures o.guess < |GoTables.guesses| && GoTables.guesses[o.guess] == "taboo" 
    ensures WellFormed("-!-!-") && o.colors == Encode("-!-!-")
  {
    assert IsFeedback("-!-!-");
    F.MakeOutcome(GoTables, "taboo", "-!-!-")
  }

  /** An entry of a complete table is the code of its pair's colouring. */
  lemma TableEntry(t: Tables, codes: seq<seq<nat>>, g: nat, a: nat, c: string)
    requires Faithful(t, MsbFirst, codes) && g < |t.guesses| && a < |t.answers| && WellFormed(c)
    requires Colors(t.guesses[g], t.answers[a]) == c
    ensures codes[g][a] == Encode(c)
  {
  }

  /** Two different complete patterns have different codes. */
  lemma PatternsDiffer(s1: string, s2: string)
    requires WellFormed(s1) && |s2| == WORD_LENGTH && IsFeedback(s2) && s1 != s2
    ensures Encode(s1) != Encode(s2)
  {
    EncodeInjective(s1, s2);
  }

  /** "pause" fits crane "--+-!" and mauls "-!!-+", in every complete table of these words. */
  lemma GoPauseIsPossible(codes: seq<seq<nat>>)
    requires Faithful(GoTables, MsbFirst, codes)
    ensures GoTables.answers[0] == "pause"
    ensures F.PossibleAnswer(GoTables, codes, 0, [CraneOutcome(), MaulsOutcome()])
  {
    var os := [CraneOutcome(), MaulsOutcome()];
    F.PossibleAnswerAll(GoTables, codes, 0, os);
    ColorsCranePause();
    ColorsMaulsPause();
    ColorsAreFeedback("crane", "pause");
    ColorsAreFeedback("mauls", "pause");
    TableEntry(GoTables, codes, os[0].guess, 0, "--+-!");
    TableEntry(GoTables, codes, os[1].guess, 0, "-!!-+");
  }

  /** "acorn" does not: crane against it gives "++++-". */
  lemma GoAcornIsNotPossible(codes: seq<seq<nat>>)
    requires Faithful(GoTables, MsbFirst, codes)
    ensures GoTables.answers[1] == "acorn"
    ensures !F.PossibleAnswer(GoTables, codes, 1, [CraneOutcome(), MaulsOutcome()])
  {
    var os := [CraneOutcome(), MaulsOutcome()];
    F.PossibleAnswerAll(GoTables, codes, 1, os);
    ColorsCraneAcorn();
    ColorsAreFeedback("crane", "acorn");
    TableEntry(GoTables, codes, os[0].guess, 1, "++++-");
    PatternsDiffer("++++-", "--+-!");
  }

  /** "taboo" does not fit taboo "-!-!-": guessing the answer gives all Hits. */
  lemma GoTabooIsNotPossible(codes: seq<seq<nat>>)
    requires Faithful(GoTables, MsbFirst, codes)
    ensures GoTables.answers[2] == "taboo"
    ensures !F.PossibleAnswer(GoTables, codes, 2, [TabooOutcome()])
  {
    var os := [TabooOutcome()];
    F.PossibleAnswerAll(GoTables, codes, 2, os);
    ColorsTabooTaboo();
    ColorsAreFeedback("taboo", "taboo");
    TableEntry(GoTables, codes, os[0].guess, 2, "!!!!!");
    PatternsDiffer("!!!!!", "-!-!-");
  }

  /** "wagon" fits taboo "-!-!-". */
  lemma GoWagonIsPossible(codes: seq<seq<nat>>)
    requires Faithful(GoTables, MsbFirst, codes)
    ensures GoTables.answers[3] == "wagon"
    ensures F.PossibleAnswer(GoTables, codes, 3, [TabooOutcome()])
  {
    var os := [TabooOutcome()];
    F.PossibleAnswerAll(GoTables, codes, 3, os);
    ColorsTabooWagon();
    ColorsAreFeedback("taboo", "wagon");
    TableEntry(GoTables, codes, os[0].guess, 3, "-!-!-");
  }

  /** The table these cases read exists: the complete table of the Go tables. */
  lemma GoCodesFaithful()
    ensures Faithful(GoTables, MsbFirst, CodeTable(GoTables, MsbFirst))
  {
    GoTablesValid();
  }

  // ---------------------------------------------------------------------
  // `test()` of wordle.cc, on words

  /** With crane "--+-!" and mauls "-!!-+" recorded, "pause" is possible and "boron" is not. */
  lemma StringsCraneMauls()
    ensures WS.PossibleAnswer("pause", [WS.Outcome("crane", "--+-!"), WS.Outcome("mauls", "-!!-+")])
    ensures !WS.PossibleAnswer("boron", [WS.Outcome("crane", "--+-!"), WS.Outcome("mauls", "-!!-+")])
  {
    ColorsCranePause();
    ColorsMaulsPause();
    ColorsCraneBoron();
  }

  /** With taboo "-!-!-" recorded, "haloo" is not possible and "haloc" is. */
  lemma StringsTaboo()
    ensures !WS.PossibleAnswer("haloo", [WS.Outcome("taboo", "-!-!-")])
    ensures WS.PossibleAnswer("haloc", [WS.Outcome("taboo", "-!-!-")])
  {
    ColorsTabooHaloo();
    ColorsTabooHaloc();
  }

  // ---------------------------------------------------------------------
  // The single pass and the rule-based filter

  /**
   * The single pass does not reserve the Hits first: against "those" the
   * first 'e' of "geese" is marked '+' and the last one '!', so the one 'e'
   * of the answer is claimed twice (standard Wordle colours this "---!!").
   */
  lemma SinglePassDoubleCounts()
    ensures Colors("geese", "those") == "-+-!!"
    ensures Claimed("geese", "-+-!!")['e'] == 2 > multiset("those")['e']
  {
    ColorsOfFive("geese", "those", "-+-!!");
    ClaimedFive("geese", "-+-!!", 'e');
    OccurrencesIsCount("those", 'e');
  }

  /**
   * Because of that double claim, the rule-based filter of python/wordle.py
   * rejects the answer itself under the feedback the same program computes
   * for it: "those" has one 'e' but the pattern claims two.
   */
  lemma SinglePassFailsCountRule()
    ensures Py.GetOutcome("geese", "those") == "-+-!!"
    ensures !Py.PairAllows("those", "geese", Py.GetOutcome("geese", "those"))
    ensures !Py.PossibleAnswer("those", ["geese"], [Py.GetOutcome("geese", "those")])
  {
    SinglePassDoubleCounts();
    var o := Py.GetOutcome("geese", "those");
    Py.GetOutcomeIsColors("geese", "those");
    assert Py.Zipped("geese", o, "those") == 5;
    assert o[..5] == o;
    ClaimedFive("geese", o, 'e');
    OccurrencesIsCount("those", 'e');
  }

  /** The count rule for "haloc" under taboo "-!-!-": it holds the 'a' and the 'o' the pattern claims. */
  lemma HalocCountRule()
    ensures Py.PositiveCounts("taboo", "-!-!-", "haloc") <= multiset("haloc")
  {
    var g, o, word := "taboo", "-!-!-", "haloc";
    assert Py.Zipped(g, o, word) == 5;
    assert o[..5] == o;
    forall ch
      ensures Py.PositiveCounts(g, o, word)[ch] <= multiset(word)[ch]
    {
      ClaimedFive(g, o, ch);
      OccurrencesIsCount(word, ch);
    }
  }

  /** The '-' rule for "haloc" under taboo "-!-!-": no 't' or 'b', and no second 'o'. */
  lemma HalocMissRule()
    ensures forall l :: l in Py.NegativeLetters("taboo", "-!-!-", "haloc") ==>
      multiset("haloc")[l] <= Py.PositiveCounts("taboo", "-!-!-", "haloc")[l]
  {
    var g, o, word := "taboo", "-!-!-", "haloc";
    assert Py.Zipped(g, o, word) == 5;
    assert o[..5] == o;
    forall l | l in Py.NegativeLetters(g, o, word)
      ensures multiset(word)[l] <= Py.PositiveCounts(g, o, word)[l]
    {
      Py.MissSetSource(g, o, l);
      var k :| 0 <= k < |o| && o[k] == MISS && g[k] == l;
      assert k == 0 || k == 2 || k == 4;
      HalocMissLetter(l);
    }
  }

  /** "haloc" holds no more copies of 't', 'b' or 'o' than taboo "-!-!-" claims. */
  lemma HalocMissLetter(l: char)
    requires l == 't' || l == 'b' || l == 'o'
    ensures multiset("haloc")[l] <= Claimed("taboo", "-!-!-")[l]
  {
    ClaimedFive("taboo", "-!-!-", l);
    OccurrencesIsCount("haloc", l);
  }

  /** The main block of python/wordle.py: "haloc" fits taboo "-!-!-" under the three rules. */
  lemma PythonHalocIsPossible()
    ensures Py.PossibleAnswer("haloc", ["taboo"], ["-!-!-"])
  {
    assert Py.Zipped("taboo", "-!-!-", "haloc") == 5;
    assert Py.PositionsAgree("haloc", "taboo", "-!-!-");
    HalocCountRule();
    HalocMissRule();
    assert Py.PairAllows("haloc", "taboo", "-!-!-");
  }
}

/**
 * The packed form of a feedback string: one base-4 digit per position
 * ('-' is 0, '+' is 1, '!' is 2), most significant digit first, so that the
 * five-symbol patterns become the integers 0..682 and "!!!!!" is 682.  The
 * shift-after variant multiplies by four after every digit instead of
 * before every digit but the first, which makes every code four times as
 * large.
 */
module Codec {
  import opened Wrappers
  import opened Words
  import opened Feedback

  /** The code of "!!!!!", the winning pattern. */
  const ALL_HIT: nat := 682
  /** Number of codes the most-significant-first packing can produce. */
  const NUM_COLORS: nat := 683

  /** A complete feedback pattern: one symbol per letter of a word. */
  predicate WellFormed(s: string) {
    |s| == WORD_LENGTH && IsFeedback(s)
  }

  /** The digit of one feedback symbol. */
  function Digit(c: char): (d: nat)
    requires c == HIT || c == PRESENT || c == MISS
    ensures d <= 2
  {
    if c == MISS then 0 else if c == PRESENT then 1 else 2
  }

  /** The symbol of one two-bit digit; the unused digit 3 leaves the blank wordle3.cc's string starts with. */
  function SymbolOf(d: int): char {
    if d == 0 then MISS else if d == 1 then PRESENT else if d == 2 then HIT else ' '
  }

  function Pow4(n: nat): (p: nat)
    ensures p >= 1
  {
    if n == 0 then 1 else 4 * Pow4(n - 1)
  }

  /** Largest value `n` digits can pack to: every digit a 2. */
  function MaxPacked(n: nat): nat {
    if n == 0 then 0 else MaxPacked(n - 1) * 4 + 2
  }

  /**
   * Base-4 value of a feedback string, most significant digit first: the
   * value so far is multiplied by four before the next digit is added.
   */
  function Pack(s: string): (code: nat)
    requires IsFeedback(s)
    ensures code <= MaxPacked(|s|)
    ensures code < Pow4(|s|)
  {
    if |s| == 0 then 0 else Pack(s[..|s| - 1]) * 4 + Digit(s[|s| - 1])
  }

  /**
   * The symbols of the last `n` two-bit digits of `index`, most significant
   * first.  `index % 4` and `index / 4` are what `index & 3` and `index >> 2`
   * compute on a two's-complement integer, negative ones included.
   */
  function Unpack(index: int, n: nat): (s: string)
    ensures |s| == n
    decreases n
  {
    if n == 0 then [] else Unpack(index / 4, n - 1) + [SymbolOf(index % 4)]
  }

  /** The pattern string of a code (`lookup_colors`). */
  function Decode(index: int): (s: string)
    ensures |s| == WORD_LENGTH
  {
    Unpack(index, WORD_LENGTH)
  }

  lemma {:induction false} UnpackPack(s: string)
    requires IsFeedback(s)
    ensures Unpack(Pack(s), |s|) == s
  {
    if |s| > 0 {
      var n := |s| - 1;
      var p := Pack(s[..n]);
      UnpackPack(s[..n]);
      assert (p * 4 + Digit(s[n])) / 4 == p;
      assert (p * 4 + Digit(s[n])) % 4 == Digit(s[n]);
      assert s == s[..n] + [s[n]];
    }
  }

  /** The code of a complete pattern (`get_colors_index`); `Decode` inverts it. */
  function Encode(s: string): (code: nat)
    requires WellFormed(s)
    ensures code < NUM_COLORS
    ensures Decode(code) == s
  {
    UnpackPack(s);
    Pack(s)
  }

  /** Distinct patterns get distinct codes. */
  lemma EncodeInjective(s1: string, s2: string)
    requires WellFormed(s1) && WellFormed(s2)
    ensures Encode(s1) == Encode(s2) <==> s1 == s2
  {
  }

  lemma {:induction false} PackUnpack(index: nat, n: nat)
    requires index < Pow4(n)
    requires IsFeedback(Unpack(index, n))
    ensures Pack(Unpack(index, n)) == index
  {
    if n > 0 {
      var s := Unpack(index, n);
      var prefix := Unpack(index / 4, n - 1);
      assert s[..n - 1] == prefix;
      assert IsFeedback(prefix) by {
        forall i | 0 <= i < |prefix| ensures prefix[i] == s[i] { }
      }
      PackUnpack(index / 4, n - 1);
      assert SymbolOf(index % 4) == s[n - 1];
    }
  }

  /**
   * The other direction of the round trip: a code below 4^5 whose digits
   * are all 0, 1 or 2 is the code of the pattern it decodes to.
   */
  lemma DecodeEncode(index: nat)
    requires index < Pow4(WORD_LENGTH)
    requires IsFeedback(Decode(index))
    ensures Encode(Decode(index)) == index
  {
    PackUnpack(index, WORD_LENGTH);
  }

  /** "!!!!!" packs to 682. */
  lemma AllHitCode()
    ensures Encode(AllHits(WORD_LENGTH)) == ALL_HIT
  {
    var s := AllHits(WORD_LENGTH);
    assert s == "!!!!!";
    assert s[..4] == "!!!!" && s[..4][..3] == "!!!" && s[..4][..3][..2] == "!!";
    assert Pack("!!") == 10;
    assert Pack("!!!") == 42;
    assert Pack("!!!!") == 170;
  }

  /**
   * The code of a pattern string the way the program reads it: only the
   * first five characters are looked at, and a missing character or any
   * character other than '-', '+' and '!' is the fatal case, here `None`.
   */
  function ParseColors(s: string): (r: Option<nat>)
    ensures r.Some? <==> |s| >= WORD_LENGTH && WellFormed(s[..WORD_LENGTH])
    ensures r.Some? ==> r.value < NUM_COLORS && Decode(r.value) == s[..WORD_LENGTH]
  {
    if |s| >= WORD_LENGTH && WellFormed(s[..WORD_LENGTH]) then Some(Encode(s[..WORD_LENGTH])) else None
  }

  /**
   * The shift-after packing: the digit is added first and the value is then
   * multiplied by four, after every position including the last.
   */
  function ShiftPack(s: string): (code: nat)
    requires IsFeedback(s)
    ensures code == 4 * Pack(s)
  {
    if |s| == 0 then 0 else (ShiftPack(s[..|s| - 1]) + Digit(s[|s| - 1])) * 4
  }

  /** Shift-after codes are multiples of four, distinct for distinct patterns, and "!!!!!" is 2728. */
  lemma ShiftPackProperties(s1: string, s2: string)
    requires WellFormed(s1) && WellFormed(s2)
    ensures ShiftPack(s1) % 4 == 0
    ensures ShiftPack(s1) == ShiftPack(s2) <==> s1 == s2
    ensures ShiftPack(AllHits(WORD_LENGTH)) == 2728
  {
    AllHitCode();
    EncodeInjective(s1, s2);
    MultipleOfFour(Pack(s1));
  }

  lemma MultipleOfFour(k: nat)
    ensures (4 * k) % 4 == 0
  {
  }

  /**
   * The packing loop of `get_colors_index`: most-significant-first shifts
   * the value left by two bits before every digit but the first, shift-after
   * shifts after every digit.  A character other than the three symbols is
   * the fatal case, so callers pass complete patterns.
   */
  method ColorsIndex(p: Packing, s: string) returns (index: nat)
    requires WellFormed(s)
    ensures index == PackWith(p, s)
  {
    index := 0;
    var i := 0;
    while i < WORD_LENGTH
      invariant i <= WORD_LENGTH
      invariant IsFeedback(s[..i])
      invariant index == (if p == MsbFirst then Pack(s[..i]) else 4 * Pack(s[..i]))
    {
      assert s[..i + 1][..i] == s[..i];
      assert IsFeedback(s[..i + 1]);
      if p == MsbFirst {
        if i > 0 {
          index := index * 4;
        }
        index := index + Digit(s[i]);
      } else {
        index := index + Digit(s[i]);
        index := index * 4;
      }
      i := i + 1;
    }
    assert s[..WORD_LENGTH] == s;
  }

  /** The two packings of the program variants. */
  datatype Packing = MsbFirst | ShiftAfter

  function PackWith(p: Packing, s: string): nat
    requires WellFormed(s)
  {
    match p
    case MsbFirst => Encode(s)
    case ShiftAfter => ShiftPack(s)
  }

  /** The code of the winning pattern under a packing. */
  function AllHitCodeOf(p: Packing): nat {
    match p
    case MsbFirst => ALL_HIT
    case ShiftAfter => 4 * ALL_HIT
  }

  /** Both packings are injective on complete patterns. */
  lemma PackWithInjective(p: Packing, s1: string, s2: string)
    requires WellFormed(s1) && WellFormed(s2)
    ensures PackWith(p, s1) == PackWith(p, s2) <==> s1 == s2
  {
    EncodeInjective(s1, s2);
  }

  /** The packed feedback of guess `g` against answer `a`, by index (uncached `get_colors`). */
  function Code(t: Tables, p: Packing, g: nat, a: nat): nat
    requires ValidTables(t) && g < |t.guesses| && a < |t.answers|
  {
    ColorsAreFeedback(t.guesses[g], t.answers[a]);
    PackWith(p, Colors(t.guesses[g], t.answers[a]))
  }

  /** The packed feedback is the winning code exactly when the guess word is the answer word. */
  lemma CodeIsAllHitIff(t: Tables, p: Packing, g: nat, a: nat)
    requires ValidTables(t) && g < |t.guesses| && a < |t.answers|
    ensures Code(t, p, g, a) == AllHitCodeOf(p) <==> t.guesses[g] == t.answers[a]
  {
    var w := AllHits(WORD_LENGTH);
    AllHitCode();
    ColorsAreFeedback(t.guesses[g], t.answers[a]);
    PackWithInjective(p, Colors(t.guesses[g], t.answers[a]), w);
    AllHitsIffEqual(t.guesses[g], t.answers[a]);
  }

  /** A table with one row per guess and one entry per answer. */
  predicate Fits(t: Tables, codes: seq<seq<nat>>) {
    |codes| == |t.guesses| && forall g :: 0 <= g < |codes| ==> |codes[g]| == |t.answers|
  }

  /** A table holding the packed feedback of every guess against every answer. */
  predicate Faithful(t: Tables, p: Packing, codes: seq<seq<nat>>) {
    && ValidTables(t)
    && Fits(t, codes)
    && forall g, a :: 0 <= g < |t.guesses| && 0 <= a < |t.answers| ==> codes[g][a] == Code(t, p, g, a)
  }

  /** The complete feedback table of a packing. */
  function CodeTable(t: Tables, p: Packing): (codes: seq<seq<nat>>)
    requires ValidTables(t)
    ensures Faithful(t, p, codes)
  {
    seq(|t.guesses|, g requires 0 <= g < |t.guesses| =>
      seq(|t.answers|, a requires 0 <= a < |t.answers| => Code(t, p, g, a)))
  }

  /** Codes of the most-significant-first packing fit the 683-entry count array. */
  lemma CodeBelowNumColors(t: Tables, g: nat, a: nat)
    requires ValidTables(t) && g < |t.guesses| && a < |t.answers|
    ensures Code(t, MsbFirst, g, a) < NUM_COLORS
  {
  }
}

# Wordle solver core, modelled in Dafny

This project models the core of a small Wordle helper. The helper exists as
several near-duplicate programs:

- wordle.cc works on the words themselves.
- wordle3.cc and wordle2.cc work on table indices and use a dense feedback cache.
- gordle/gordle4.go precomputes the whole feedback table.
- python/wordle.py uses a rule-based filter.

Every variant does the same four things:

1. It colours a guess against an answer in one left-to-right pass. Each
   position gets '!' (right letter, right place), '+' (letter still
   unclaimed in the answer) or '-'.
2. It packs the five symbols into a base-4 code. "!!!!!" is 682; wordle2.cc
   shifts after every digit, so its codes are four times as large.
3. It filters the answer list down to the words consistent with every
   recorded (guess, feedback) outcome.
4. It searches for the best next guess. The answers are grouped by the
   feedback a guess gives; each group is weighted by its probability and
   scored either by answers left (minimised) or answers eliminated
   (maximised); the search optionally recurses into each group a few levels
   deep.

The modules follow that structure:

| module | file | concept |
|---|---|---|
| `Words` | words.dfy | word tables, letter counts, lookups |
| `Feedback` | feedback.dfy | the single colouring pass |
| `Codec` | codec.dfy | both packings and `lookup_colors` |
| `Cache` | cache.dfy | the dense `-1`-initialised cache with hit/miss counters |
| `Filter` | filter.dfy | index-based `possible_answer` / `filter_answers` and grouping by feedback |
| `Partition` | partition.dfy | grouping a list by a key, group sizes and squares |
| `Ranking` | ranking.dfy | the shortlist, the sort and the running "best so far" |
| `Search` | search.dfy | the recursion measure and exact-real arithmetic shared by the searches |
| `Wordle3`, `Wordle2`, `Gordle`, `WordleStrings`, `PyWordle` | one file per program | the per-program scorers and searches |
| `Vectors` | vectors.dfy | the repository's own test cases |

Scores are exact `real` values. Word tables are parameters. The feedback the
searches read comes from a table `codes` that `Codec.Faithful` ties to the
colouring pass, and the cache and memo are shown to return exactly those
values.

The colouring pass is modelled as written. It does not reserve exact
matches before it hands out '+'. So against "those" the guess "geese" is
coloured "-+-!!", which marks the answer's one 'e' twice
(`Vectors.SinglePassDoubleCounts`). Standard Wordle would give "---!!".
As a consequence, the rule-based filter of python/wordle.py rejects "those"
under the feedback the same program computes for it
(`Vectors.SinglePassFailsCountRule`).

## Model

| member | source | states |
|---|---|---|
| Words.LetterCounts | wordle3.cc:37-43 | the map holds exactly the letters of the word, each mapped to its number of occurrences |
| Words.LookupGuess | wordle3.cc:56-64 | the result is the first index of the guess table holding the word |
| Words.LookupAnswer | wordle3.cc:66-74 | the result is the first index of the answer table holding the word |
| Words.Sequence | gordle/gordle4.go:293-299 | the loop builds the list 0, 1, …, n−1 |
| Feedback.ComputeColors | wordle3.cc:137-152 | the loop with the answer's letter-count map and a default-0 claimed-letter map produces exactly the single-pass feedback |
| Feedback.UsedIsClaimed | wordle3.cc:141-151 | the running claimed-letter counter equals the multiset of guess letters marked '!' or '+' so far |
| Feedback.ColorsCharacterization | wordle3.cc:142-152 | position i is '!' iff the letters agree; otherwise it is '+' iff fewer copies of the letter were claimed before i than the answer holds; otherwise '-' |
| Feedback.ColorsFromCharacterization | gordle/gordle4.go:109-121 | any string that follows that position-by-position rule everywhere is the feedback, so the rule determines the pass |
| Feedback.ColorsAreFeedback | wordle3.cc:139-152 | the pass only writes the three symbols '!', '+', '-' |
| Feedback.HitExactlyWhereEqual | wordle3.cc:143-145 | '!' sits exactly at the positions where guess and answer agree |
| Feedback.PresentBound | wordle3.cc:146-148 | for every letter, the number of '+' marks is at most the answer's count of it |
| Feedback.AllHitsIffEqual | wordle3.cc:142-152 | the feedback is "!!!!!" exactly when the guess is the answer |
| Codec.Encode | wordle3.cc:76-98 | a complete pattern packs to a code below 683 that decodes back to the same pattern |
| Codec.EncodeInjective | gordle/gordle4.go:67-85 | two complete patterns have the same code iff they are equal |
| Codec.DecodeEncode | wordle3.cc:100-117 | a code below 4^5 whose digits decode to feedback symbols is the code of the pattern it decodes to |
| Codec.AllHitCode | wordle3.cc:199 | "!!!!!" packs to 682 |
| Codec.ParseColors | gordle/gordle4.go:67-85 | a string gets a code iff its first five characters are all feedback symbols; that code is below 683 and decodes to them, and any other character is the fatal case |
| Codec.ShiftPack | wordle2.cc:77-97 | the shift-after packing is exactly four times the most-significant-first packing |
| Codec.ShiftPackProperties | wordle2.cc:77-97 | shift-after codes are multiples of four, distinct for distinct patterns, and "!!!!!" is 2728 |
| Codec.ColorsIndex | wordle3.cc:76-98 | the packing loop of either variant computes the packed value of its packing |
| Codec.PackWithInjective | wordle2.cc:77-97 | both packings give distinct patterns distinct codes |
| Codec.CodeIsAllHitIff | wordle3.cc:199-200 | a guess's packed feedback is the winning code exactly when the guess word is the answer word |
| Codec.CodeBelowNumColors | gordle/gordle4.go:149-151 | most-significant-first codes index the 683-entry count array |
| Cache.SlotInjective | wordle3.cc:131 | every (guess, answer) pair has its own cell, inside the array |
| Cache.InitialCache | wordle3.cc:52 | the cache starts with every cell −1 and both counters 0, which is a valid cache |
| Cache.StoreKeepsValid | wordle3.cc:153-154 | storing a pair's own code into its cell keeps every cell unset or correct |
| Cache.GetColors | wordle3.cc:130-156 | the lookup returns the uncached code, changes only the pair's own cell, counts a hit for a set cell and a miss otherwise, and keeps the cache valid |
| Cache.PossibleAnswerCached | wordle3.cc:158-165 | checking outcomes through the cache gives the verdict of the complete table, keeps the cache valid and counts at most one lookup per outcome |
| Cache.FilterAnswersCached | wordle3.cc:167-176 | filtering through the cache returns the same list, in the same order, as filtering with the complete table |
| Filter.MakeOutcome | wordle3.cc:119-128 | the outcome names the guess's table index and a code that decodes to the pattern |
| Filter.PossibleAnswerAll | gordle/gordle4.go:125-132 | a word is possible iff every outcome's code is the table entry of its guess against the word |
| Filter.PossibleAnswerAppend | wordle3.cc:158-165 | no outcomes rule nothing out, and a concatenation of outcome lists is the conjunction of its parts |
| Filter.FilterKeepsExactly | gordle/gordle4.go:138-146 | the filter keeps exactly the answers that are possible |
| Filter.FilterConcat | wordle2.cc:147-156 | filtering distributes over concatenation, so the original order is kept |
| Filter.FilterRefines | wordle3.cc:167-176 | filtering by more outcomes is filtering the earlier result again and never enlarges it |
| Filter.SelfConsistent | wordle3.cc:202-203 | an answer always survives the outcome its own feedback produces |
| Filter.SelectIsFilter | wordle3.cc:219-222 | the answers giving feedback c are exactly what `filter_answers` keeps for the outcome (guess, c) |
| Filter.BucketsGrouped | wordle3.cc:188-204 | every feedback group is non-empty and equals the filtered list for its own outcome, so a recursive search never gets an empty list; the group sizes add up to the number of answers |
| Filter.OutcomeGroupSplit | gordle/gordle4.go:170-185 | the group of code c is the filtered list for c, and the other groups together hold the rest of the answers |
| Filter.WinningOutcomeKeepsGuessWord | wordle3.cc:199-203 | the winning code keeps exactly the answers equal to the guess word |
| Partition.Insert | wordle3.cc:190 | counting one more item adds it to its key's group only, keeps keys distinct and groups non-empty, and grows the total by one |
| Partition.Group | wordle3.cc:219-222 | grouping gives one non-empty group per key, each holding exactly that key's items in order, and every item once |
| Partition.GroupMembers | wordle3.cc:219-222 | each group holds exactly the items selected by its key |
| Partition.SumSquaresBounds | gordle/gordle4.go:155-160 | with non-empty groups, the squared sizes add up to between the number of items and its square |
| Ranking.Sort | wordle3.cc:269-271 | the shortlist is sorted best first and is a permutation of its input |
| Ranking.SortHeadIsBest | wordle3.cc:273-275 | the head of the sorted list is an input entry and no input entry is strictly better |
| Ranking.KeepBelowComplete | wordle3.cc:258-264 | an entry is kept by the below-threshold filter iff it scores below the threshold |
| Ranking.KeepAboveComplete | wordle2.cc:199-205 | an entry is kept by the above-threshold filter iff it scores above the threshold |
| Ranking.ShortlistFirstOrBelowIs | wordle3.cc:258-264 | the minimising shortlist is the first entry followed by the later entries below the threshold |
| Ranking.ShortlistFirstOrBelowKeeps | gordle/gordle4.go:213-219 | the minimising shortlist always keeps the first entry and then exactly the later entries below the threshold |
| Ranking.FirstBestIsFirstExtremum | wordle3.cc:277-296 | the running choice ends with its initial value exactly when no candidate beats it; otherwise with the first candidate that is strictly better than the initial value and all earlier candidates and no worse than any later one |
| Search.TopGuesses | wordle3.cc:280-282 | at most 100 candidates are taken, the first entries of the sorted shortlist |
| Search.Worthwhile | wordle3.cc:256-263 | the next level's pool is the shortlist's guesses in pool order |
| Wordle3.Shallow | wordle3.cc:258-259 | one entry per pool guess, in pool order, each with a non-negative score; `Wordle3.ShallowEntry` states that the score is the guess's horizon score |
| Wordle3.ShallowEntry | wordle3.cc:258-259 | the entry for each pool guess pairs that guess with its score at the horizon (depth 0 of 0) |
| Wordle3.Kept | wordle3.cc:255-264 | the shortlist is non-empty and starts with the first guess of the pool |
| Wordle3.ShortlistKeepsFirstAndBelow | wordle3.cc:257-264 | the shortlist is the first pool guess with its horizon score, then exactly the later guesses scoring below 0.8·n |
| Wordle3.Rescore | wordle3.cc:280-287 | one entry per candidate, in candidate order, each with a non-negative score; `Wordle3.RescoreEntry` and `Wordle3.RescoreEntries` state that the score is the candidate's deep score |
| Wordle3.RescoreEntry | wordle3.cc:286-287 | the score of each re-scored candidate is that candidate's score at the current depth, over the worthwhile pool |
| Wordle3.RescoreEntries | wordle3.cc:280-287 | every candidate's re-score is its score at the current depth, over the worthwhile pool |
| Wordle3.ScoreGuess | wordle3.cc:183-212 | the expected number of answers left is non-negative |
| Wordle3.Contribution | wordle3.cc:194-210 | each group's weighted share is non-negative; it is only defined for a group that is its own non-empty filtered list, which is what keeps the assertion at the top of the deeper search from firing |
| Wordle3.BestGuess | wordle3.cc:245-297 | the score is non-negative; a guess, once set, is a table guess (it stays unset only when no candidate scores below the 1000000 sentinel); with one answer it is that answer's guess with score 0 |
| Wordle3.HorizonPickIsMinimum | wordle3.cc:269-275 | at the horizon the result is a shortlisted guess with its score, and no shortlisted guess scores lower |
| Wordle3.DeepPickIsFirstMinimum | wordle3.cc:277-296 | before the horizon the result is the first strict minimum of the deep scores of at most 100 best shortlisted guesses, starting from the 1000000 sentinel; it is unset exactly when none scores below the sentinel |
| Wordle3.ContributionAtHorizon | wordle3.cc:199-209 | at the horizon a group of c out of n answers adds c²/n, or nothing for the winning code |
| Wordle3.BucketSumAtHorizon | wordle3.cc:194-211 | at the horizon the groups add up to the sum of c²/n over the non-winning groups |
| Wordle3.ScoreGuessAtHorizon | wordle3.cc:183-212 | at the horizon the score is the sum of c²/n over the non-winning groups, whose sizes add up to n, and it is at most n |
| Wordle3.ScoreGuessNew | wordle3.cc:214-242 | the group-reusing scorer is non-negative |
| Wordle3.NewContribution | wordle3.cc:225-240 | each group's share, searched one level deeper on the group's own members, is non-negative |
| Wordle3.ScoreGuessNewAtHorizon | wordle3.cc:214-242 | at the horizon the group-reusing score is Σc²/n over all groups, the winning one included, and lies between 1 and n |
| Gordle.GetColors | gordle/gordle4.go:103-123 | the uncached lookup returns the packed single-pass feedback, below 683 |
| Gordle.FillRow | gordle/gordle4.go:350-352 | one row holds guess g's packed feedback against every answer, in order |
| Gordle.InitializeColorsTable | gordle/gordle4.go:347-355 | after the nested loop every entry is the packed feedback of its pair, below 683 |
| Gordle.ScoreGuess | gordle/gordle4.go:148-162 | the score lies between 1 and n for a non-empty answer list and is 0 for an empty one |
| Gordle.ScoreGuessIsMeanGroupSize | gordle/gordle4.go:148-162 | the score is Σc²/n over the feedback groups, whose sizes add up to n |
| Gordle.Shallow | gordle/gordle4.go:213-214 | every pool guess is paired with its shallow score, in pool order |
| Gordle.Kept | gordle/gordle4.go:210-219 | the shortlist is the first pool guess with its score, then exactly the later guesses scoring below 0.8·n |
| Gordle.AnswerGuesses | gordle/gordle4.go:272-276 | each answer is mapped to the guess index holding the same word |
| Gordle.Candidates | gordle/gordle4.go:269-279 | the sequential loop tries at most 100 table guesses |
| Gordle.CandidatesShape | gordle/gordle4.go:269-279 | with at most ten answers the loop tries the answers first and then the best shortlist entries; otherwise only the best shortlist entries; at most 100 in all |
| Gordle.Rescore | gordle/gordle4.go:280 | each tried guess is scored by steps, in order, non-negatively within the five-guess budget |
| Gordle.ScoreGuessSteps | gordle/gordle4.go:164-194 | the expected number of further guesses is non-negative while depth ≤ max depth ≤ 5 |
| Gordle.Contribution | gordle/gordle4.go:176-191 | each group's weighted share is non-negative within the five-guess budget; it is only defined for a group that is its own non-empty filtered list, so the deeper search never meets the fatal empty case |
| Gordle.BestGuess | gordle/gordle4.go:196-291 | the result is a table guess; with one answer it is that answer's guess with score 0; within the budget its score is non-negative |
| Gordle.HorizonPickIsMinimum | gordle/gordle4.go:224-230 | at the horizon the result is a shortlisted guess with its score, and no shortlisted guess scores lower |
| Gordle.DeepPickIsFirstMinimum | gordle/gordle4.go:268-290 | before the horizon the result is the first strict minimum of the step scores of the guesses the loop tries, starting from guess 0 with the 1000000 sentinel |
| Gordle.ContributionAtHorizon | gordle/gordle4.go:180-190 | at the horizon a group of c out of n answers adds (5 − depth)·c/n, or nothing for the winning code |
| Gordle.ScoreGuessStepsAtHorizon | gordle/gordle4.go:164-194 | at the horizon the score is (5 − depth) times the number of answers outside the winning group, over n |
| Wordle2.Shallow | wordle2.cc:199-200 | one entry per pool guess, in pool order, each with a non-negative score; `Wordle2.ShallowEntry` states that the score is the guess's horizon score |
| Wordle2.ShallowEntry | wordle2.cc:199-200 | the entry for each pool guess pairs that guess with its score at the horizon (depth 0 of 0) |
| Wordle2.Kept | wordle2.cc:196-205 | every shortlisted entry is a table guess scoring above 0.2·n |
| Wordle2.ShortlistKeepsAbove | wordle2.cc:199-205 | a pool guess is shortlisted, with its horizon score, iff that score is above 0.2·n |
| Wordle2.Rescore | wordle2.cc:225-232 | one entry per candidate, in candidate order, each with a non-negative score; `Wordle2.RescoreEntry` and `Wordle2.RescoreEntries` state that the score is the candidate's deep score |
| Wordle2.RescoreEntry | wordle2.cc:225-232 | the score of each re-scored candidate is that candidate's score at the current depth, over the worthwhile pool |
| Wordle2.RescoreEntries | wordle2.cc:225-232 | every re-scored entry pairs its candidate with that candidate's score at the current depth |
| Wordle2.ScoreGuess | wordle2.cc:163-184 | the expected number of answers eliminated is non-negative |
| Wordle2.Contribution | wordle2.cc:170-182 | each group's weighted share is non-negative |
| Wordle2.BestGuess | wordle2.cc:187-242 | the score is non-negative; with one answer the result is that answer's guess with score 0 |
| Wordle2.EmptyShortlistGivesFirstGuess | wordle2.cc:210-212 | with no guess above 0.2·n the result is guess 0 with score 0 |
| Wordle2.NoAnswersGivesFirstGuess | wordle2.cc:163-212 | an empty answer list gives guess 0 with score 0 |
| Wordle2.HorizonPickIsMaximum | wordle2.cc:214-220 | at the horizon the result is a shortlisted guess with its score, and no shortlisted guess scores higher |
| Wordle2.DeepPickIsFirstMaximum | wordle2.cc:222-241 | before the horizon the result is the first strict maximum above 0 of the deep scores of at most 100 best shortlisted guesses; it is unset exactly when none scores above 0 |
| Wordle2.ContributionAtHorizon | wordle2.cc:171-181 | at the horizon a group of c out of n answers adds c − c²/n |
| Wordle2.ScoreGuessAtHorizon | wordle2.cc:163-184 | at the horizon the score is n − Σc²/n, with group sizes adding up to n, and it is at most n − 1 |
| WordleStrings.KeyInjective | wordle.cc:40 | for five-letter words the memo key guess + answer names one pair only |
| WordleStrings.GetColors | wordle.cc:38-60 | the memoised lookup returns the uncached pattern, stores it under its own key only, and keeps every memo entry correct |
| WordleStrings.PossibleAnswerAll | wordle.cc:62-69 | a word is possible iff every outcome's pattern is what its guess gives against the word |
| WordleStrings.PossibleAnswerMemo | wordle.cc:62-69 | checking outcomes through the memo gives the pure verdict |
| WordleStrings.FilterKeepsExactly | wordle.cc:71-80 | the filter keeps exactly the possible answers |
| WordleStrings.FilterConcat | wordle.cc:71-80 | filtering distributes over concatenation, so the original order is kept |
| WordleStrings.FilterAnswersMemo | wordle.cc:71-80 | filtering through the memo returns the pure filter's list |
| WordleStrings.SelectIsFilter | wordle.cc:91-104 | the answers giving pattern c are exactly what `filter_answers` keeps for (guess, c) |
| WordleStrings.BucketsGrouped | wordle.cc:91-104 | every pattern group is non-empty and equals its filtered list; the sizes add up to n |
| WordleStrings.Shallow | wordle.cc:121-122 | one entry per pool guess, in pool order, each with a non-negative score; `WordleStrings.ShallowEntry` states that the score is the guess's horizon score |
| WordleStrings.ShallowEntry | wordle.cc:121-122 | the entry for each pool guess pairs that guess with its score at the horizon (depth 0 of 0) |
| WordleStrings.Kept | wordle.cc:120-126 | every shortlisted entry is a pool guess with a positive score |
| WordleStrings.ShortlistKeepsPositive | wordle.cc:121-126 | a pool guess is shortlisted, with its horizon score, iff that score is positive |
| WordleStrings.Rescore | wordle.cc:147-154 | one entry per candidate, in candidate order, each with a non-negative score; `WordleStrings.RescoreEntry` states that the score is the candidate's deep score over the full pool |
| WordleStrings.RescoreEntry | wordle.cc:147-154 | the score of each re-scored candidate is that candidate's score at the current depth, over the full pool |
| WordleStrings.ScoreGuess | wordle.cc:87-111 | the expected number of answers eliminated is non-negative |
| WordleStrings.Contribution | wordle.cc:97-109 | a group of c out of n answers adds at least c − c²/n, which is non-negative |
| WordleStrings.BestGuess | wordle.cc:113-164 | the result is a pool guess or the empty initial guess, with a non-negative score |
| WordleStrings.EmptyShortlistGivesFirstGuess | wordle.cc:131-133 | the shortlist is empty iff no pool guess scores above 0, and then the first pool guess comes back with score 0 |
| WordleStrings.FewAnswersGiveFirstGuess | wordle.cc:121-133 | with at most one answer the first pool guess comes back with score 0 |
| WordleStrings.HorizonPickIsMaximum | wordle.cc:135-141 | at the horizon the result is a pool guess with its positive horizon score, and no pool guess scores higher |
| WordleStrings.DeepScoreAtLeastShallow | wordle.cc:100-107 | searching deeper never lowers a guess's score |
| WordleStrings.DeepPickIsFirstMaximum | wordle.cc:143-163 | before the horizon the result is the first strict maximum above 0 of the deep scores of at most 100 best shortlisted guesses |
| WordleStrings.DeepPickIsPoolGuess | wordle.cc:143-163 | before the horizon the result is never the empty initial guess but a guess of the pool |
| WordleStrings.ContributionAtHorizon | wordle.cc:98-108 | at the horizon a group of c out of n answers adds c − c²/n |
| WordleStrings.ScoreGuessAtHorizon | wordle.cc:87-111 | at the horizon the score is n − Σc²/n (0 with no answers) and at most n − 1 |
| PyWordle.GetOutcomeIsColors | python/wordle.py:50-63 | on equal-length words `get_outcome` is the same single pass as the other programs, with '!' exactly where the letters agree |
| PyWordle.PossibleAnswer | python/wordle.py:20-45 | with no recorded pairs every word is possible |
| PyWordle.PossibleAnswerAll | python/wordle.py:22-45 | a word is possible iff every zipped (guess, outcome) pair allows it |
| PyWordle.PossibleAnswerAppend | python/wordle.py:20-45 | the verdict over concatenated records is the conjunction of the parts |
| PyWordle.PositionPass | python/wordle.py:28-36 | the positional pass succeeds iff '!' sits exactly where guess and word agree, and then it has collected the '!'/'+' letters and the '-' letters |
| PyWordle.CountCheck | python/wordle.py:38-40 | the check passes iff the word holds at least as many copies of every letter as its '!'/'+' marks |
| PyWordle.MissCheck | python/wordle.py:42-44 | the check passes iff no '-' letter occurs in the word more often than its '!'/'+' marks |
| PyWordle.PairAllowsLoop | python/wordle.py:26-44 | one pair's checks, run in the program's order, decide exactly the three rules |
| PyWordle.PossibleAnswerLoop | python/wordle.py:20-45 | the pair-by-pair loop decides exactly `possible_answer` |
| PyWordle.OwnOutcomeKeepsPositionAndMissRules | python/wordle.py:28-44 | the pass's own feedback always satisfies the positional rule and the '-' rule |
| PyWordle.ScoreGuessIsExpectedEliminated | python/wordle.py:65-72 | the score is n − Σc²/n over the outcome groups, whose sizes add up to n; it lies between 0 and n − 1, and it is 0 with no answers |
| Vectors.ColorsOfSameWord | go/gordle4_test.go:12-28 | abbey, thorn, other and tacit against themselves give "!!!!!" |
| Vectors.ColorsReastThorn | go/gordle4_test.go:13 | reast against thorn gives "+---+" |
| Vectors.ColorsThrobThorn | go/gordle4_test.go:14 | throb against thorn gives "!!++-" |
| Vectors.ColorsOrateThorn | go/gordle4_test.go:15 | orate against thorn gives "++-+-" |
| Vectors.ColorsRoastThorn | go/gordle4_test.go:16 | roast against thorn gives "++--+" |
| Vectors.ColorsCourtThorn | go/gordle4_test.go:17 | court against thorn gives "-+-!+" |
| Vectors.ColorsReastOther | go/gordle4_test.go:19 | reast against other gives "++--+" |
| Vectors.ColorsTuteeOther | go/gordle4_test.go:20 | tutee against other gives "+--!-" |
| Vectors.ColorsReastTacit | go/gordle4_test.go:22 | reast against tacit gives "--+-!" |
| Vectors.ColorsDoughTacit | go/gordle4_test.go:23 | dough against tacit gives "-----" |
| Vectors.ColorsTapisTacit | go/gordle4_test.go:24 | tapis against tacit gives "!!-!-" |
| Vectors.ColorsQuailTacit | go/gordle4_test.go:25 | quail against tacit gives "--+!-" |
| Vectors.ColorsPeonyTacit | go/gordle4_test.go:26 | peony against tacit gives "-----" |
| Vectors.ColorsMagicTacit | go/gordle4_test.go:27 | magic against tacit gives "-!-!+" |
| Vectors.GoPauseIsPossible | go/gordle4_test.go:51-55 | in any complete table of the test words, "pause" is possible under crane "--+-!" and mauls "-!!-+" |
| Vectors.GoAcornIsNotPossible | go/gordle4_test.go:56-60 | "acorn" is not possible under the same outcomes |
| Vectors.GoTabooIsNotPossible | go/gordle4_test.go:61-65 | "taboo" is not possible under taboo "-!-!-" |
| Vectors.GoWagonIsPossible | go/gordle4_test.go:66-70 | "wagon" is possible under taboo "-!-!-" |
| Vectors.StringsCraneMauls | wordle.cc:190-195 | on words, "pause" is possible and "boron" is not under crane "--+-!" and mauls "-!!-+" |
| Vectors.StringsTaboo | wordle.cc:197-201 | on words, "haloo" is not possible and "haloc" is under taboo "-!-!-" |
| Vectors.SinglePassDoubleCounts | wordle3.cc:142-152 | geese against those gives "-+-!!", claiming the answer's one 'e' twice |
| Vectors.SinglePassFailsCountRule | python/wordle.py:38-40 | the rule-based filter rejects "those" under the feedback the pass gives it for "geese" |
| Vectors.PythonHalocIsPossible | python/wordle.py:75 | "haloc" is possible under taboo "-!-!-" by the three rules |

## Left out

- File loading and table set-up I/O (`load_file`, `read_file`, `initialize_tables`, python's module-level reads and answer filtering): the word tables are parameters; the set-up guarantees are stated as `Words.ValidTables`.
- All printed output, and the drivers `solve`, `play`, `test2`, `simulate_game` and `main`: they are glue around `filter_answers` and `best_guess`.
- The goroutine fan-out at depth 0 of gordle/gordle4.go:234-267 and python's multiprocessing pool, because they are concurrency. Only the sequential candidate loop is modelled; it differs from the concurrent one only in the order ties are met.
- Floating-point rounding of probabilities, scores, thresholds (0.8, 0.2), the 0.001 step cost and the 1000000 sentinel: scores are exact reals.
- The unstable tie order of `std::sort` and `sort.Slice`: a stable insertion sort is used, and only sortedness, the permutation and the extremal head are stated.
- Hash-map iteration order in the scorers: groups come in order of first occurrence, and the exact sums do not depend on the order.
- The cache hit-rate report and the 64-bit counter width: the counters are unbounded naturals.
- `Test_filter_answers` of go/gordle4_test.go, because it depends on the real word lists.
- The `test()` functions of wordle3.cc and wordle2.cc on index tables: wordle3.cc's cases are the Go cases under the same packing (`Vectors.GoPauseIsPossible` and its neighbours); wordle2.cc's are not restated under the shift-after packing.
- wordle3.cc's `test4`, which looks up abbey against itself: it follows from `Vectors.ColorsOfSameWord` and `Codec.AllHitCode`, but is not stated as a lemma of its own.
- Words.LookupGuess: the fatal path for a word missing from the table is a precondition, not a modelled result.
- Words.LookupAnswer: the same.
- Codec.ColorsIndex: a character other than the three symbols is the fatal case, so the loop requires a complete pattern; `Codec.ParseColors` models the fatal case as a missing result.
- Wordle3.BestGuess: the program asserts a non-empty answer list, and the model requires it. It also requires a non-empty pool. At the horizon an empty pool is fatal, because the program reads the first entry of an empty shortlist (wordle3.cc:274). Below the horizon the program would return its uninitialised guess with score 1000000, and that result is not modelled. Every caller passes a non-empty pool: the full guess list, or the worthwhile guesses of the level above, which always keep that level's first pool guess.
- Gordle.BestGuess: an empty answer list is the fatal case and is a precondition, and so is a non-empty pool. At the horizon an empty pool is fatal, because the program reads the first entry of an empty shortlist (gordle/gordle4.go:229). Below the horizon the candidate loop does not run, and the program returns guess 0 with score 1000000 (gordle/gordle4.go:268-290); that result is not modelled. Every caller passes a non-empty pool: the full guess list, or the worthwhile guesses of the level above, which always keep that level's first pool guess.
- Gordle.ScoreGuessSteps: non-negativity is only stated for depth ≤ max depth ≤ 5, because beyond the budget 5 − depth is negative and so is the score.
- WordleStrings.BestGuess: the pool must be non-empty, because the program reads its first guess when nothing is shortlisted.
- WordleStrings.GetColors and the rest of the string variant: words are required to have five letters, because the program indexes five positions.
- Cache.GetColors: the model's feedback values are those of the complete table `codes`, which `Codec.Faithful` ties to the colouring pass; nothing else about memory layout is modelled.
- wordle3.cc's `lookup_colors` of a code whose two-bit digit is 3 leaves the string's initial blank at that position; `Codec.Decode` models this, but no property is stated about such codes.
- gordle/gordle4.go's `lookup_colors` starts from a rune slice of zeros, so a digit 3 leaves a NUL character rather than a blank: that string is not modelled, and `Codec.Decode` agrees with the Go function only on codes whose digits are 0, 1 or 2 (every code `Codec.Encode` produces).
- Words are sequences of characters, one letter per position. The C++ programs index the bytes of a `std::string`, gordle/gordle4.go's `get_colors` reads bytes while its `get_letter_counts` counts runes, and python/wordle.py indexes code points; these agree, and agree with the model, only when every word is ASCII. The model assumes ASCII word lists and does not show what a multi-byte letter does to the Go program's counts.

# Français B2 — quiz assembler, answer matcher and weak-point ledger

Français B2 is a French-course trainer that ships as two programs: a Next.js web
app and an older Streamlit app written in Python. This project models three parts
they share and proves properties of them:

- **The tolerant answer matcher** (`matchAnswer` / `match_answer`). It compares a
  learner's answer with the expected one by climbing a seven-tier ladder:
  1. exact match;
  2. case-insensitive match;
  3. match after whitespace normalisation;
  4. match without trailing punctuation;
  5. match without accents, which rejects the answer with an accent hint;
  6. a similarity ratio of at least 0.85, which rejects it with a spelling hint;
  7. otherwise, rejection without a hint.

  Modules `Text`, `Matching` (TypeScript) and `PyMatching` (Python).
- **The quiz assembler** (`generateUnitQuiz` / `generate_unit_quiz` and
  `generateExamBlanc` / `generate_exam_blanc`). It covers:
  - the question keys;
  - sampling and shuffling;
  - the proportional allocation of a 40-question budget over the unit's pools;
  - the selection that favours questions the learner failed before ("weak points");
  - the vocabulary, expression, conjugation and rewrite questions;
  - the mock exam: 20 vocabulary questions, 5 grammar questions from different
    units, and one writing prompt.

  Modules `Quiz` (shared building blocks), `UnitQuiz` (TypeScript) and `PyQuiz`
  (Python).
- **The weak-point ledger and scores.**
  - The web app's state updaters `addScore`, `addWeakPoint` and `reduceWeakPoint`
    are pure functions from the previous state to the next (module `Ledger`).
  - The Python session store is a class whose list of weak points is updated in
    place by `add_weak_point` and `reduce_weak_point` and read back by
    `get_weak_items_for_unit` (module `SessionState`).

`Catalog` holds the course records and `Seqs` holds generic sequence lemmas.

How the model represents the source:
- Random draws (`Math.random`, `random.sample`, `random.shuffle`,
  `random.choice`) are nondeterministic choices. Every contract holds for every
  outcome.
- Similarity ratios are exact fractions, so `ratio >= 0.85` is the integer
  comparison `20·num >= 17·den`.
- Both ports are modelled side by side. Where they differ, a `Port` value
  (`TypeScript` | `Python`) selects the behaviour:
  - rounding: `Math.round` vs `round`;
  - `max` ties: the last key vs the first key;
  - mock-exam de-duplication: type, source and unit vs the whole record.

Where the descriptions and the code disagree, the model follows the code:
- `allocate` / `_allocate` does not always hand out exactly
  `min(target, total)` questions. The trimming loop stops once every pool is
  down to 1, so the sum can stay above the target.
  - `Quiz.AllocSum` states the exact bound.
  - `Quiz.AllocOvershootTypeScript` and `Quiz.AllocOvershootPython` give
    instances.
- The "casefold" tier of the TypeScript matcher is `toLowerCase`. An upper-case
  answer containing `ß` is therefore not accepted (`Matching.MatchUpperCaseSharpS`),
  whereas the Python matcher accepts it (`PyMatching.MatchSharpS`). The same
  holds for the micro sign `µ` in the TypeScript matcher
  (`Matching.MatchUpperCaseMicro`).
- `stripTrailingPunct` is not idempotent (`Matching.StripTrailingPunctNotIdempotent`).

## Model

| member | source | states |
|---|---|---|
| Matching.NormalizeWhitespaceShape | francais-b2-next/src/lib/matching.ts:14-16 | the result has no leading or trailing whitespace, only single plain spaces inside, and is empty exactly when the input is all whitespace |
| Matching.NormalizeWhitespaceIdempotent | francais-b2-next/src/lib/matching.ts:14-16 | normalising twice equals normalising once |
| Matching.StripTrailingPunct | francais-b2-next/src/lib/matching.ts:19-21 | the result is a prefix of the input that does not end in whitespace |
| Matching.StripTrailingPunctNotIdempotent | francais-b2-next/src/lib/matching.ts:19-21 | "a. ." becomes "a.", and a second pass gives "a": one pass does not strip all final punctuation |
| Matching.StripAccents | francais-b2-next/src/lib/matching.ts:24-26 | no combining diacritic of U+0300..U+036F is left |
| Matching.StripAccentsConcat | francais-b2-next/src/lib/matching.ts:24-26 | accent stripping distributes over concatenation |
| Matching.StripAccentsLetters | francais-b2-next/src/lib/matching.ts:24-26 | on text without stray marks, each character is replaced by its base letter: none is dropped or added |
| Matching.LcsSymmetric | francais-b2-next/src/lib/matching.ts:32-57 | the longest-common-subsequence length does not depend on argument order |
| Matching.LcsSelf | francais-b2-next/src/lib/matching.ts:32-57 | a string's LCS with itself is its length |
| Matching.LcsStep | francais-b2-next/src/lib/matching.ts:42-49 | the LCS of two prefixes satisfies the recurrence the inner loop computes |
| Matching.Ratio | francais-b2-next/src/lib/matching.ts:32-36 | the ratio lies in [0, 1]; it is 1 for two empty strings and 0 when exactly one is empty |
| Matching.RatioSymmetric | francais-b2-next/src/lib/matching.ts:32-57 | the ratio does not depend on argument order |
| Matching.RatioSelf | francais-b2-next/src/lib/matching.ts:32-57 | a string has ratio 1 with itself |
| Matching.SequenceMatcherRatio | francais-b2-next/src/lib/matching.ts:32-57 | the two-row dynamic program returns exactly 2·LCS/(|a|+|b|), and 1 for two empty strings |
| Matching.FillRow | francais-b2-next/src/lib/matching.ts:43-49 | the inner loop fills row i of the LCS table from row i − 1 |
| Matching.MatchAnswer | francais-b2-next/src/lib/matching.ts:74-116 | an identical answer is accepted; an accepted answer carries no hint; the hint is empty, the accent hint or the spelling hint |
| Matching.MatchAnswerTiers | francais-b2-next/src/lib/matching.ts:74-116 | the verdict is acceptance when the lower-cased, whitespace-normalised, punctuation-stripped forms are equal; otherwise the accent hint when they agree without accents, the spelling hint when their ratio is at least 0.85, and no hint otherwise |
| Matching.MatchCorrectIff | francais-b2-next/src/lib/matching.ts:74-99 | an answer is accepted if and only if the two normalised forms are equal |
| Matching.MatchAcceptsComparable | francais-b2-next/src/lib/matching.ts:87-99 | equal normalised forms are accepted |
| Matching.LowerNormalizeWhitespace | francais-b2-next/src/lib/matching.ts:88-89 | lower-casing commutes with whitespace normalisation |
| Matching.MatchUpperCase | francais-b2-next/src/lib/matching.ts:80-85 | the upper-case form of an answer without ß or µ is accepted |
| Matching.MatchUpperCaseSharpS | francais-b2-next/src/lib/matching.ts:80-85 | "SS" for the expected "ß" is rejected without a hint |
| Matching.MatchUpperCaseMicro | francais-b2-next/src/lib/matching.ts:80-85 | the micro sign upper-cases to the Greek capital mu, and "Μ" for the expected "µ" is rejected without a hint |
| Matching.MatchAccentExample | francais-b2-next/src/lib/matching.ts:101-106 | "ecole" for "école" is rejected with the accent hint |
| Matching.MatchAccentOnly | francais-b2-next/src/lib/matching.ts:101-106 | different normalised forms that agree without accents get the accent hint |
| Matching.MatchNoTier | francais-b2-next/src/lib/matching.ts:114-115 | when no tier applies, the answer is rejected without a hint |
| Matching.ComparableWord | francais-b2-next/src/lib/matching.ts:87-97 | a word of lower-case letters is its own normalised form |
| PyMatching.NormalizeWhitespace | lib/matching.py:20-22 | the result has no leading or trailing Python whitespace and only single plain spaces inside |
| PyMatching.SubTrailingPunct | lib/matching.py:14 | a final newline survives the substitution, because `$` also matches just before it |
| PyMatching.StripTrailingPunct | lib/matching.py:25-27 | the result is a prefix of the input that does not end in whitespace |
| PyMatching.StripTrailingPunctFinalNewline | lib/matching.py:25-27 | a single final newline makes no difference to the result |
| PyMatching.FinalNewlineDiffers | lib/matching.py:25-27 | taken alone, the Python punctuation strip gives "a" on "a.\n" where the TypeScript one gives "a."; inside the matchers whitespace normalisation removes newlines first, so the matchers do not differ on this |
| PyMatching.StripAccents | lib/matching.py:30-33 | no non-spacing mark (Mn) is left |
| PyMatching.StripAccentsMembers | lib/matching.py:30-33 | the result keeps exactly the non-Mn characters of the decomposition, and no more of each |
| Text.NfdFilterConcat | lib/matching.py:30-33 | decomposing and then dropping the characters of any class (Mn here, U+0300..U+036F in the TypeScript port) distributes over concatenation |
| PyMatching.StripAccentsAgree | lib/matching.py:30-33 | when every mark in the decomposition lies in U+0300..U+036F, both ports strip accents alike |
| PyMatching.MatchAnswer | lib/matching.py:36-86 | an identical answer is accepted; an accepted answer carries no hint; the hint is one of the three |
| PyMatching.CaseFoldNormalizeWhitespace | lib/matching.py:63-64 | casefolding commutes with whitespace normalisation |
| PyMatching.MatchAnswerTiers | lib/matching.py:36-86 | the same four-outcome ladder over the casefolded normalised forms, with the ratio as a parameter |
| PyMatching.MatchCorrectIff | lib/matching.py:52-72 | an answer is accepted if and only if the normalised forms are equal |
| PyMatching.MatchAccentOnly | lib/matching.py:74-78 | different forms that agree without accents get the accent hint |
| PyMatching.MatchByRatio | lib/matching.py:80-86 | past the accent tier, the verdict depends only on whether the ratio reaches 0.85 |
| PyMatching.MatchSharpS | lib/matching.py:56-60 | "SS" for the expected "ß" is accepted, because casefold maps both to "ss" |
| Quiz.Prefix | francais-b2-next/src/lib/quiz.ts:35-37 | `slice(0, n)` keeps min(n, length) leading characters |
| Quiz.ConjKeyInjective | francais-b2-next/src/lib/quiz.ts:31-33 | when verb and tense contain no underscore, two conjugation keys are equal if and only if verb, tense and person are |
| Quiz.ConjKeyCollision | francais-b2-next/src/lib/quiz.ts:31-33 | with underscores in the verb or tense, different items can share a key |
| Quiz.TransKeyIff | francais-b2-next/src/lib/quiz.ts:35-37 | when neither type contains a bar `\|`, two transform keys are equal if and only if the types and the first 30 characters of the sources are |
| Quiz.TransKeyCollision | francais-b2-next/src/lib/quiz.ts:35-37 | with a bar in the type, transforms of different types can share a key |
| Quiz.Sample | francais-b2-next/src/lib/quiz.ts:42-50 | it returns min(n, length) elements drawn without replacement, and the whole pool (permuted) when n covers it |
| Quiz.Shuffle | francais-b2-next/src/lib/quiz.ts:53-59 | the in-place Fisher-Yates shuffle permutes the array |
| Quiz.Shuffled | lib/quiz.py:99-100 | a shuffled copy is a permutation of the list |
| Quiz.RoundShareNearest | francais-b2-next/src/lib/quiz.ts:78 | the rounded share is a nearest integer; at an exact half it is the upper one in TypeScript and the even one in Python |
| Quiz.RoundHalfUp | francais-b2-next/src/lib/quiz.ts:78 | `Math.round` of a non-negative fraction rounds halves up |
| Quiz.RoundHalfEven | lib/quiz.py:48 | `round` of a non-negative fraction rounds halves to even |
| Quiz.ArgMaxIsMax | francais-b2-next/src/lib/quiz.ts:84-86 | the chosen pool has a maximal value; TypeScript's `reduce` takes the last maximum and Python's `max` the first |
| Quiz.CappedShare | francais-b2-next/src/lib/quiz.ts:77-78 | a pool's rounded share, capped with `min`, is at most the pool |
| Quiz.Initial | francais-b2-next/src/lib/quiz.ts:76-79 | each initial share is at most its pool |
| Quiz.TopUp | francais-b2-next/src/lib/quiz.ts:82-93 | topping up keeps each share within its pool |
| Quiz.TrimLowers | francais-b2-next/src/lib/quiz.ts:96-104 | trimming never raises a share |
| Quiz.Allocate | francais-b2-next/src/lib/quiz.ts:69-107 | the three loops compute the allocation function |
| Quiz.InitialShares | francais-b2-next/src/lib/quiz.ts:76-79 | the first loop computes the initial shares |
| Quiz.TopUpLoop | francais-b2-next/src/lib/quiz.ts:82-93 | the top-up loop computes the top-up function |
| Quiz.TrimLoop | francais-b2-next/src/lib/quiz.ts:96-104 | the trimming loop computes the trim function |
| Quiz.TopUpSum | francais-b2-next/src/lib/quiz.ts:82-93 | topping up from at most the target reaches exactly min(target, total pool) |
| Quiz.TrimResult | francais-b2-next/src/lib/quiz.ts:96-104 | trimming reaches the target, or stops above it with every share at most 1; it never empties a non-empty share |
| Quiz.AllocBounds | francais-b2-next/src/lib/quiz.ts:69-73 | one share per pool, each within its pool, all zero when the pools are empty |
| Quiz.AllocSum | francais-b2-next/src/lib/quiz.ts:69-107 | the shares add up to min(target, total), or exceed the target only with every share at most 1 |
| Quiz.AllocFillsShortfall | francais-b2-next/src/lib/quiz.ts:81-93 | when the initial shares fall short, the result adds up to exactly min(target, total) |
| Quiz.AllocTrimFloor | francais-b2-next/src/lib/quiz.ts:96-104 | trimming takes no share below 1 that was at least 1 |
| Quiz.AllocOvershootTypeScript | francais-b2-next/src/lib/quiz.ts:69-107 | pools [1, 1] with target 1 get [1, 1], which is over the target |
| Quiz.AllocTieBreakPython | lib/quiz.py:35-71 | pools [1, 1] with target 1 get [1, 0] in Python, where rounding and ties differ |
| Quiz.AllocOvershootPython | lib/quiz.py:35-71 | pools [1, 1, 1] with target 2 get [1, 1, 1], which is over the target |
| Quiz.SplitWeakAndNormal | francais-b2-next/src/lib/quiz.ts:115-136 | the result holds min(weakQuota, weak items, quota) weak items and min(quota − those, normal items) normal ones, all drawn without replacement from the items, and every weak item when they all fit |
| Quiz.SelectionWithinQuota | francais-b2-next/src/lib/quiz.ts:115-136 | a selection never exceeds the quota or the pool |
| Quiz.SelectionFills | francais-b2-next/src/lib/quiz.ts:126-131 | the quota is filled whenever the normal items can make up for the weak items the weak quota leaves out, that is when quota ≤ min(weakQuota, weak items, quota) + normal items |
| Quiz.SelectionNoWeak | francais-b2-next/src/lib/quiz.ts:115-136 | with no weak item in the pool, the selection is min(quota, pool) items drawn from the pool, none of them weak |
| Quiz.SplitUnderfillsWithoutNormalItems | francais-b2-next/src/lib/quiz.ts:126-131 | with at least 5 items, all of them weak, quota 5 and weak quota 2, just 2 questions are selected |
| Quiz.SelectionAll | francais-b2-next/src/lib/quiz.ts:207-214 | when the quota and the weak quota both cover the pool, the selection is a permutation of the pool |
| UnitQuiz.KeysOfMember | francais-b2-next/src/lib/quiz.ts:188-192 | a key is collected for a kind if and only if some weak point of that kind carries it |
| UnitQuiz.WeakKeysMember | francais-b2-next/src/lib/quiz.ts:178-192 | a key is a weak key of a kind if and only if some weak point of the current unit and that kind carries it |
| UnitQuiz.CollectWeakKeys | francais-b2-next/src/lib/quiz.ts:178-192 | the loop builds the four weak-key sets |
| UnitQuiz.WeakQuota | francais-b2-next/src/lib/quiz.ts:195-197 | the quota is the least integer that is at least 40% of n |
| UnitQuiz.DefinitionsMember | francais-b2-next/src/lib/quiz.ts:231-236 | a definition is collected if and only if some vocabulary item of some unit has it |
| UnitQuiz.CollectDefinitions | francais-b2-next/src/lib/quiz.ts:231-236 | the nested loops collect every definition of every unit, in order |
| UnitQuiz.BuildMcq | francais-b2-next/src/lib/quiz.ts:243-254 | a multiple-choice question has the word's prompt, the correct definition as answer, that definition once among the options, and min(3, pool) distractors drawn from the other definitions |
| UnitQuiz.McqCount | francais-b2-next/src/lib/quiz.ts:239 | the count is at least 1, and a quarter of the vocabulary share (rounded down) from 4 questions on |
| UnitQuiz.VocabQuestions | francais-b2-next/src/lib/quiz.ts:238-264 | one question per selected item: multiple-choice for the first nMcq, fill-in for the rest |
| UnitQuiz.QuestionKeys | francais-b2-next/src/lib/quiz.ts:267-292 | each question carries its item's key; the expression hint is absent only for an empty example in TypeScript |
| UnitQuiz.UnitAlloc | francais-b2-next/src/lib/quiz.ts:160-175 | the vocabulary, conjugation and transform shares stay within their pools |
| UnitQuiz.GenerateUnitQuiz | francais-b2-next/src/lib/quiz.ts:145-300 | an empty unit gives an empty quiz; otherwise the quiz is assembled from weak-biased selections within the allocation |
| UnitQuiz.AssembledAllExpressions | francais-b2-next/src/lib/quiz.ts:207-214 | every expression of the unit appears exactly once |
| UnitQuiz.AssembledShape | francais-b2-next/src/lib/quiz.ts:199-264 | each kind stays within its share, and exactly the first McqCount vocabulary questions are multiple-choice |
| UnitQuiz.AssembledMcqOptions | francais-b2-next/src/lib/quiz.ts:243-247 | each multiple-choice question lists its answer once, and every other option is some unit's definition |
| UnitQuiz.ExamTransformsFrom | francais-b2-next/src/lib/quiz.ts:325-327 | every pooled grammar question is a transform of some unit, tagged with that unit's number |
| UnitQuiz.CollectExamPools | francais-b2-next/src/lib/quiz.ts:313-328 | the loops pool every unit's vocabulary and transforms, in order |
| UnitQuiz.FirstPass | francais-b2-next/src/lib/quiz.ts:333-348 | at most 5 questions, from distinct units; if fewer than 5, every unit is covered |
| UnitQuiz.SecondPass | francais-b2-next/src/lib/quiz.ts:349-363 | it extends the first pass to at most 5 questions without duplicates; if fewer than 5, every distinct question is included |
| UnitQuiz.DistinctUnitsIdents | francais-b2-next/src/lib/quiz.ts:337-348 | questions from distinct units are distinct questions |
| UnitQuiz.PickGrammar | francais-b2-next/src/lib/quiz.ts:332-363 | min(5, distinct transforms) distinct questions, covering at least min(5, units) units |
| UnitQuiz.ExamGrammarFull | francais-b2-next/src/lib/quiz.ts:332-363 | with transforms from at least 5 units, the exam has 5 grammar questions from 5 different units |
| UnitQuiz.GenerateExamBlanc | francais-b2-next/src/lib/quiz.ts:309-373 | min(20, pool) vocabulary questions drawn without replacement; the grammar pick as above; the writing prompt is one of the prompts, and absent exactly when there are none |
| PyQuiz.PyKeysOfMember | lib/quiz.py:156-159 | a key is collected under a label if and only if some weak point with that type label carries it |
| PyQuiz.CollectWeakKeys | lib/quiz.py:146-159 | the loop builds the four weak-key sets for the given labels |
| PyQuiz.AsWrittenKeysMissRecorded | lib/quiz.py:153-159 | when weak points carry the labels the quiz page records, every set looked up under "vocab", "expr", "conj" or "trans" is empty |
| PyQuiz.RecordedKeysFound | lib/quiz.py:153-159 | with the recorded labels, every weak point of the unit is found under its kind |
| PyQuiz.MapLoop | lib/quiz.py:216-247 | each builder loop yields one question per selected item, in order |
| PyQuiz.PyUnitAlloc | lib/quiz.py:134-144 | the four shares stay within their pools |
| PyQuiz.GenerateUnitQuiz | lib/quiz.py:107-254 | an empty unit gives an empty quiz; otherwise the quiz is assembled from the four-pool allocation with the weak quota on every kind, the weak keys being looked up under the labels passed in: `QuizLabels` ("vocab", "expr", "conj", "trans") is the code as written, `RecordedLabels` the corrected lookup |
| PyQuiz.AsWrittenUnbiased | lib/quiz.py:146-214 | with the labels as written and weak points labelled as the quiz page records them, every kind is a plain sample of min(share, pool) items and no selected item is weak |
| PyQuiz.PyAssembledShape | lib/quiz.py:134-214 | whatever the labels, each kind, expressions included, stays within its share; exactly the first McqCount vocabulary questions are multiple-choice |
| PyQuiz.PyAssembledExpressions | lib/quiz.py:216-225 | whatever the labels, each expression question comes from a unit expression and always carries its example as the hint |
| PyQuiz.GenerateExamBlanc | lib/quiz.py:260-307 | it fails exactly when there are no writing prompts; otherwise the same vocabulary bounds, and grammar questions distinct as whole records |
| PyQuiz.DuplicateTestsDiffer | lib/quiz.py:294-299 | two transforms differing only in the answer count as one question in TypeScript and as two in Python |
| Ledger.AddScore | francais-b2-next/src/contexts/AppContext.tsx:121-126 | the unit's list gains pct at its end; the other units are unchanged |
| Ledger.AddScoreCommutes | francais-b2-next/src/contexts/AppContext.tsx:121-126 | recording scores for two different units commutes |
| Ledger.FindIndex | francais-b2-next/src/contexts/AppContext.tsx:132-134 | the first position with the same type, unit and key, or −1 when there is none |
| Ledger.RemoveAt | francais-b2-next/src/contexts/AppContext.tsx:160 | filtering out one index keeps every other entry, in order |
| Ledger.AddWeakPointEffect | francais-b2-next/src/contexts/AppContext.tsx:129-146 | the identity's count rises by one; an existing entry is bumped in place, keeping its identity and text, and every other position is unchanged; a new identity is appended with count 1 after the unchanged list |
| Ledger.AddWeakPointOthers | francais-b2-next/src/contexts/AppContext.tsx:129-146 | every other identity's count is unchanged |
| Ledger.AddWeakPointKeepsOthers | francais-b2-next/src/contexts/AppContext.tsx:129-146 | the entries of all other identities are unchanged and in the same order |
| Ledger.AddWeakPointValid | francais-b2-next/src/contexts/AppContext.tsx:129-146 | one entry per identity with positive counts is preserved |
| Ledger.ReduceWeakPointEffect | francais-b2-next/src/contexts/AppContext.tsx:149-169 | on a valid ledger: an absent identity changes nothing; a count of 1 removes exactly that entry (the list is `RemoveAt` of it); a larger count falls by one in place with every other position unchanged |
| Ledger.ReduceWeakPointOthers | francais-b2-next/src/contexts/AppContext.tsx:149-169 | every other identity's count is unchanged |
| Ledger.ReduceWeakPointKeepsOthers | francais-b2-next/src/contexts/AppContext.tsx:149-169 | on any ledger, the entries of all other identities are unchanged and in the same order |
| Ledger.ReduceWeakPointValid | francais-b2-next/src/contexts/AppContext.tsx:149-169 | one entry per identity with positive counts is preserved |
| Ledger.AddThenReduce | francais-b2-next/src/contexts/AppContext.tsx:129-169 | on a valid ledger, a failure followed by a success on the same question restores the ledger exactly |
| Ledger.AddThenReduceFresh | francais-b2-next/src/contexts/AppContext.tsx:129-169 | on any ledger, valid or not, a failure followed by a success on a question it does not hold restores it exactly |
| Ledger.AddThenReduceNeedsValid | francais-b2-next/src/contexts/AppContext.tsx:129-169 | without positive counts the round trip fails: an entry with count 0 is removed |
| SessionState.FindKey | lib/state.py:79-80 | the first position whose `_wp_key` is the identity, or −1 |
| SessionState.AddedEffect | lib/state.py:77-89 | the identity's count rises by one (a missing count reads as 1); an existing entry is bumped in place, keeping its identity and item, with every other position unchanged; otherwise an entry with count 1 and at most the first 80 characters of the item is appended to the unchanged list |
| SessionState.AddedOthers | lib/state.py:77-89 | every other identity's count is unchanged |
| SessionState.AddedKeepsOthers | lib/state.py:77-89 | the entries of all other identities are unchanged and in the same order |
| SessionState.AddedValid | lib/state.py:77-89 | one entry per identity with counts of at least 1 is preserved |
| SessionState.ReducedEffect | lib/state.py:92-100 | on a valid store: an absent identity changes nothing; a count of 1 pops exactly that entry; a larger count falls by one in place with every other position unchanged |
| SessionState.ReducedOthers | lib/state.py:92-100 | every other identity's count is unchanged |
| SessionState.ReducedKeepsOthers | lib/state.py:92-100 | on any store, the entries of all other identities are unchanged and in the same order |
| SessionState.ReducedValid | lib/state.py:92-100 | one entry per identity with counts of at least 1 is preserved |
| SessionState.AddedThenReduced | lib/state.py:77-100 | on a valid store, a failure followed by a success on the same question restores the store exactly |
| SessionState.AddedThenReducedFresh | lib/state.py:77-100 | on any store, valid or not, a failure followed by a success on a question it does not hold restores it exactly |
| SessionState.MissingCountDefaults | lib/state.py:80 | an entry without `fail_count` sorts as 0, counts 2 after one more failure, and is removed by one success |
| SessionState.WeakPointStore.AddWeakPoint | lib/state.py:77-89 | the scan-and-update loop leaves the list described by AddedEffect |
| SessionState.WeakPointStore.ReduceWeakPoint | lib/state.py:92-100 | the scan-and-pop loop leaves the list described by ReducedEffect |
| SessionState.InsertDescMultiset | lib/state.py:106 | inserting adds exactly the new element to the list's elements |
| SessionState.InsertDescSorted | lib/state.py:106 | inserting into a list sorted by descending count keeps it sorted |
| SessionState.InsertDescRuns | lib/state.py:106 | inserting an element puts it at the front of its own count's run and leaves the other runs unchanged |
| SessionState.SortDescCorrect | lib/state.py:106 | the sort orders by descending count, is a permutation, and keeps equal counts in their stored order |
| SessionState.WeakPointStore.WeakItemsForUnit | lib/state.py:103-107 | only the unit's weak points, each once, highest count first, ties in stored order |

## Left out

- Persistence, the user interface, text-to-speech, language-model grading and the
  Supabase back end are not part of this model. The same goes for the React and
  Streamlit state machinery around the ledgers.
- The floating-point computations are modelled with exact integers:
  - `size / totalPool * target` followed by `Math.round` / `round`. The model
    rounds the exact fraction, so a share whose float product lands beside an
    exact half may round differently;
  - `Math.ceil(n * 0.4)`, which is exact for the integers that occur;
  - the ratio threshold 0.85.
- PyMatching.MatchAnswer: `difflib.SequenceMatcher.ratio` is a parameter, not a
  model of difflib's matching-blocks algorithm.
- The case mappings are small tables: ASCII, Latin-1 (including ß, and the
  micro sign µ with the Greek mu it maps to), Œ/œ and Ÿ/ÿ, in lower case,
  upper case and casefold. The canonical decomposition covers only the accented
  letters of French. Other characters pass through both unchanged.
- Non-spacing marks (Mn) are taken to be U+0300..U+036F together with a few
  further combining blocks, not the full Unicode category.
- Strings are sequences of code points. `slice(0, 30)` in the TypeScript port
  counts UTF-16 code units, and the model does not distinguish the two.
- Matching.MatchUpperCase: stated only for answers without ß and µ. Those two
  do not survive upper-casing then lower-casing, and
  `Matching.MatchUpperCaseSharpS` and `Matching.MatchUpperCaseMicro` show that
  such answers are rejected.
- Quiz.Sample: `n` is a natural number. Callers never pass a negative count,
  and `slice(0, count)` with a negative count is not modelled.
- Quiz.Sample, Quiz.Shuffle, UnitQuiz.GenerateExamBlanc: the contracts hold for
  every outcome of the random generator. Uniformity of the draws is not
  modelled.
- PyQuiz.GenerateExamBlanc: vocabulary questions are the four fields the
  TypeScript port keeps. The Python port copies every field of the vocabulary
  item, and the extra fields are not modelled.
- SessionState.WeakPointStore.WeakItemsForUnit: returns values. The source's
  list holds the stored dictionaries themselves (lib/state.py:105-107), so a
  later in-place `add_weak_point` or `reduce_weak_point` shows through a list a
  caller still holds; that aliasing is not modelled.
- Records whose `type`, `unit` or `key` field is missing are not modelled;
  `.get` defaults are modelled only for `fail_count`. The web app's
  `WeakPointType` union makes the four kinds a datatype there.
- The answer keys `_key` and the weak-point `item` text of the Python quiz page
  are inputs. How the page derives them is not part of this model.

## Findings

| source | as written | input that shows it | evidently intended | confidence | as-written member | corrected member |
|---|---|---|---|---|---|---|
| lib/quiz.py:153-159 | weak keys are looked up under the type labels "vocab", "expr", "conj" and "trans" | any weak point recorded by the quiz page (views/unit.py:226-243), which records the labels "vocabulary", "expression", "conjugation" and "grammar": no weak key is ever found, so the spaced-repetition bias never applies | look up the labels the page records, as the TypeScript port does | high (not executed) | PyQuiz.AsWrittenUnbiased | PyQuiz.RecordedKeysFound |

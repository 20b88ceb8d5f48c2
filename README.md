# EnglishQuize quiz engine in Dafny

This project models the quiz session engine of the EnglishQuize React app.
The engine has two parts:

- **The play page** (`src/pages/Play.jsx`). It builds the question list of a
  game from the content records. Vocabulary, spelling and grammar records map
  one-to-one onto questions. Word-match records are grouped by category, one
  match question per category. The page then judges answers and keeps five
  session fields: the question index, the score, the selected answer, the
  correctness flag and the completion flag.
- **The word-match round** (`src/components/WordMatchGame.jsx`). It holds two
  shuffled pools, words and meanings, and a per-word record of the latest
  judgement. It judges a word dropped on a meaning and removes a correctly
  matched pair from both pools. It reports completion once both pools are
  empty.

Files:

- `wrappers.dfy`: `Option`, for JavaScript's `null` and for "no result".
- `js_text.dfy`: the two pieces of JavaScript string behaviour the page uses.
  These are `toLowerCase`, restricted to ASCII letters, and the character set
  that `trim` strips (ECMAScript WhiteSpace and LineTerminator).
- `questions.dfy`: the content records, the question shapes and the
  per-game question lists. It holds the category grouping twice: once as a
  declarative function (`Grouped`), and once as the `reduce` loop of the
  program (`GroupByCategory`), proved equal to the function.
- `session.dfy`: the game-name lookup, the two answer judgements, and the
  class `Session`. Its methods are the three answer handlers, the blank-input
  guard of the spelling form, and the delayed "settle" steps.
- `word_match.dfy`: the shuffle as a permutation argument, the positional
  judgement of a drop, and the class `WordMatchGame`. The class holds the two
  pools, the pairing map, the completion flag and the pending removal. The
  file ends with the finding below and the value-based judgement that avoids
  it.

Timers are explicit steps. `Settle`/`SettleMatch` are the 1500 ms and 2000 ms
callbacks of the page. `RemovePair` is the 1000 ms removal of the word-match
round. The shuffle is an arbitrary permutation given to the constructor.

Once the game is completed the page renders only the result screen
(`src/pages/Play.jsx:109-140`), which replaces the game screen and with it
every answer handler. `HandleAnswer`, `HandleSpellingSubmit`, `SubmitSpelling`
and `CompleteMatch` therefore require a session that is not completed.

## Model

| member | source | states |
|---|---|---|
| JsText.Lower | src/pages/Play.jsx:82 | `toLowerCase` keeps the length and folds each character on its own (only 'A'..'Z' change) |
| JsText.LowerCharOfSpace | src/pages/Play.jsx:82 | case folding turns a character into a space exactly when it already is one |
| JsText.TrimStart | src/pages/Play.jsx:252 | the result is a suffix of the input and everything cut off before it is whitespace; it is empty or starts with a non-whitespace character; it is empty exactly when the input is all whitespace |
| JsText.TrimEnd | src/pages/Play.jsx:252 | the result is a prefix of the input and everything cut off after it is whitespace; it is empty or ends with a non-whitespace character; it is empty exactly when the input is all whitespace |
| JsText.Trim | src/pages/Play.jsx:252 | `trim` never lengthens the input, and what it returns neither starts nor ends with whitespace |
| JsText.TrimEmptyIffBlank | src/pages/Play.jsx:252 | `input.trim()` is empty (so `!input.trim()` holds) exactly when every character is ECMAScript whitespace or a line terminator, the empty input included |
| JsText.TrimIsInnerSlice | src/pages/Play.jsx:252 | what `trim` keeps is a contiguous slice of the input whose two ends are not whitespace, and everything cut off on either side is whitespace |
| Questions.VocabularyQuestion | src/pages/Play.jsx:21-26 | a vocabulary record becomes a choice question carrying the record's options, correct index and definition |
| Questions.SpellingQuestionOf | src/pages/Play.jsx:27-32 | a spelling record becomes a spelling question whose target is the record's word, with its phonetic |
| Questions.GrammarQuestion | src/pages/Play.jsx:33-38 | a grammar record becomes a choice question with the record's question, options, correct index and explanation |
| Questions.Grouped | src/pages/Play.jsx:39-53 | the declarative grouping: one match question per distinct category, question k belonging to category k in order of first appearance and holding that category's words and meanings in record order |
| Questions.CategoriesOf | src/pages/Play.jsx:39-53 | the categories that get a group are pairwise distinct, and a category gets one exactly when some record has it |
| Questions.FirstIndexOf | src/pages/Play.jsx:39-53 | the index of the first record of a present category: that record has the category and no earlier one does |
| Questions.GroupedSnocExistingAt | src/pages/Play.jsx:40-43 | appending a record of a present category changes that category's question by one pushed word and meaning, and every other question not at all |
| Questions.GroupedSnocExisting | src/pages/Play.jsx:40-43 | a record whose category already has a group adds its word and meaning to the end of that group and changes no other group |
| Questions.GroupedSnocNew | src/pages/Play.jsx:44-50 | a record of a new category appends a group holding only its word and meaning |
| Questions.GroupedShape | src/pages/Play.jsx:39-53 | there is one group per distinct category, ordered by first appearance, each with as many words as meanings |
| Questions.FirstAppearanceOrder | src/pages/Play.jsx:39-53 | an earlier group's category first appears in an earlier record than a later group's |
| Questions.GroupPairsComeFromRecords | src/pages/Play.jsx:42-48 | in each group, word i and meaning i are the word and meaning of one record of that category |
| Questions.GroupSizesSum | src/pages/Play.jsx:39-53 | the group sizes add up to the number of records: grouping neither loses nor invents a record |
| Questions.FindCategory | src/pages/Play.jsx:40 | `acc.find`: the first group of the category, or "none" exactly when no group has it |
| Questions.GroupByCategory | src/pages/Play.jsx:39-53 | the in-place `reduce`/`push` loop yields exactly the declarative grouping |
| Questions.QuestionsFor | src/pages/Play.jsx:20-54 | every question of a game's list has that game's shape (choice, spelling or match) |
| Questions.QuestionsForRecords | src/pages/Play.jsx:20-38 | a game has questions exactly when it has records; vocabulary, spelling and grammar have one question per record, in record order, carrying the record's options and correct index (the word itself for spelling) |
| Questions.BuildQuestions | src/pages/Play.jsx:20-54 | the list built for a game, with the match list built by the grouping loop, is the game's question list |
| PlaySession.ParseGameType | src/pages/Play.jsx:56 | a game found under a route name is the game of that name |
| PlaySession.ParseGameTypeExact | src/pages/Play.jsx:98-107 | the route parameter names a game exactly when it is one of "vocabulary", "spelling", "grammar", "match", and each name names its own game |
| PlaySession.SpellingCorrect | src/pages/Play.jsx:82 | an exact spelling is always accepted, and an accepted spelling has the target's length |
| PlaySession.IsBlank | src/pages/Play.jsx:252 | `!input.trim()` holds exactly when every character of the input is whitespace or a line terminator |
| PlaySession.SpellingCorrectIff | src/pages/Play.jsx:82 | a spelling is correct exactly when it has the target's length and agrees with it character by character up to ASCII case |
| PlaySession.PaddedSpellingRejected | src/pages/Play.jsx:82 | nothing is trimmed before judging: a leading or trailing space makes the answer wrong when the target has no space |
| PlaySession.Start | src/pages/Play.jsx:98-107 | an unknown game name opens no session; a known one opens a fresh session on the game's question list, at question 0 with score 0, nothing selected and not completed |
| PlaySession.Session.constructor | src/pages/Play.jsx:12-17 | the initial session state: index 0, score 0, no answer, no verdict, not completed |
| PlaySession.Session.HandleAnswer | src/pages/Play.jsx:59-69 | with an answer already selected nothing changes; otherwise the answer is recorded, judged correct exactly when it equals the question's correct index, and the score rises by exactly 10 when correct (grammar included) and otherwise stays |
| PlaySession.Session.HandleSpellingSubmit | src/pages/Play.jsx:81-86 | the submission is judged by case-insensitive equality with the target and the score rises by exactly 15 when correct; there is no already-answered guard, so a second submission is judged again |
| PlaySession.Session.SubmitSpelling | src/pages/Play.jsx:251-255 | blank or whitespace-only input changes nothing; any other input is submitted untrimmed and judged as above |
| PlaySession.Session.CompleteMatch | src/pages/Play.jsx:218-219 | a finished match round adds exactly 12 when all correct and nothing otherwise |
| PlaySession.Session.Settle | src/pages/Play.jsx:70-78 | before the last question the index rises by exactly 1 and the answer and verdict are cleared; on the last question the game completes and the index stays; the score never changes, and the index stays in range |
| PlaySession.Session.SettleMatch | src/pages/Play.jsx:220-226 | the same advance-or-complete rule after a match round, clearing nothing |
| WordMatch.Permute | src/components/WordMatchGame.jsx:75-76 | the shuffled pool has one entry per entry of the order; `PermuteKeepsMultiset` proves it keeps the elements |
| WordMatch.PermuteKeepsMultiset | src/components/WordMatchGame.jsx:75-76 | shuffling a list along any permutation keeps every element, as often as it occurs |
| WordMatch.LastPosition | src/components/WordMatchGame.jsx:75-76 | some entry of a permutation names the last position, and without it the rest is a permutation of the positions before |
| WordMatch.PermuteStep | src/components/WordMatchGame.jsx:75-76 | without the entry naming the last position a permutation still orders the other elements, and the whole shuffle keeps the elements whenever that smaller shuffle does |
| WordMatch.PermuteSplit | src/components/WordMatchGame.jsx:75-76 | a shuffle is the shuffle of all but the last element with the last one inserted, so it keeps the elements when that smaller shuffle does |
| WordMatch.IndexOf | src/components/WordMatchGame.jsx:99-101 | `indexOf`: the first position holding the value, or -1 exactly when the value is absent |
| WordMatch.CorrectMeaningIndex | src/components/WordMatchGame.jsx:99-101 | the index a drop must hit is -1 exactly when the word is unknown or has no meaning; otherwise it is the first position in the question's original meaning list holding the word's meaning, never after the word's own position |
| WordMatch.CorrectIndexIsWordPosition | src/components/WordMatchGame.jsx:99-103 | with distinct meanings, the index a drop must hit is the word's position in the question's original word list, whatever the pool looks like |
| WordMatch.IsPairingDrop | src/components/WordMatchGame.jsx:85-91 | only a word dropped onto a meaning is judged; a drop on nothing or from a meaning is ignored |
| WordMatch.RemoveAt | src/components/WordMatchGame.jsx:117-118 | `filter((_, i) => i !== index)` drops exactly that position and keeps the others in order |
| WordMatch.RemoveAtMultiset | src/components/WordMatchGame.jsx:117-118 | removing one position takes exactly that one element out |
| WordMatch.RemovalKeepsConsistent | src/components/WordMatchGame.jsx:114-119 | removing a correctly judged pair keeps the pools within the question's lists, shrinking together, keeps every word that left a pool judged correct, and keeps an unmatchable word unmatchable |
| WordMatch.WordMatchGame.constructor | src/components/WordMatchGame.jsx:73-80 | the pools start as permutations of the question's words and meanings (same elements, same counts), with no pairings and not complete |
| WordMatch.WordMatchGame.HandleDragEnd | src/components/WordMatchGame.jsx:82-122 | only a word dropped on a meaning is judged; the word's entry is overwritten with the dropped meaning, its position and the positional verdict, other entries stay, the pools stay, and a correct verdict schedules that pair's removal; any other drop changes nothing |
| WordMatch.WordMatchGame.RemovePair | src/components/WordMatchGame.jsx:114-120 | exactly the two judged positions leave their pools, the rest keep their order, the pairings stay |
| WordMatch.AllCorrect | src/components/WordMatchGame.jsx:126 | `Object.values(matchedPairs).every(pair => pair.isCorrect)`: every recorded judgement, as a map value, is correct |
| WordMatch.WordMatchGame.CheckCompletion | src/components/WordMatchGame.jsx:124-134 | completion fires exactly when both pools are empty and some drop was judged, and reports whether every recorded judgement is correct; it cannot fire while a word is unmatchable, and when it fires the report is "all correct" |
| WordMatch.PositionalJudgementStrandsWord | src/components/WordMatchGame.jsx:99-103 | a concrete round where a drop on the wrong meaning is judged correct and the other word can then never be matched |
| WordMatch.PositionalJudgementStrandsUnshuffled | src/components/WordMatchGame.jsx:99-103 | a concrete unshuffled round where "cat" is rightly matched first and "dog" is then stranded, so the positional rule fails without any shuffle |
| WordMatch.PositionalIsValueInOriginalOrder | src/components/WordMatchGame.jsx:99-103 | for distinct meanings in their original, unshuffled order, the positional verdict agrees with comparing meanings; `PositionalJudgementStrandsWord` and `PositionalJudgementStrandsUnshuffled` show it can disagree otherwise |
| WordMatch.InitialPoolsAligned | src/components/WordMatchGame.jsx:73-80 | for distinct words with one meaning each, freshly shuffled pools hold exactly the meanings of the words |
| WordMatch.ValueJudgementProgress | src/components/WordMatchGame.jsx:99-103 | judged by meaning, every word left in aligned pools has a meaning in the pool that is judged correct |
| WordMatch.ValueJudgementKeepsAligned | src/components/WordMatchGame.jsx:114-119 | judged by meaning, removing a correct pair keeps the pools aligned |
| WordMatch.AlignedPoolsSameSize | src/components/WordMatchGame.jsx:116-119 | aligned pools have the same size, so judged by meaning both empty together |

## Left out

- Rendering, animation, styling and icons. They change no state.
- The drag-and-drop library's sensors and collision detection. A drop is a `DragEndEvent` naming the dragged item and the item under it, if any.
- `HandleDragEnd` requires the ids it receives to be on screen. Only rendered items can be dragged or hit, so their indices are in range.
- Real time. Each delayed callback is an explicit step. `Settle` and `SettleMatch` read the current index, not the one their closure captured. This matters only for a second spelling submission: in the program both of its timers set the index to the same captured value plus one (src/pages/Play.jsx:88-89), so the index moves forward once and the game does not complete when that index is the second to last; in the model two `Settle` steps move it forward twice or complete the game.
- `HandleDragEnd` requires that no removal is pending. Removal is atomic, so the program's 1000 ms window is not modelled. In that window a second correct drop can carry indices that are stale once the first pair is removed. It is also the only way the program can finish a round with a wrong judgement left in `matchedPairs` (a word re-dropped wrongly before its pair leaves): in the model a completed round always reports all correct, so the "Good Try!" screen (src/components/WordMatchGame.jsx:144-149) and the no-points branch of src/pages/Play.jsx:219 are unreachable.
- Stale closures over `score` in the handlers. The model adds to the current score.
- React effects firing again: a second `onComplete` from the completion effect, and a reshuffle when the page re-renders with a new question object.
- `Math.random` and the comparator sort. The shuffle is any permutation passed to the constructor.
- The floating-point progress percentage.
- Full Unicode `toLowerCase`. Only ASCII letters are folded.
- The content file itself. Records are abstract parameters.
- `navigate` and page reload. So is the "Game not found" screen, which the model represents as `Start` returning no session.
- Game names that are inherited object keys (such as "constructor"). In JavaScript they would make the lookup succeed without giving a list.
- `PlaySession.Start` requires the game to have at least one record. The program reads the first question without checking, so an empty list is a caller error.
- The spelling form's own `submitted`/`input` state and its reset effect. Only the blank-input guard and the submission are modelled.
- `showResult` in the word-match round. It is always set together with `isComplete`.
- The empty `correct` list in each match group. It is never read.
- The home and learn pages advertise 20 XP for grammar. The play page awards 10, and the model follows the play page.
- The other pages and components. They hold static data and layout only.

## Findings

| source | as written | input that shows it | evidently intended | confidence | as-written member | corrected member |
|---|---|---|---|---|---|---|
| src/components/WordMatchGame.jsx:99-103 | a drop is correct when the meaning's position in the current, shuffled and shrinking pool equals the original position of the word's meaning | words ["cat", "dog"], meanings ["feline", "canine"], meaning pool shuffled to ["canine", "feline"]: "cat" on pool position 0 ("canine") is judged correct; after removal the pool is ["feline"] and "dog" needs position 1, so it can never be matched and the round never completes. No shuffle is needed: with the pool unshuffled, ["feline", "canine"], "cat" on position 0 is judged correct, the pool becomes ["canine"], and "dog" still needs position 1. Under the positional rule a round finishes only if every drop lands on the position equal to the word's original index, which in practice means matching from the highest original index down | a drop is correct when the dropped meaning is the word's meaning | not executed | WordMatch.PositionalJudgementStrandsWord | WordMatch.ValueJudgementProgress |

The class `WordMatchGame` keeps the as-written positional rule, because it
models the program's behaviour. `CheckCompletion` proves the effect: a round
with an unmatchable word never completes. The value-based judgement is
`IsCorrectDropByValue`. `ValueJudgementProgress`, `ValueJudgementKeepsAligned`
and `AlignedPoolsSameSize` prove that under it every remaining word can always
be matched and both pools empty together.

# Vocabulary quiz engine

A model of the quiz engine of a browser vocabulary game. The game loads word
lists grouped by day, and the player picks a day. A session then asks up to ten
questions drawn from that day's list. Each question shows an English meaning
and offers the right word among up to four wrong ones. The engine counts right
answers and ends the session once every question has been asked.

The model has two modules.

- `FisherYates` (`fisher_yates.dfy`) models `shuffleArray`, the in-place
  Durstenfeld shuffle. `ShuffleArray` is a method on an `array` that swaps
  elements in a descending loop. It is proved equal to the specification
  function `Shuffled`. `Math.random` is replaced by a sequence of draws `js`,
  where `js[i]` is the index drawn for position `i` and lies in `[0, i]`.
  The lemmas prove two things: every outcome is a permutation of the input,
  and every permutation is the outcome of some legal draws.
- `Quiz` (`quiz.dfy`) models the rest:
  - the `Entry` datatype `(word, englishMeaning)`;
  - the filter of other words and the choice list of `getChoices`, as the
    method `GetChoices` and the function `Choices`;
  - the session questions of `startGame`, as the function `Questions`;
  - the module-level state `currentDayWords`, `currentQuestionIndex` and
    `score`, as the class `QuizGame`. Its methods `StartGame`, `HandleChoice`
    and `NextQuestion` reassign these fields as the source does.

`QuizGame` has two ghost fields. `answered` says whether the current question
has been answered, and `outcomes` records whether each answer was right.
`Valid()` ties them to the real fields: at most one answer per question, and
`score` is the number of right answers. The source does not enforce one
answer per question. It only disables the choice buttons after a click. So
`HandleChoice` has no precondition, and it keeps `Valid()` only when it is
called on an unanswered, existing question.

Facts about the code that the model keeps:

- The choice list can repeat an entry when the day's list holds the same
  other-word entry twice. The filter drops only entries with the correct word
  and draws from the rest as they are. `ChoicesMayRepeatAnEntry` shows such a
  case. `ChoicesHoldCorrectOnce` and `ChoicesDrawnFromDay` state what the code
  does guarantee: the correct entry appears exactly once, and the other choices
  are drawn without replacement.
- A second answer to the same question is not refused; see `HandleChoice`
  above.
- The minimum of four (script.js:50) counts entries, not distinct words. A day
  of four entries that share words yields fewer than four choices. `Choices`
  gives the exact size.
- Restarting only switches screens. The end screen shows `score` and the
  question count.

## Model

| member | source | states |
|---|---|---|
| `FisherYates.ShuffleArray` | script.js:153-159 | the loop permutes the array in place, and the array left behind is `Shuffled` of its old contents; the same array object is returned |
| `FisherYates.Shuffled` | script.js:153-159 | the shuffle keeps the length, and an array of length 0 or 1 is left unchanged because the loop body never runs |
| `FisherYates.ShuffledPermutes` | script.js:153-159 | the shuffled contents hold the same multiset of elements as the input, so the result is a permutation |
| `FisherYates.Swap` | script.js:156 | one swap of `array[i]` and `array[j]` keeps the length |
| `FisherYates.ShuffleDown` | script.js:154-157 | the loop iterations for positions `i` down to 1 keep the length |
| `FisherYates.ShuffleDownPermutes` | script.js:154-157 | each run of loop iterations keeps the multiset of elements |
| `FisherYates.SwapPermutes` | script.js:156 | one swap of `array[i]` and `array[j]` keeps the multiset of elements |
| `FisherYates.ShuffleDownKeepsSuffix` | script.js:154-156 | each iteration fixes its position for good: the iterations for positions `i`..1 leave every position above `i` alone |
| `FisherYates.ShuffleDownReadsDrawsUpTo` | script.js:154-155 | the iterations for positions `i`..1 read only the draws for those positions |
| `FisherYates.ReachDown` | script.js:154-156 | any rearrangement of the first `i + 1` elements that keeps the rest is produced by the iterations for positions `i`..1 with suitable legal draws |
| `FisherYates.EveryPermutationReachable` | script.js:154-156 | every permutation of the input is the outcome of the shuffle for some sequence of draws with `0 <= j <= i` |
| `Quiz.Prefix` | script.js:55 | `slice(0, n)` returns `min(n, length)` elements |
| `Quiz.PrefixIsSubMultiset` | script.js:55 | a slice takes each element at most as often as the whole array holds it, and slicing beyond the length keeps everything |
| `Quiz.OtherWords` | script.js:94 | the filter returns at most as many entries as it is given |
| `Quiz.OtherWordsCounts` | script.js:94 | the filter keeps every entry whose word differs from the correct word, with its multiplicity, and keeps no entry with the correct word |
| `Quiz.Questions` | script.js:55 | the questions of a session, a shuffled copy of the day's list cut to 10, number `min(10, n)` for a day of `n` entries; this is the value `StartGame` stores |
| `Quiz.QuestionsDrawnFromDay` | script.js:55 | a session has `min(10, n)` questions drawn without replacement from the day's `n` entries; with at most 10 entries, every entry is asked |
| `Quiz.QuizGame.constructor` | script.js:16-20 | the state before any session: no questions, index 0, score 0 |
| `Quiz.QuizGame.StartGame` | script.js:46-61 | a missing day or one with fewer than 4 entries is refused and nothing changes; otherwise the questions are `Questions` of a shuffled copy of the day's list, the index and score are 0, and the stored lists are not modified |
| `Quiz.ChoicesMultiset` | script.js:92-101 | the choices are the correct entry and the pushed distractors, in some order |
| `Quiz.Choices` | script.js:92-101 | the choice list: the correct entry and the first four of the shuffled other-word entries, shuffled again; a question offers `1 + min(4, number of other-word entries)` choices; this is the value `GetChoices` returns |
| `Quiz.ChoicesHoldCorrectOnce` | script.js:92-101 | the correct entry appears exactly once, and no other choice carries the correct word |
| `Quiz.ChoicesDrawnFromDay` | script.js:91-101 | every choice other than the correct entry comes from the day's full list, and no entry appears more often than the list holds it (drawing without replacement) |
| `Quiz.ChoicesMayRepeatAnEntry` | script.js:94-98 | with a duplicated entry in the day's list, the choices can show that entry twice |
| `Quiz.GetChoices` | script.js:90-102 | the filter, the shuffle of a fresh copy, the bounded push loop and the final shuffle produce exactly the choice list `Choices` |
| `Quiz.CorrectAnswers` | script.js:106-110 | the number of right answers is at most the number of answers, with equality exactly when every answer was right |
| `Quiz.CorrectAnswersAppend` | script.js:106-110 | one more answer adds one to the count of right answers exactly when it is right |
| `Quiz.QuizGame.HandleChoice` | script.js:104-110 | the score goes up by exactly 1 when the selected word equals the correct word and is unchanged otherwise; the questions and the index are untouched; on an unanswered question the score stays the count of right answers |
| `Quiz.QuizGame.NextQuestion` | script.js:132-139 | the index goes up by exactly 1, and the game ends exactly when the index is no longer below the question count; after an answered question it ends exactly when every question has been asked, and then the score is at most the question count |

## Left out

- Loading the word data (`loadWords`, script.js:23-35) is left out. It is a
  network fetch and JSON parsing. `QuizGame` takes the loaded day lists in its
  constructor.
- `populateDaySelect` (script.js:37-44) is left out. It only builds the HTML of
  the day selector.
- The DOM work is left out: element lookups, screen switching, question and
  score text, buttons, feedback colours and listeners. This covers
  `displayQuestion` except its call to `getChoices`, the feedback branch of
  `handleChoice`, `disableChoiceButtons`, `endGame` and `restartGame`.
  `HandleChoice` returns which feedback branch runs. The disabled buttons
  appear only as the ghost `answered` flag.
- `alert`, `console.warn` and `console.error` (script.js:32, 51, 57) are left
  out. They are messages only. The refusal in `StartGame` is its `false` result.
- `Math.random` and `Math.floor` (script.js:155) are replaced by injected draws
  `0 <= j <= i`. The model does not state that the shuffle is uniform, since
  that is a statement about probabilities. `EveryPermutationReachable` covers
  the deterministic part: no permutation is impossible.
- `GetChoices` takes the day's list as a parameter. The source reads it from
  the selected day (`allWords[daySelect.value]`, script.js:91).
- JavaScript numbers are doubles. The model uses unbounded integers because
  every length, index and score here stays far below 2^53, and up to 2^53 a
  double holds every integer exactly. The shuffle's indices run up to the length
  of the day's list less one, which nothing bounds by 10, but a list that long
  would not fit in memory.

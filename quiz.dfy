/** The quiz engine of the vocabulary game: the questions of a session, the
    answer choices of a question, scoring and advancing. The presentation
    (screens, buttons, feedback text) is not modelled; the state that the
    engine keeps at module level is the `QuizGame` class below. */
module Quiz {
  import opened FisherYates

  /** One vocabulary entry of a day's list: the word and its English meaning. */
  datatype Entry = Entry(word: string, englishMeaning: string)

  /** `questionsPerGame`: a session asks at most this many questions. */
  const QuestionsPerGame: nat := 10

  /** A day needs at least this many entries before a session can start. */
  const MinWordsPerDay: nat := 4

  /** A question offers at most this many wrong answers beside the right one. */
  const MaxDistractors: nat := 4

  function Min(a: int, b: int): int {
    if a <= b then a else b
  }

  /** `s.slice(0, n)`: the first `n` elements, or all of them when there are fewer. */
  function Prefix<T>(s: seq<T>, n: nat): (r: seq<T>)
    ensures |r| == Min(n, |s|)
  {
    s[..Min(n, |s|)]
  }

  /** A prefix takes each element at most as often as the whole sequence holds it. */
  lemma PrefixIsSubMultiset<T>(s: seq<T>, n: nat)
    ensures multiset(Prefix(s, n)) <= multiset(s)
    ensures n >= |s| ==> Prefix(s, n) == s
  {
    var k := Min(n, |s|);
    assert s == s[..k] + s[k..];
  }

  /** `words.filter(w => w.word !== correct.word)`. */
  function OtherWords(words: seq<Entry>, correct: Entry): (r: seq<Entry>)
    ensures |r| <= |words|
  {
    if words == [] then []
    else (if words[0].word != correct.word then [words[0]] else []) + OtherWords(words[1..], correct)
  }

  /** The filter keeps every entry whose word differs from the correct one, as
      many times as the day's list holds it, and drops all the others. */
  lemma {:induction false} OtherWordsCounts(words: seq<Entry>, correct: Entry)
    ensures forall x :: multiset(OtherWords(words, correct))[x]
                        == if x.word != correct.word then multiset(words)[x] else 0
  {
    if words != [] {
      OtherWordsCounts(words[1..], correct);
      assert words == [words[0]] + words[1..];
      assert multiset(words) == multiset{words[0]} + multiset(words[1..]);
    }
  }

  /** The questions of a session over the day's list `dayWords`, as `startGame`
      sets them: a shuffled copy of the list, cut to `QuestionsPerGame`. */
  function Questions(dayWords: seq<Entry>, js: seq<nat>): (r: seq<Entry>)
    requires Draws(js, |dayWords|)
    ensures |r| == Min(QuestionsPerGame, |dayWords|)
  {
    Prefix(Shuffled(dayWords, js), QuestionsPerGame)
  }

  /** A session has `min(10, n)` questions, drawn from the day's list without
      replacement; when the day has at most 10 entries every one is asked. */
  lemma QuestionsDrawnFromDay(dayWords: seq<Entry>, js: seq<nat>)
    requires Draws(js, |dayWords|)
    ensures |Questions(dayWords, js)| == Min(QuestionsPerGame, |dayWords|)
    ensures multiset(Questions(dayWords, js)) <= multiset(dayWords)
    ensures |dayWords| <= QuestionsPerGame ==> multiset(Questions(dayWords, js)) == multiset(dayWords)
  {
    ShuffledPermutes(dayWords, js);
    PrefixIsSubMultiset(Shuffled(dayWords, js), QuestionsPerGame);
  }

  /** The answer choices `getChoices` offers for `correct`: the correct entry
      followed by the first four of the shuffled other words of the day, the
      whole list shuffled once more. `js` drives the first shuffle and `ks` the
      second, which never sees more than five entries. A question offers the
      correct entry and as many of the day's other-word entries as there are,
      up to four. */
  function Choices(correct: Entry, dayWords: seq<Entry>, js: seq<nat>, ks: seq<nat>): (r: seq<Entry>)
    requires Draws(js, |dayWords|) && Draws(ks, 1 + MaxDistractors)
    ensures |r| == 1 + Min(MaxDistractors, |OtherWords(dayWords, correct)|)
  {
    var others := OtherWords(dayWords, correct);
    Shuffled([correct] + Prefix(Shuffled(others, js), MaxDistractors), ks)
  }

  /** The choices are the correct entry and the drawn distractors, in some order. */
  lemma ChoicesMultiset(correct: Entry, dayWords: seq<Entry>, js: seq<nat>, ks: seq<nat>)
    requires Draws(js, |dayWords|) && Draws(ks, 1 + MaxDistractors)
    ensures multiset(Choices(correct, dayWords, js, ks))
            == multiset{correct} + multiset(Prefix(Shuffled(OtherWords(dayWords, correct), js), MaxDistractors))
  {
    var drawn := Prefix(Shuffled(OtherWords(dayWords, correct), js), MaxDistractors);
    ShuffledPermutes([correct] + drawn, ks);
  }

  /** The distractors are drawn without replacement from the day's list: no
      entry other than the correct one is offered more often than the list
      holds it. */
  lemma ChoicesDrawnFromDay(correct: Entry, dayWords: seq<Entry>, js: seq<nat>, ks: seq<nat>)
    requires Draws(js, |dayWords|) && Draws(ks, 1 + MaxDistractors)
    ensures forall x :: x != correct ==> multiset(Choices(correct, dayWords, js, ks))[x] <= multiset(dayWords)[x]
  {
    var others := OtherWords(dayWords, correct);
    ChoicesMultiset(correct, dayWords, js, ks);
    ShuffledPermutes(others, js);
    PrefixIsSubMultiset(Shuffled(others, js), MaxDistractors);
    OtherWordsCounts(dayWords, correct);
  }

  /** Exactly one choice carries the correct word, and it is the correct entry. */
  lemma ChoicesHoldCorrectOnce(correct: Entry, dayWords: seq<Entry>, js: seq<nat>, ks: seq<nat>)
    requires Draws(js, |dayWords|) && Draws(ks, 1 + MaxDistractors)
    ensures multiset(Choices(correct, dayWords, js, ks))[correct] == 1
    ensures forall x :: x in Choices(correct, dayWords, js, ks) && x.word == correct.word ==> x == correct
  {
    var r := Choices(correct, dayWords, js, ks);
    var others := OtherWords(dayWords, correct);
    var drawn := Prefix(Shuffled(others, js), MaxDistractors);
    ChoicesMultiset(correct, dayWords, js, ks);
    ShuffledPermutes(others, js);
    PrefixIsSubMultiset(Shuffled(others, js), MaxDistractors);
    OtherWordsCounts(dayWords, correct);
    assert multiset(drawn)[correct] == 0;
    forall x | x in r && x != correct
      ensures x.word != correct.word
    {
      assert x in multiset(r);
      assert multiset(others)[x] > 0;
    }
  }

  /** The choices are a list, not a set of words: when the day's list holds the
      same other entry twice, both copies can be offered. */
  lemma ChoicesMayRepeatAnEntry()
    ensures var apple := Entry("apple", "a fruit");
            var bus := Entry("bus", "a vehicle");
            Choices(apple, [apple, bus, bus], [0, 0, 0], [0, 0, 0, 0, 0]) == [bus, bus, apple]
  {
    var apple := Entry("apple", "a fruit");
    var bus := Entry("bus", "a vehicle");
    assert OtherWords([apple, bus, bus], apple) == [bus, bus] by {
      assert [apple, bus, bus][1..] == [bus, bus] && [bus, bus][1..] == [bus];
    }
    assert Shuffled([bus, bus], [0, 0, 0]) == [bus, bus] by {
      assert Swap([bus, bus], 1, 0) == [bus, bus];
    }
    assert Prefix([bus, bus], MaxDistractors) == [bus, bus];
    assert Shuffled([apple, bus, bus], [0, 0, 0, 0, 0]) == [bus, bus, apple] by {
      assert Swap([apple, bus, bus], 2, 0) == [bus, bus, apple];
      assert Swap([bus, bus, apple], 1, 0) == [bus, bus, apple];
    }
  }

  /** `getChoices(correctWord)` over the day's list `dayWords`: filters out the
      correct word, shuffles the rest in a fresh array, pushes at most four of
      them after the correct entry and shuffles the result. */
  method GetChoices(correctWord: Entry, dayWords: seq<Entry>, js: seq<nat>, ks: seq<nat>)
    returns (choices: seq<Entry>)
    requires Draws(js, |dayWords|) && Draws(ks, 1 + MaxDistractors)
    ensures choices == Choices(correctWord, dayWords, js, ks)
  {
    var otherWords := OtherWords(dayWords, correctWord);
    var others := new Entry[|otherWords|](k requires 0 <= k < |otherWords| => otherWords[k]);
    assert others[..] == otherWords;
    var shuffledOthers := ShuffleArray(others, js);
    var list := [correctWord];
    var i := 0;
    while i < MaxDistractors && i < shuffledOthers.Length
      invariant 0 <= i <= Min(MaxDistractors, shuffledOthers.Length)
      invariant list == [correctWord] + shuffledOthers[..i]
    {
      list := list + [shuffledOthers[i]];
      i := i + 1;
    }
    assert list == [correctWord] + Prefix(shuffledOthers[..], MaxDistractors);
    var pushed := new Entry[|list|](k requires 0 <= k < |list| => list[k]);
    assert pushed[..] == list;
    var shuffled := ShuffleArray(pushed, ks);
    choices := shuffled[..];
  }

  /** The number of `true` outcomes in a history of answers. */
  function CorrectAnswers(outcomes: seq<bool>): (n: nat)
    ensures n <= |outcomes|
    ensures n == |outcomes| <==> forall k :: 0 <= k < |outcomes| ==> outcomes[k]
  {
    if outcomes == [] then 0
    else (if outcomes[0] then 1 else 0) + CorrectAnswers(outcomes[1..])
  }

  /** The session state that the game keeps at module level. */
  class QuizGame {
    /** The day-labelled word lists, as loaded; the engine only reads them. */
    var allWords: map<string, seq<Entry>>
    /** The questions of the running session. */
    var currentDayWords: seq<Entry>
    var currentQuestionIndex: nat
    var score: nat
    /** Whether the current question has been answered: the game disables the
        choice buttons once one is clicked and builds new ones for the next
        question. */
    ghost var answered: bool
    /** Whether each answer of the session so far was right, in order. */
    ghost var outcomes: seq<bool>

    /** The session keeps to one answer per question, and the score counts the
        right ones. */
    ghost predicate Valid()
      reads this
    {
      && currentQuestionIndex <= |currentDayWords|
      && (answered ==> currentQuestionIndex < |currentDayWords|)
      && |outcomes| == currentQuestionIndex + (if answered then 1 else 0)
      && score == CorrectAnswers(outcomes)
    }

    /** Every question has been asked: the end screen shows. */
    ghost predicate Finished()
      reads this
    {
      currentQuestionIndex == |currentDayWords|
    }

    /** The state once the word lists are loaded and before any session. */
    constructor (words: map<string, seq<Entry>>)
      ensures allWords == words
      ensures currentDayWords == [] && currentQuestionIndex == 0 && score == 0
      ensures !answered && outcomes == [] && Valid()
    {
      allWords := words;
      currentDayWords := [];
      currentQuestionIndex := 0;
      score := 0;
      answered := false;
      outcomes := [];
    }

    /** `startGame` for the day `selectedDay`: refuses a missing day or one with
        fewer than four entries and then changes nothing; otherwise takes the
        questions from a shuffled copy of the day's list and resets the index
        and the score. The stored list itself is not touched. */
    method StartGame(selectedDay: string, js: seq<nat>) returns (started: bool)
      requires selectedDay in allWords ==> Draws(js, |allWords[selectedDay]|)
      modifies this`currentDayWords, this`currentQuestionIndex, this`score
      modifies this`answered, this`outcomes
      ensures started <==> selectedDay in allWords && |allWords[selectedDay]| >= MinWordsPerDay
      ensures !started ==> unchanged(this)
      ensures started ==> currentDayWords == Questions(allWords[selectedDay], js)
      ensures started ==> currentQuestionIndex == 0 && score == 0
      ensures started ==> Valid() && !answered && outcomes == [] && !Finished()
    {
      if selectedDay !in allWords || |allWords[selectedDay]| < MinWordsPerDay {
        return false;
      }
      var wordsForDay := allWords[selectedDay];
      var copy := new Entry[|wordsForDay|](k requires 0 <= k < |wordsForDay| => wordsForDay[k]);
      assert copy[..] == wordsForDay;
      var shuffled := ShuffleArray(copy, js);
      currentDayWords := Prefix(shuffled[..], QuestionsPerGame);
      currentQuestionIndex := 0;
      score := 0;
      answered := false;
      outcomes := [];
      QuestionsDrawnFromDay(wordsForDay, js);
      started := true;
    }

    /** The scoring part of `handleChoice`: a point exactly when the selected
        entry has the correct word; the questions and the index stay as they
        are. Nothing in the engine stops a second answer to the same question;
        the one-answer rule holds only while the caller keeps to it. */
    method HandleChoice(selectedChoice: Entry, correctWord: Entry) returns (correct: bool)
      modifies this`score, this`answered, this`outcomes
      ensures correct <==> selectedChoice.word == correctWord.word
      ensures score == old(score) + (if correct then 1 else 0)
      ensures answered && outcomes == old(outcomes) + [correct]
      ensures old(Valid() && !answered && !Finished()) ==> Valid()
    {
      answered := true;
      correct := selectedChoice.word == correctWord.word;
      if correct {
        score := score + 1;
      }
      outcomes := outcomes + [correct];
      CorrectAnswersAppend(old(outcomes), correct);
    }

    /** `nextQuestion`: moves to the next question and ends the game once the
        index has reached the number of questions. After an answered question
        the game ends exactly when every question has been asked, and the final
        score is the number of right answers, one per question. */
    method NextQuestion() returns (ended: bool)
      modifies this`currentQuestionIndex, this`answered
      ensures currentQuestionIndex == old(currentQuestionIndex) + 1
      ensures ended <==> currentQuestionIndex >= |currentDayWords|
      ensures !answered
      ensures old(Valid() && answered) ==> Valid() && (ended <==> Finished())
      ensures old(Valid() && answered) && ended ==> |outcomes| == |currentDayWords| && score <= |currentDayWords|
    {
      currentQuestionIndex := currentQuestionIndex + 1;
      answered := false;
      ended := !(currentQuestionIndex < |currentDayWords|);
    }
  }

  /** Appending one outcome adds one to the count exactly when it is right. */
  lemma {:induction false} CorrectAnswersAppend(outcomes: seq<bool>, b: bool)
    ensures CorrectAnswers(outcomes + [b]) == CorrectAnswers(outcomes) + (if b then 1 else 0)
  {
    if outcomes != [] {
      assert (outcomes + [b])[1..] == outcomes[1..] + [b];
      CorrectAnswersAppend(outcomes[1..], b);
    }
  }
}

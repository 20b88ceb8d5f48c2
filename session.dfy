/** The quiz session of src/pages/Play.jsx: the game-type lookup, the
    answer judgments, and the session fields that the three answer handlers
    and their delayed "settle" steps update. */
module PlaySession {
  import opened Wrappers
  import opened JsText
  import opened Questions

  /** Points per correct answer. Grammar scores like vocabulary. */
  const ChoicePoints: nat := 10
  const SpellingPoints: nat := 15
  const MatchPoints: nat := 12

  /** The route parameter of each game. */
  function GameTypeName(g: GameType): string
  {
    match g
    case Vocabulary => "vocabulary"
    case Spelling => "spelling"
    case Grammar => "grammar"
    case Match => "match"
  }

  /** `questions[gameType]` is defined only for the four game names. */
  function ParseGameType(name: string): (r: Option<GameType>)
    ensures r.Some? ==> GameTypeName(r.value) == name
  {
    if name == "vocabulary" then Some(Vocabulary)
    else if name == "spelling" then Some(Spelling)
    else if name == "grammar" then Some(Grammar)
    else if name == "match" then Some(Match)
    else None
  }

  /** The lookup accepts exactly the four game names, each for its own game. */
  lemma ParseGameTypeExact(name: string, g: GameType)
    ensures ParseGameType(name) == Some(g) <==> name == GameTypeName(g)
  {
  }

  /** A typed spelling is correct when it equals the target after
      lower-casing both; nothing is trimmed. */
  function SpellingCorrect(input: string, target: string): (correct: bool)
    ensures input == target ==> correct
    ensures correct ==> |input| == |target|
  {
    Lower(input) == Lower(target)
  }

  /** Spelling is judged character by character, ignoring ASCII case. */
  lemma SpellingCorrectIff(input: string, target: string)
    ensures SpellingCorrect(input, target)
      <==> |input| == |target| && forall i :: 0 <= i < |input| ==> LowerChar(input[i]) == LowerChar(target[i])
  {
    if |input| == |target| && forall i :: 0 <= i < |input| ==> LowerChar(input[i]) == LowerChar(target[i]) {
      assert forall i :: 0 <= i < |input| ==> Lower(input)[i] == Lower(target)[i];
    }
  }

  /** A space typed before or after a target that has none makes the
      answer wrong, however the letters are cased. */
  lemma PaddedSpellingRejected(input: string, target: string)
    requires forall i :: 0 <= i < |target| ==> target[i] != ' '
    ensures !SpellingCorrect(input + " ", target)
    ensures !SpellingCorrect(" " + input, target)
  {
    if SpellingCorrect(input + " ", target) {
      var n := |input|;
      assert Lower(input + " ")[n] == ' ';
      LowerCharOfSpace(target[n]);
    }
  }

  /** `SpellingGame.handleSubmit` refuses input that trims to nothing:
      exactly the input made only of whitespace and line terminators. */
  function IsBlank(input: string): (blank: bool)
    ensures blank <==> AllTrimmable(input)
  {
    TrimEmptyIffBlank(input);
    Trim(input) == []
  }

  /** The state of one game: fixed game type and questions, and the five
      fields the handlers update. */
  class Session {
    const gameType: GameType
    const questions: seq<Question>
    var currentQuestion: nat
    var score: nat
    var selectedAnswer: Option<int>
    var isCorrect: Option<bool>
    var gameCompleted: bool

    /** The index stays on a question; completion happens only on the last
        one; every question has the shape of the game. */
    ghost predicate Valid()
      reads this
    {
      && |questions| > 0
      && (forall k :: 0 <= k < |questions| ==> Fits(gameType, questions[k]))
      && currentQuestion < |questions|
      && (gameCompleted ==> currentQuestion == |questions| - 1)
    }

    /** `currentQ`. */
    function CurrentQ(): Question
      reads this
      requires Valid()
    {
      questions[currentQuestion]
    }

    constructor (gameType: GameType, questions: seq<Question>)
      requires |questions| > 0
      requires forall k :: 0 <= k < |questions| ==> Fits(gameType, questions[k])
      ensures Valid()
      ensures this.gameType == gameType && this.questions == questions
      ensures currentQuestion == 0 && score == 0
      ensures selectedAnswer.None? && isCorrect.None? && !gameCompleted
    {
      this.gameType := gameType;
      this.questions := questions;
      currentQuestion := 0;
      score := 0;
      selectedAnswer := None;
      isCorrect := None;
      gameCompleted := false;
    }

    /** `handleAnswer`: a multiple-choice answer, judged by index equality.
        A second answer before the settle step is ignored. Like every
        answer handler it lives on the game screen, which the result
        screen replaces once the game is completed. */
    method HandleAnswer(answerIndex: int)
      requires Valid() && (gameType == Vocabulary || gameType == Grammar) && !gameCompleted
      modifies this
      ensures Valid()
      ensures old(selectedAnswer).Some? ==> unchanged(this)
      ensures old(selectedAnswer).None? ==>
        && selectedAnswer == Some(answerIndex)
        && isCorrect == Some(answerIndex == old(CurrentQ()).correct)
        && score == old(score) + (if answerIndex == old(CurrentQ()).correct then ChoicePoints else 0)
        && currentQuestion == old(currentQuestion) && gameCompleted == old(gameCompleted)
    {
      if selectedAnswer.Some? {
        return;
      }
      selectedAnswer := Some(answerIndex);
      var correct := answerIndex == questions[currentQuestion].correct;
      isCorrect := Some(correct);
      if correct {
        score := score + ChoicePoints;
      }
    }

    /** `handleSpellingSubmit`: judged case-insensitively. There is no
        already-answered guard, so a second submission is judged again. */
    method HandleSpellingSubmit(spelling: string)
      requires Valid() && gameType == Spelling && !gameCompleted
      modifies this
      ensures Valid()
      ensures isCorrect == Some(SpellingCorrect(spelling, old(CurrentQ()).target))
      ensures score == old(score) + (if SpellingCorrect(spelling, old(CurrentQ()).target) then SpellingPoints else 0)
      ensures selectedAnswer == old(selectedAnswer)
      ensures currentQuestion == old(currentQuestion) && gameCompleted == old(gameCompleted)
    {
      var correct := SpellingCorrect(spelling, questions[currentQuestion].target);
      isCorrect := Some(correct);
      if correct {
        score := score + SpellingPoints;
      }
    }

    /** `SpellingGame.handleSubmit`: blank input is dropped before any
        judgment; anything else is submitted untrimmed. */
    method SubmitSpelling(input: string)
      requires Valid() && gameType == Spelling && !gameCompleted
      modifies this
      ensures Valid()
      ensures IsBlank(input) ==> unchanged(this)
      ensures !IsBlank(input) ==>
        && isCorrect == Some(SpellingCorrect(input, old(CurrentQ()).target))
        && score == old(score) + (if SpellingCorrect(input, old(CurrentQ()).target) then SpellingPoints else 0)
        && selectedAnswer == old(selectedAnswer)
        && currentQuestion == old(currentQuestion) && gameCompleted == old(gameCompleted)
    {
      if IsBlank(input) {
        return;
      }
      HandleSpellingSubmit(input);
    }

    /** The match game's `onComplete`: 12 points for a fully correct round.
        Advancing is the separate `SettleMatch` step. */
    method CompleteMatch(allCorrect: bool)
      requires Valid() && gameType == Match && !gameCompleted
      modifies this
      ensures Valid()
      ensures score == old(score) + (if allCorrect then MatchPoints else 0)
      ensures currentQuestion == old(currentQuestion) && gameCompleted == old(gameCompleted)
      ensures selectedAnswer == old(selectedAnswer) && isCorrect == old(isCorrect)
    {
      if allCorrect {
        score := score + MatchPoints;
      }
    }

    /** The delayed step after a choice or spelling judgment: move to the
        next question with the feedback cleared, or complete the game on
        the last question (leaving its feedback in place). */
    method Settle()
      requires Valid()
      modifies this
      ensures Valid()
      ensures old(currentQuestion) < |questions| - 1 ==>
        && currentQuestion == old(currentQuestion) + 1
        && selectedAnswer.None? && isCorrect.None?
        && !gameCompleted
      ensures old(currentQuestion) == |questions| - 1 ==>
        && gameCompleted
        && currentQuestion == old(currentQuestion)
        && selectedAnswer == old(selectedAnswer) && isCorrect == old(isCorrect)
      ensures score == old(score)
    {
      if currentQuestion < |questions| - 1 {
        currentQuestion := currentQuestion + 1;
        selectedAnswer := None;
        isCorrect := None;
      } else {
        gameCompleted := true;
      }
    }

    /** The delayed step after a match round: like `Settle`, but no
        feedback is cleared. */
    method SettleMatch()
      requires Valid()
      modifies this
      ensures Valid()
      ensures old(currentQuestion) < |questions| - 1 ==>
        currentQuestion == old(currentQuestion) + 1 && !gameCompleted
      ensures old(currentQuestion) == |questions| - 1 ==>
        gameCompleted && currentQuestion == old(currentQuestion)
      ensures score == old(score) && selectedAnswer == old(selectedAnswer) && isCorrect == old(isCorrect)
    {
      if currentQuestion < |questions| - 1 {
        currentQuestion := currentQuestion + 1;
      } else {
        gameCompleted := true;
      }
    }
  }

  /** Opening `/play/<name>`: no session for an unknown game name; otherwise
      a fresh session on the game's question list. The program does not
      handle a game without questions, so its callers must not open one. */
  method Start(name: string, data: Data) returns (session: Option<Session>)
    requires ParseGameType(name).Some? ==> RecordCount(data, ParseGameType(name).value) > 0
    ensures session.None? <==> ParseGameType(name).None?
    ensures session.Some? ==>
      && fresh(session.value)
      && session.value.Valid()
      && session.value.gameType == ParseGameType(name).value
      && session.value.questions == QuestionsFor(data, ParseGameType(name).value)
      && session.value.currentQuestion == 0 && session.value.score == 0
      && session.value.selectedAnswer.None? && session.value.isCorrect.None?
      && !session.value.gameCompleted
  {
    var g := ParseGameType(name);
    if g.None? {
      return None;
    }
    var qs := BuildQuestions(data, g.value);
    QuestionsForRecords(data, g.value);
    var s := new Session(g.value, qs);
    session := Some(s);
  }
}

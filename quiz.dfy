/** The astronomy quiz: a fixed table of ten multiple-choice questions and a state
    machine of five fields that the "answer", "next" and "try again" buttons
    drive. */
module Quiz {
  import opened Wrappers

  /** One question: its text, its answer options and the index of the right one. */
  datatype Question = Question(question: string, options: seq<string>, correct: nat)

  /** The question table, in the order the quiz asks it. */
  const QuizQuestions: seq<Question> := [
    Question("¿Cuál es el planeta más grande del Sistema Solar?",
      ["Saturno", "Júpiter", "Neptuno", "Urano"], 1),
    Question("¿Cuántos planetas tiene el Sistema Solar?",
      ["7", "8", "9", "10"], 1),
    Question("¿Qué planeta es conocido como el 'Planeta Rojo'?",
      ["Venus", "Mercurio", "Marte", "Júpiter"], 2),
    Question("¿Cuál es la estrella más cercana a la Tierra?",
      ["Próxima Centauri", "Sirio", "El Sol", "Betelgeuse"], 2),
    Question("¿Qué es una nebulosa?",
      ["Un tipo de estrella", "Una nube de gas y polvo en el espacio",
       "Un planeta pequeño", "Un satélite natural"], 1),
    Question("¿Cuál es el planeta más caliente del Sistema Solar?",
      ["Mercurio", "Venus", "Marte", "Tierra"], 1),
    Question("¿Qué planeta tiene los anillos más espectaculares?",
      ["Júpiter", "Saturno", "Urano", "Neptuno"], 1),
    Question("¿Cuánto tarda la luz del Sol en llegar a la Tierra?",
      ["8 segundos", "8 minutos", "8 horas", "8 días"], 1),
    Question("¿Qué es la Vía Láctea?",
      ["Un planeta", "Una estrella", "Nuestra galaxia", "Un cometa"], 2),
    Question("¿Cuál es el satélite natural de la Tierra?",
      ["Fobos", "Titán", "Luna", "Europa"], 2)
  ]

  /** A question whose right answer is one of its options. */
  predicate WellFormed(q: Question)
  {
    q.correct < |q.options|
  }

  /** Every question of the table names one of its own options as the answer. */
  lemma TableIsWellFormed()
    ensures |QuizQuestions| == 10
    ensures forall i :: 0 <= i < |QuizQuestions| ==> WellFormed(QuizQuestions[i])
  {
  }

  /** The quiz's state. */
  class QuizGame {
    var currentQuestion: nat
    var selectedAnswer: Option<int>
    var score: nat
    var showResult: bool
    var answered: bool

    /** The state the buttons keep: the question index stays inside the table,
        a selection is one of the current question's options, and at most one
        point was earned per question asked so far (the current one counts only
        once it is answered). */
    ghost predicate Valid()
      reads this
    {
      && currentQuestion < |QuizQuestions|
      && (selectedAnswer.Some? ==>
            0 <= selectedAnswer.value < |QuizQuestions[currentQuestion].options|)
      && score <= currentQuestion + (if answered then 1 else 0)
    }

    /** The initial state: first question, nothing selected, no points. */
    constructor ()
      ensures Valid()
      ensures currentQuestion == 0 && selectedAnswer == None && score == 0
      ensures !showResult && !answered
    {
      currentQuestion := 0;
      selectedAnswer := None;
      score := 0;
      showResult := false;
      answered := false;
    }

    /** The radio group's change handler: selects option `index` of the current
        question.  The page disables the group once the question is answered. */
    method SelectAnswer(index: int)
      requires Valid() && 0 <= index < |QuizQuestions[currentQuestion].options|
      modifies this
      ensures Valid()
      ensures selectedAnswer == Some(index)
      ensures currentQuestion == old(currentQuestion) && score == old(score)
      ensures showResult == old(showResult) && answered == old(answered)
    {
      selectedAnswer := Some(index);
    }

    /** The "answer" button: with nothing selected nothing happens; otherwise the
        question becomes answered and the score grows by one exactly when the
        selection is the right option.  The page shows this button only while
        the question is unanswered, which is what keeps at most one point per
        question. */
    method HandleAnswer()
      requires Valid()
      modifies this
      ensures old(selectedAnswer) == None ==>
        && currentQuestion == old(currentQuestion) && selectedAnswer == None
        && score == old(score) && showResult == old(showResult) && answered == old(answered)
      ensures old(selectedAnswer).Some? ==>
        && answered
        && score == old(score) +
             (if old(selectedAnswer).value == QuizQuestions[old(currentQuestion)].correct then 1 else 0)
        && currentQuestion == old(currentQuestion) && selectedAnswer == old(selectedAnswer)
        && showResult == old(showResult)
      ensures !old(answered) ==> Valid()
    {
      if selectedAnswer == None {
        return;
      }
      answered := true;
      var isCorrect := selectedAnswer.value == QuizQuestions[currentQuestion].correct;
      if isCorrect {
        score := score + 1;
      }
    }

    /** The "next" button: before the last question it moves on and clears the
        selection and the answered flag; on the last question it only shows the
        results, so the question index never leaves the table. */
    method HandleNext()
      requires Valid()
      modifies this
      ensures Valid()
      ensures old(currentQuestion) < |QuizQuestions| - 1 ==>
        && currentQuestion == old(currentQuestion) + 1
        && selectedAnswer == None && !answered
        && score == old(score) && showResult == old(showResult)
      ensures old(currentQuestion) == |QuizQuestions| - 1 ==>
        && showResult
        && currentQuestion == old(currentQuestion) && selectedAnswer == old(selectedAnswer)
        && score == old(score) && answered == old(answered)
    {
      if currentQuestion < |QuizQuestions| - 1 {
        currentQuestion := currentQuestion + 1;
        selectedAnswer := None;
        answered := false;
      } else {
        showResult := true;
      }
    }

    /** The "try again" button: every field back to its initial value. */
    method ResetQuiz()
      modifies this
      ensures Valid()
      ensures currentQuestion == 0 && selectedAnswer == None && score == 0
      ensures !showResult && !answered
    {
      currentQuestion := 0;
      selectedAnswer := None;
      score := 0;
      showResult := false;
      answered := false;
    }

    /** In every state the buttons keep, the score is at most the number of
        questions reached, which is at most the size of the table. */
    lemma ScoreBound()
      requires Valid()
      ensures score <= currentQuestion + 1 <= |QuizQuestions|
    {
    }
  }

  /** A whole round played through the buttons in the order the page offers
      them (select, answer, next for every question) ends on the results page
      with a score of at most the number of questions. */
  method PlayRound(choices: seq<int>) returns (score: nat)
    requires |choices| == |QuizQuestions|
    requires forall i :: 0 <= i < |choices| ==> 0 <= choices[i] < |QuizQuestions[i].options|
    ensures score <= |QuizQuestions|
    ensures score == CountCorrect(choices, |choices|)
  {
    var game := new QuizGame();
    var i := 0;
    while i < |choices|
      invariant 0 <= i <= |choices|
      invariant game.Valid()
      invariant i < |choices| ==> game.currentQuestion == i && !game.answered && !game.showResult
      invariant i == |choices| ==> game.showResult
      invariant game.score == CountCorrect(choices, i)
    {
      game.SelectAnswer(choices[i]);
      game.HandleAnswer();
      game.HandleNext();
      i := i + 1;
    }
    score := game.score;
    CountCorrectBound(choices, |choices|);
  }

  /** The number of the first `n` choices that are the right option. */
  function CountCorrect(choices: seq<int>, n: nat): nat
    requires n <= |choices| && n <= |QuizQuestions|
  {
    if n == 0 then 0
    else CountCorrect(choices, n - 1) + (if choices[n - 1] == QuizQuestions[n - 1].correct then 1 else 0)
  }

  /** At most one point per choice. */
  lemma {:induction false} CountCorrectBound(choices: seq<int>, n: nat)
    requires n <= |choices| && n <= |QuizQuestions|
    ensures CountCorrect(choices, n) <= n
  {
    if n > 0 {
      CountCorrectBound(choices, n - 1);
    }
  }
}

/**
  The results page (client/src/pages/results.tsx): the percentage and the message and colour
  bands it selects, which questions are shown correct, and how each option is marked.
*/
module Results {
  import opened Wrappers
  import opened Schema
  import Quiz

  /**
    `Math.round(score / totalQuestions * 100)` as JavaScript evaluates it over the integers
    the page receives: a division by zero gives NaN or an infinity.
  */
  datatype Percent = Finite(value: int) | NotANumber | PlusInfinity | MinusInfinity

  /** Rounding half up of 100 * score / total, with the non-finite cases of a zero total. */
  function Percentage(score: int, total: int): (p: Percent)
    ensures total > 0 ==> p.Finite? && 2 * total * p.value <= 200 * score + total < 2 * total * (p.value + 1)
    ensures total < 0 ==> p.Finite? && -2 * total * p.value <= -200 * score - total < -2 * total * (p.value + 1)
    ensures total == 0 ==> p == (if score == 0 then NotANumber else if score > 0 then PlusInfinity else MinusInfinity)
  {
    if total > 0 then Finite((200 * score + total) / (2 * total))
    else if total < 0 then Finite((-200 * score - total) / (-2 * total))
    else if score == 0 then NotANumber
    else if score > 0 then PlusInfinity
    else MinusInfinity
  }

  /** Multiplying by a positive number keeps the strict order. */
  lemma MulStrict(t: int, p: int, q: int)
    requires t > 0
    ensures t * p < t * q <==> p < q
  {
    if p < q {
      assert t * q == t * p + t * (q - p);
    } else {
      assert t * p == t * q + t * (p - q);
    }
  }

  /** The rounded value is the one integer whose half-open band holds the numerator. */
  lemma RoundUnique(t: int, x: int, p: int, q: int)
    requires t > 0
    requires 2 * t * p <= x < 2 * t * (p + 1)
    requires 2 * t * q <= x < 2 * t * (q + 1)
    ensures p == q
  {
    MulStrict(2 * t, p, q + 1);
    MulStrict(2 * t, q, p + 1);
  }

  /** A score between 0 and the total gives a percentage between 0 and 100. */
  lemma PercentageRange(score: int, total: int)
    requires 0 <= score <= total && total > 0
    ensures Percentage(score, total).Finite? && 0 <= Percentage(score, total).value <= 100
    ensures score == total ==> Percentage(score, total).value == 100
    ensures score == 0 ==> Percentage(score, total).value == 0
  {
    var p := Percentage(score, total).value;
    var x := 200 * score + total;
    MulStrict(2 * total, p, 101);
    MulStrict(2 * total, -1, p);
    if score == total {
      RoundUnique(total, x, p, 100);
    }
    if score == 0 {
      RoundUnique(total, x, p, 0);
    }
  }

  /** Below 200 questions only an all-correct quiz rounds to 100. */
  lemma PerfectMeansAllCorrect(score: int, total: int)
    requires 0 <= score <= total && 0 < total < 200
    ensures Percentage(score, total) == Finite(100) <==> score == total
  {
    PercentageRange(score, total);
    if score < total {
      assert 200 * score + total < 200 * total;
    }
  }

  /** From 200 questions on, one wrong answer can still round to 100. */
  lemma PerfectWithOneWrong()
    ensures Percentage(199, 200) == Finite(100)
  {
  }

  predicate AtLeast(p: Percent, bound: int) {
    match p
    case Finite(v) => v >= bound
    case PlusInfinity => true
    case _ => false
  }

  datatype Message = PerfectScore | ExcellentWork | GoodJob | KeepPracticing | DontGiveUp

  /** `getScoreMessage`. */
  function ScoreMessage(p: Percent): Message {
    if p == Finite(100) then PerfectScore
    else if AtLeast(p, 80) then ExcellentWork
    else if AtLeast(p, 60) then GoodJob
    else if AtLeast(p, 40) then KeepPracticing
    else DontGiveUp
  }

  /** The words shown for each message. */
  function MessageText(m: Message): string {
    match m
    case PerfectScore => "Perfect Score! Outstanding!"
    case ExcellentWork => "Excellent Work!"
    case GoodJob => "Good Job!"
    case KeepPracticing => "Keep Practicing!"
    case DontGiveUp => "Don't Give Up!"
  }

  datatype Colour = Success | Primary | Warning | Destructive

  /** `getScoreColor`. */
  function ScoreColour(p: Percent): Colour {
    if AtLeast(p, 80) then Success
    else if AtLeast(p, 60) then Primary
    else if AtLeast(p, 40) then Warning
    else Destructive
  }

  /** The message bands for a finite percentage, each one exactly. */
  lemma MessageBands(v: int)
    ensures ScoreMessage(Finite(v)) == PerfectScore <==> v == 100
    ensures ScoreMessage(Finite(v)) == ExcellentWork <==> 80 <= v && v != 100
    ensures ScoreMessage(Finite(v)) == GoodJob <==> 60 <= v < 80
    ensures ScoreMessage(Finite(v)) == KeepPracticing <==> 40 <= v < 60
    ensures ScoreMessage(Finite(v)) == DontGiveUp <==> v < 40
  {
  }

  /** The colour bands for a finite percentage. */
  lemma ColourBands(v: int)
    ensures ScoreColour(Finite(v)) == Success <==> 80 <= v
    ensures ScoreColour(Finite(v)) == Primary <==> 60 <= v < 80
    ensures ScoreColour(Finite(v)) == Warning <==> 40 <= v < 60
    ensures ScoreColour(Finite(v)) == Destructive <==> v < 40
  {
  }

  /** The colour follows the message: the two top messages share the first colour, then one colour each. */
  lemma ColourMatchesMessage(p: Percent)
    ensures ScoreColour(p) == Success <==> ScoreMessage(p) in {PerfectScore, ExcellentWork}
    ensures ScoreColour(p) == Primary <==> ScoreMessage(p) == GoodJob
    ensures ScoreColour(p) == Warning <==> ScoreMessage(p) == KeepPracticing
    ensures ScoreColour(p) == Destructive <==> ScoreMessage(p) == DontGiveUp
  {
  }

  /** An impossible percentage still gets a message: none reaches 40 except an infinite one. */
  lemma NonFiniteMessages()
    ensures ScoreMessage(NotANumber) == DontGiveUp && ScoreColour(NotANumber) == Destructive
    ensures ScoreMessage(PlusInfinity) == ExcellentWork && ScoreColour(PlusInfinity) == Success
  {
  }

  /** The entry of `answers.find(a => a.questionIndex === index)`, if any. */
  function UserAnswer(answers: seq<QuizAnswer>, index: int): (u: Option<QuizAnswer>)
    ensures u.Some? <==> exists k :: 0 <= k < |answers| && answers[k].questionIndex == index
    ensures u.Some? ==> u.value in answers && u.value.questionIndex == index
    ensures u.Some? ==> exists k :: 0 <= k < |answers| && answers[k] == u.value &&
                                   forall j :: 0 <= j < k ==> answers[j].questionIndex != index
  {
    var k := Quiz.FindIndex(answers, index);
    if k >= 0 then Some(answers[k]) else None
  }

  /** A question is shown correct when its answer is found and picks the correct option. */
  predicate IsCorrect(answers: seq<QuizAnswer>, question: Question, index: int) {
    var u := UserAnswer(answers, index);
    u.Some? && u.value.selectedAnswer == question.answer
  }

  /** A question without a recorded answer is shown incorrect. */
  lemma MissingIsIncorrect(answers: seq<QuizAnswer>, question: Question, index: int)
    requires forall k :: 0 <= k < |answers| ==> answers[k].questionIndex != index
    ensures !IsCorrect(answers, question, index)
  {
  }

  /** How an option is drawn in the review: marked correct, marked wrong, or plain. */
  datatype Mark = MarkedCorrect | MarkedWrong | Plain

  /** The `bgColor` selection for option `option` of question `index`. */
  function OptionMark(answers: seq<QuizAnswer>, question: Question, index: int, option: int): Mark {
    var u := UserAnswer(answers, index);
    var isUserAnswer := u.Some? && u.value.selectedAnswer == option;
    if question.answer == option then MarkedCorrect
    else if isUserAnswer && !IsCorrect(answers, question, index) then MarkedWrong
    else Plain
  }

  /**
    The correct option is always marked correct and only it; an option is marked wrong exactly
    when it is the user's pick on a question answered wrongly, so at most one option is, and
    a question answered correctly has none.
  */
  lemma OptionMarks(answers: seq<QuizAnswer>, question: Question, index: int)
    ensures forall o :: OptionMark(answers, question, index, o) == MarkedCorrect <==> o == question.answer
    ensures forall o :: OptionMark(answers, question, index, o) == MarkedWrong <==>
      (o != question.answer && UserAnswer(answers, index).Some? &&
       UserAnswer(answers, index).value.selectedAnswer == o)
    ensures forall o1, o2 ::
      (OptionMark(answers, question, index, o1) == MarkedWrong && OptionMark(answers, question, index, o2) == MarkedWrong)
      ==> o1 == o2
    ensures IsCorrect(answers, question, index) ==>
      forall o :: OptionMark(answers, question, index, o) != MarkedWrong
  {
  }

  /** The number of questions the review shows correct. */
  function ShownCorrect(answers: seq<QuizAnswer>, questions: seq<Question>): (c: nat)
    ensures c <= |questions|
    decreases |questions|
  {
    if questions == [] then 0
    else
      var m := |questions| - 1;
      ShownCorrect(answers, questions[..m]) + (if IsCorrect(answers, questions[m], m) then 1 else 0)
  }

  /**
    When entry i of the answers is for question i and there is one per question, looking
    answers up by question (the review) counts the same as matching them by position (the
    stored score).
  */
  lemma {:induction false} ShownCorrectIsScore(answers: seq<QuizAnswer>, questions: seq<Question>)
    requires Quiz.Aligned(answers) && |questions| <= |answers|
    ensures ShownCorrect(answers, questions) == Quiz.Score(answers[..|questions|], questions)
    decreases |questions|
  {
    if questions != [] {
      var m := |questions| - 1;
      ShownCorrectIsScore(answers, questions[..m]);
      var fa := answers[..|questions|];
      assert fa[..m] == answers[..m];
      assert answers[m].questionIndex == m;
      assert Quiz.FindIndex(answers, m) == m;
      assert Quiz.Score(fa[..m], questions) == Quiz.Score(fa[..m], questions[..m]) by {
        ScoreIgnoresLaterQuestions(fa[..m], questions, m);
      }
    }
  }

  /** Matching by position only reads the questions at the positions of the answers. */
  lemma {:induction false} ScoreIgnoresLaterQuestions(fa: seq<QuizAnswer>, questions: seq<Question>, m: nat)
    requires |fa| <= m <= |questions|
    ensures Quiz.Score(fa, questions) == Quiz.Score(fa, questions[..m])
    decreases |fa|
  {
    if fa != [] {
      ScoreIgnoresLaterQuestions(fa[..|fa| - 1], questions, m);
    }
  }

  /** For a quiz finished on the quiz page, the review shows as many questions correct as the stored score. */
  lemma ReviewAgreesWithScore(s: Quiz.State, questions: seq<Question>, config: QuizConfig)
    requires Quiz.Inv(s, questions, config) && !Quiz.Active(s)
    ensures ShownCorrect(s.result.value.answers, s.result.value.questions) == s.result.value.score
  {
    var r := s.result.value;
    ShownCorrectIsScore(r.answers, r.questions);
    assert r.answers[..|r.questions|] == r.answers;
  }

  /** Opening the page: the stored result is shown, or the user is sent home. */
  datatype Opening = ShowResult(result: QuizResult) | SendHome

  function Open(stored: Option<QuizResult>): (o: Opening)
    ensures o.SendHome? <==> stored.None?
    ensures o.ShowResult? ==> o.result == stored.value
  {
    if stored.Some? then ShowResult(stored.value) else SendHome
  }

  /** What `handleRestart` leaves behind: the stored result, and the path the user is sent to. */
  datatype Restarted = Restarted(stored: Option<QuizResult>, navigate: string)

  /** `handleRestart`: the stored result is gone and the user is sent to the start page. */
  function Restart(stored: Option<QuizResult>): (after: Restarted)
    ensures after.navigate == "/"
    ensures Open(after.stored) == SendHome
  {
    Restarted(None, "/")
  }
}

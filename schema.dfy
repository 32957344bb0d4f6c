/**
  The shapes and validity rules shared by the client and the server (shared/schema.ts):
  the closed list of quiz topics, a question, a quiz configuration, a recorded answer and
  the result record of a finished quiz.
*/
module Schema {

  /** `quizTopics`: the topic labels offered by the application, in display order. */
  const QuizTopics: seq<string> := [
    "C# Basics",
    "C# Classes",
    "Control Flows C#",
    "C# Core",
    "C# ASP.NET Core",
    "C# Entity Framework",
    "C# LINQ",
    ".NET9 Features",
    "C# ASP.NET Core Middleware & Pipeline"
  ]

  /** A question of the bank; `answer` is the position of the correct option. */
  datatype Question = Question(q: string, options: seq<string>, answer: int, explanation: string)

  /** `questionSchema`: exactly four options and an answer between 0 and 3. */
  predicate ValidQuestion(x: Question) {
    |x.options| == 4 && 0 <= x.answer <= 3
  }

  /** What the start screen hands to the quiz: a topic label and the number of questions asked for. */
  datatype QuizConfig = QuizConfig(topic: string, questionCount: int)

  /** `quizConfigSchema`: a known topic and a count between 5 and 50. */
  predicate ValidConfig(c: QuizConfig) {
    c.topic in QuizTopics && 5 <= c.questionCount <= 50
  }

  /** One committed answer: -1 as `selectedAnswer` stands for "no option chosen". */
  datatype QuizAnswer = QuizAnswer(questionIndex: int, selectedAnswer: int, timeSpent: int)

  /** The record a completed quiz leaves for the results page. */
  datatype QuizResult = QuizResult(
    config: QuizConfig,
    answers: seq<QuizAnswer>,
    questions: seq<Question>,
    score: int,
    totalQuestions: int)

  /** There are nine topics and no label is listed twice. */
  lemma TopicsDistinct()
    ensures |QuizTopics| == 9
    ensures forall i, j :: 0 <= i < j < |QuizTopics| ==> QuizTopics[i] != QuizTopics[j]
  {
  }
}

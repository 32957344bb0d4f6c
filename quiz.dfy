/**
  The quiz page (client/src/pages/quiz.tsx): a session over a served list of questions.

  The React state cells of the page are the fields of `Session`; each handler is a method
  whose new state is given by a pure transition on `State`, and the properties of the
  session are lemmas about those transitions.  The one-second interval is the explicit
  `Tick` event, and storing the result and moving to the results page is the `result`
  cell becoming `Some`.
*/
module Quiz {
  import opened Wrappers
  import opened Text
  import opened Schema

  /** Seconds allowed per question; the countdown restarts from here. */
  const TimeLimit := 30

  /** The page's state cells, plus the result record handed to the results page when the quiz ends. */
  datatype State = State(
    index: nat,
    answers: seq<QuizAnswer>,
    staged: Option<int>,
    timeRemaining: int,
    locked: bool,
    result: Option<QuizResult>)

  /** The state the page mounts with. */
  function Start(): State {
    State(0, [], None, TimeLimit, false, None)
  }

  /** The quiz is still on screen: no result has been handed over yet. */
  predicate Active(s: State) {
    s.result.None?
  }

  /** The answer committed for the question on screen: the staged option or -1, and the seconds spent. */
  function Committed(s: State): QuizAnswer {
    QuizAnswer(s.index, s.staged.GetOr(-1), TimeLimit - s.timeRemaining)
  }

  /** `answers.findIndex(a => a.questionIndex === qi)`. */
  function FindIndex(answers: seq<QuizAnswer>, qi: int): (k: int)
    ensures -1 <= k < |answers|
    ensures k >= 0 ==> answers[k].questionIndex == qi
    ensures k >= 0 ==> forall j :: 0 <= j < k ==> answers[j].questionIndex != qi
    ensures k < 0 ==> forall j :: 0 <= j < |answers| ==> answers[j].questionIndex != qi
  {
    if answers == [] then -1
    else if answers[0].questionIndex == qi then 0
    else
      var k := FindIndex(answers[1..], qi);
      if k < 0 then -1 else k + 1
  }

  /**
    Recording an answer: it takes the place of the first entry for the same question, or is
    appended when there is none; every entry for another question stays where it was.
  */
  function Upsert(answers: seq<QuizAnswer>, a: QuizAnswer): (r: seq<QuizAnswer>)
    ensures |answers| <= |r| <= |answers| + 1
    ensures a in r
    ensures forall b :: b in r ==> b == a || b in answers
    ensures forall j :: 0 <= j < |answers| && answers[j].questionIndex != a.questionIndex ==> r[j] == answers[j]
    ensures (exists j :: 0 <= j < |answers| && answers[j].questionIndex == a.questionIndex) ==> |r| == |answers|
    ensures (forall j :: 0 <= j < |answers| ==> answers[j].questionIndex != a.questionIndex) ==> r == answers + [a]
  {
    var k := FindIndex(answers, a.questionIndex);
    if k >= 0 then
      var r := answers[k := a];
      assert r[k] == a;
      r
    else answers + [a]
  }

  /** No two entries answer the same question. */
  predicate DistinctKeys(answers: seq<QuizAnswer>) {
    forall i, j :: 0 <= i < j < |answers| ==> answers[i].questionIndex != answers[j].questionIndex
  }

  /** Entry k answers question k. */
  predicate Aligned(answers: seq<QuizAnswer>) {
    forall k :: 0 <= k < |answers| ==> answers[k].questionIndex == k
  }

  /** Upserting keeps the entries keyed uniquely, and the entry for the new answer's question is that answer. */
  lemma UpsertDistinct(answers: seq<QuizAnswer>, a: QuizAnswer)
    requires DistinctKeys(answers)
    ensures DistinctKeys(Upsert(answers, a))
    ensures forall j :: 0 <= j < |Upsert(answers, a)| ==>
      (Upsert(answers, a)[j].questionIndex == a.questionIndex <==> Upsert(answers, a)[j] == a)
  {
    var k := FindIndex(answers, a.questionIndex);
    var r := Upsert(answers, a);
    if k >= 0 {
      assert r == answers[k := a];
    } else {
      assert r == answers + [a];
    }
  }

  /**
    On answers kept in question order, recording question `a.questionIndex` (at most one past
    the last) replaces that entry or appends it, and the order is kept.
  */
  lemma UpsertAligned(answers: seq<QuizAnswer>, a: QuizAnswer)
    requires Aligned(answers) && 0 <= a.questionIndex <= |answers|
    ensures Aligned(Upsert(answers, a))
    ensures a.questionIndex < |answers| ==> Upsert(answers, a) == answers[a.questionIndex := a]
    ensures a.questionIndex == |answers| ==> Upsert(answers, a) == answers + [a]
  {
    var k := FindIndex(answers, a.questionIndex);
    if a.questionIndex < |answers| {
      assert answers[a.questionIndex].questionIndex == a.questionIndex;
      assert k == a.questionIndex;
    } else {
      assert k < 0;
    }
  }

  /** Whether entry i of the final answers picks the correct option of question i. */
  predicate Hit(finalAnswers: seq<QuizAnswer>, questions: seq<Question>, i: nat)
    requires i < |finalAnswers|
  {
    i < |questions| && finalAnswers[i].selectedAnswer == questions[i].answer
  }

  /** The `reduce` in `finishQuiz`: the number of positions whose entry matches the question at the same position. */
  function Score(finalAnswers: seq<QuizAnswer>, questions: seq<Question>): (r: nat)
    ensures r <= |finalAnswers|
    decreases |finalAnswers|
  {
    if finalAnswers == [] then 0
    else
      var m := |finalAnswers| - 1;
      Score(finalAnswers[..m], questions) + (if Hit(finalAnswers, questions, m) then 1 else 0)
  }

  /** Positions past the end of the question list never score, so the score is bounded by both lengths. */
  lemma {:induction false} ScoreBound(finalAnswers: seq<QuizAnswer>, questions: seq<Question>)
    ensures Score(finalAnswers, questions) <= |questions|
    decreases |finalAnswers|
  {
    if finalAnswers != [] && |finalAnswers| > |questions| {
      var m := |finalAnswers| - 1;
      ScoreBound(finalAnswers[..m], questions);
    }
  }

  /** The score is full exactly when every entry matches its question. */
  lemma {:induction false} ScoreFull(finalAnswers: seq<QuizAnswer>, questions: seq<Question>)
    ensures Score(finalAnswers, questions) == |finalAnswers| <==>
      forall i :: 0 <= i < |finalAnswers| ==> Hit(finalAnswers, questions, i)
    decreases |finalAnswers|
  {
    if finalAnswers != [] {
      var m := |finalAnswers| - 1;
      var p := finalAnswers[..m];
      ScoreFull(p, questions);
      assert forall i :: 0 <= i < m ==> (Hit(p, questions, i) <==> Hit(finalAnswers, questions, i));
    }
  }

  /** The score is zero exactly when no entry matches its question. */
  lemma {:induction false} ScoreZero(finalAnswers: seq<QuizAnswer>, questions: seq<Question>)
    ensures Score(finalAnswers, questions) == 0 <==>
      forall i :: 0 <= i < |finalAnswers| ==> !Hit(finalAnswers, questions, i)
    decreases |finalAnswers|
  {
    if finalAnswers != [] {
      var m := |finalAnswers| - 1;
      var p := finalAnswers[..m];
      ScoreZero(p, questions);
      assert forall i :: 0 <= i < m ==> (Hit(p, questions, i) <==> Hit(finalAnswers, questions, i));
    }
  }

  /** A question answered with -1 ("no option") never scores when its correct answer is a real option. */
  lemma UnansweredMisses(finalAnswers: seq<QuizAnswer>, questions: seq<Question>, i: nat)
    requires i < |finalAnswers| && finalAnswers[i].selectedAnswer == -1
    requires i < |questions| ==> ValidQuestion(questions[i])
    ensures !Hit(finalAnswers, questions, i)
  {
  }

  /** `handleNext`: record the answer, then move to the next question or finish the quiz. */
  function Advance(s: State, questions: seq<Question>, config: QuizConfig): State {
    var a := Committed(s);
    var recorded := Upsert(s.answers, a);
    if s.index < |questions| - 1 then
      s.(index := s.index + 1, answers := recorded, staged := None, timeRemaining := TimeLimit, locked := false)
    else
      // `finishQuiz` reads the answers as they were before this commit and appends the new one.
      var finalAnswers := s.answers + [a];
      s.(answers := recorded,
         result := Some(QuizResult(config, finalAnswers, questions, Score(finalAnswers, questions), |questions|)))
  }

  /** `handlePrevious`: step back and stage the option recorded for that question, if any. */
  function Retreat(s: State): State {
    if s.index > 0 then
      var k := FindIndex(s.answers, s.index - 1);
      s.(index := s.index - 1,
         staged := if k >= 0 then Some(s.answers[k].selectedAnswer) else None,
         timeRemaining := TimeLimit,
         locked := false)
    else s
  }

  /** One second of the interval: count down, or commit and advance when the time is up. */
  function Countdown(s: State, questions: seq<Question>, config: QuizConfig): State {
    if s.locked || |questions| == 0 then s
    else if s.timeRemaining <= 1 then Advance(s, questions, config).(timeRemaining := TimeLimit)
    else s.(timeRemaining := s.timeRemaining - 1)
  }

  /** Clicking an option stages it. */
  function Choose(s: State, option: int): State {
    s.(staged := Some(option))
  }

  /**
    What holds of every state the page reaches: the lock is never set, the clock stays in
    1..30, entry k of the answers is for question k, and while the quiz runs the current
    question is at most one past the recorded ones and before the last recorded one only
    when it was revisited; once finished, every question has its entry and the result
    carries exactly those entries and their score.
  */
  predicate Inv(s: State, questions: seq<Question>, config: QuizConfig) {
    var n := |questions|;
    !s.locked && 1 <= s.timeRemaining <= TimeLimit && Aligned(s.answers) &&
    match s.result
    case None => s.index <= |s.answers| && (|s.answers| < n || s.answers == [])
    case Some(r) =>
      0 < n && s.index == n - 1 && |s.answers| == n &&
      r == QuizResult(config, s.answers, questions, Score(s.answers, questions), n)
  }

  lemma StartInv(questions: seq<Question>, config: QuizConfig)
    ensures Inv(Start(), questions, config) && Active(Start())
  {
  }

  /** While the quiz runs, the current question exists and is not past the last one. */
  lemma IndexInRange(s: State, questions: seq<Question>, config: QuizConfig)
    requires Inv(s, questions, config) && Active(s) && |questions| > 0
    ensures s.index < |questions|
    ensures s.index < |s.answers| ==> s.answers[s.index].questionIndex == s.index
  {
  }

  /** On the last question the appended answer list of `finishQuiz` is the upserted list of `handleNext`. */
  lemma FinishAppendIsUpsert(s: State, questions: seq<Question>, config: QuizConfig)
    requires Inv(s, questions, config) && Active(s) && |questions| > 0 && s.index == |questions| - 1
    ensures s.answers + [Committed(s)] == Upsert(s.answers, Committed(s))
    ensures Aligned(s.answers + [Committed(s)]) && |s.answers + [Committed(s)]| == |questions|
  {
    UpsertAligned(s.answers, Committed(s));
  }

  /**
    Next while the quiz runs: the committed answer is the staged option (or -1) with the time
    spent, it is recorded under the current question and nothing else is touched; before the
    last question the index moves on by exactly one with nothing staged and a fresh clock;
    on the last one the quiz finishes with every question answered in order and scored.
  */
  lemma AdvanceStep(s: State, questions: seq<Question>, config: QuizConfig)
    requires Inv(s, questions, config) && Active(s) && |questions| > 0
    ensures Committed(s).questionIndex == s.index
    ensures Committed(s).selectedAnswer == (if s.staged.Some? then s.staged.value else -1)
    ensures 0 <= Committed(s).timeSpent < TimeLimit
    ensures var t := Advance(s, questions, config);
      s.index < |t.answers| && t.answers[s.index] == Committed(s) &&
      (forall j :: 0 <= j < |s.answers| && j != s.index ==> t.answers[j] == s.answers[j]) &&
      |t.answers| == (if s.index < |s.answers| then |s.answers| else |s.answers| + 1)
    ensures var t := Advance(s, questions, config);
      s.index < |questions| - 1 ==>
        Active(t) && t.index == s.index + 1 && t.staged.None? && t.timeRemaining == TimeLimit && !t.locked
    ensures var t := Advance(s, questions, config);
      s.index == |questions| - 1 ==>
        t.index == s.index && |t.answers| == |questions| && t.answers == s.answers + [Committed(s)] &&
        t.result == Some(QuizResult(config, t.answers, questions, Score(t.answers, questions), |questions|))
  {
    UpsertAligned(s.answers, Committed(s));
  }

  lemma AdvanceInv(s: State, questions: seq<Question>, config: QuizConfig)
    requires Inv(s, questions, config) && Active(s) && |questions| > 0
    ensures Inv(Advance(s, questions, config), questions, config)
  {
    UpsertAligned(s.answers, Committed(s));
  }

  /**
    Previous while the quiz runs: nothing happens on the first question; otherwise the index
    goes back by exactly one, the option recorded for that question is staged again (the
    answers are in order, so it is always there), the clock restarts and the answers stay.
  */
  lemma RetreatStep(s: State, questions: seq<Question>, config: QuizConfig)
    requires Inv(s, questions, config) && Active(s)
    ensures s.index == 0 ==> Retreat(s) == s
    ensures s.index > 0 ==>
      var t := Retreat(s);
      t.index == s.index - 1 && t.staged == Some(s.answers[s.index - 1].selectedAnswer) &&
      t.timeRemaining == TimeLimit && !t.locked && t.answers == s.answers && Active(t)
  {
    if s.index > 0 {
      assert s.answers[s.index - 1].questionIndex == s.index - 1;
    }
  }

  lemma RetreatInv(s: State, questions: seq<Question>, config: QuizConfig)
    requires Inv(s, questions, config) && Active(s)
    ensures Inv(Retreat(s), questions, config)
  {
  }

  /**
    A tick while the quiz runs: above one second it only counts down; at one second it is
    Next followed by a fresh clock.
  */
  lemma CountdownStep(s: State, questions: seq<Question>, config: QuizConfig)
    requires Inv(s, questions, config) && Active(s) && |questions| > 0
    ensures s.timeRemaining > 1 ==> Countdown(s, questions, config) == s.(timeRemaining := s.timeRemaining - 1)
    ensures s.timeRemaining == 1 ==>
      Countdown(s, questions, config) == Advance(s, questions, config).(timeRemaining := TimeLimit)
  {
  }

  lemma CountdownInv(s: State, questions: seq<Question>, config: QuizConfig)
    requires Inv(s, questions, config) && Active(s)
    ensures Inv(Countdown(s, questions, config), questions, config)
  {
    if |questions| > 0 && s.timeRemaining <= 1 {
      AdvanceInv(s, questions, config);
    }
  }

  /** The user's actions and the timer, as the page receives them. */
  datatype Event = Pick(option: int) | NextPress | PreviousPress | SkipPress | TimerTick

  /**
    One event. Option buttons and the navigation buttons exist only while a question is on
    screen; the Next button is disabled until an option is staged and Previous on the first
    question. Once the result is handed over the page is gone and nothing changes.
  */
  function Step(s: State, e: Event, questions: seq<Question>, config: QuizConfig): State {
    if !Active(s) then s
    else if e.TimerTick? then Countdown(s, questions, config)
    else if |questions| == 0 || s.index >= |questions| then s
    else match e
      case Pick(option) =>
        if 0 <= option < |questions[s.index].options| then Choose(s, option) else s
      case NextPress => if s.staged.Some? then Advance(s, questions, config) else s
      case PreviousPress => if s.index != 0 then Retreat(s) else s
      case SkipPress => Advance(s, questions, config)
  }

  function Run(s: State, events: seq<Event>, questions: seq<Question>, config: QuizConfig): State
    decreases |events|
  {
    if events == [] then s else Run(Step(s, events[0], questions, config), events[1..], questions, config)
  }

  /** Every event keeps the invariant. */
  lemma StepInv(s: State, e: Event, questions: seq<Question>, config: QuizConfig)
    requires Inv(s, questions, config)
    ensures Inv(Step(s, e, questions, config), questions, config)
  {
    if Active(s) {
      if e.TimerTick? {
        CountdownInv(s, questions, config);
      } else if |questions| > 0 && s.index < |questions| {
        match e
        case Pick(option) =>
        case NextPress => if s.staged.Some? { AdvanceInv(s, questions, config); }
        case PreviousPress => RetreatInv(s, questions, config);
        case SkipPress => AdvanceInv(s, questions, config);
      }
    }
  }

  /**
    Whatever the user does from the start, the invariant holds: the index never passes the
    last question, no two answers share a question, and a finished quiz carries one answer
    per question, in order, with its score.
  */
  lemma {:induction false} RunInv(s: State, events: seq<Event>, questions: seq<Question>, config: QuizConfig)
    requires Inv(s, questions, config)
    ensures Inv(Run(s, events, questions, config), questions, config)
    decreases |events|
  {
    if events != [] {
      StepInv(s, events[0], questions, config);
      RunInv(Step(s, events[0], questions, config), events[1..], questions, config);
    }
  }

  /** What the invariant gives about the handed-over result. */
  lemma FinishedResult(s: State, questions: seq<Question>, config: QuizConfig)
    requires Inv(s, questions, config) && !Active(s)
    ensures var r := s.result.value;
      r.config == config && r.questions == questions && r.totalQuestions == |questions| &&
      |r.answers| == |questions| && Aligned(r.answers) && DistinctKeys(r.answers) &&
      r.score == Score(r.answers, questions) && 0 <= r.score <= r.totalQuestions
  {
    ScoreBound(s.answers, questions);
  }

  /** Entries in question order are keyed uniquely. */
  lemma AlignedDistinct(answers: seq<QuizAnswer>)
    requires Aligned(answers)
    ensures DistinctKeys(answers)
  {
  }

  /**
    The page's state cells. The served questions and the configuration do not change while
    the page is up; `result` stands for the stored result record and the move to the results page.
  */
  class Session {
    const questions: seq<Question>
    const config: QuizConfig
    var currentIndex: nat
    var answers: seq<QuizAnswer>
    var selectedOption: Option<int>
    var timeRemaining: int
    var isAnswerLocked: bool
    var result: Option<QuizResult>

    function Snapshot(): State
      reads this
    {
      State(currentIndex, answers, selectedOption, timeRemaining, isAnswerLocked, result)
    }

    predicate Valid()
      reads this
    {
      Inv(Snapshot(), questions, config)
    }

    /** The question is on screen and the quiz has not been handed over. */
    predicate OnQuestion()
      reads this
    {
      result.None? && currentIndex < |questions|
    }

    constructor (questions: seq<Question>, config: QuizConfig)
      ensures this.questions == questions && this.config == config
      ensures Snapshot() == Start() && Valid()
    {
      this.questions := questions;
      this.config := config;
      currentIndex := 0;
      answers := [];
      selectedOption := None;
      timeRemaining := TimeLimit;
      isAnswerLocked := false;
      result := None;
    }

    /** Clicking option `option` of the question on screen. */
    method SelectOption(option: int)
      requires Valid() && OnQuestion() && 0 <= option < |questions[currentIndex].options|
      modifies this
      ensures Snapshot() == Choose(old(Snapshot()), option) && Valid()
    {
      selectedOption := Some(option);
    }

    /** `handleNext`; the flag telling a timeout or skip from a press is not read. */
    method Next(autoAdvance: bool)
      requires Valid() && OnQuestion()
      modifies this
      ensures Snapshot() == Advance(old(Snapshot()), questions, config) && Valid()
    {
      ghost var before := Snapshot();
      AdvanceInv(before, questions, config);
      var answer := QuizAnswer(currentIndex, selectedOption.GetOr(-1), TimeLimit - timeRemaining);
      var newAnswers := answers;
      var existing := FindIndex(newAnswers, currentIndex);
      if existing >= 0 {
        newAnswers := newAnswers[existing := answer];
      } else {
        newAnswers := newAnswers + [answer];
      }
      var previous := answers;
      answers := newAnswers;
      if currentIndex < |questions| - 1 {
        currentIndex := currentIndex + 1;
        selectedOption := None;
        timeRemaining := TimeLimit;
        isAnswerLocked := false;
      } else {
        var finalAnswers := previous + [answer];
        result := Some(QuizResult(config, finalAnswers, questions, Score(finalAnswers, questions), |questions|));
      }
    }

    /** `handlePrevious`. */
    method Previous()
      requires Valid() && OnQuestion()
      modifies this
      ensures Snapshot() == Retreat(old(Snapshot())) && Valid()
    {
      RetreatInv(Snapshot(), questions, config);
      if currentIndex > 0 {
        var k := FindIndex(answers, currentIndex - 1);
        currentIndex := currentIndex - 1;
        selectedOption := if k >= 0 then Some(answers[k].selectedAnswer) else None;
        timeRemaining := TimeLimit;
        isAnswerLocked := false;
      }
    }

    /** `handleSkip`: exactly Next. */
    method Skip()
      requires Valid() && OnQuestion()
      modifies this
      ensures Snapshot() == Advance(old(Snapshot()), questions, config) && Valid()
    {
      Next(true);
    }

    /** One second of the interval, which runs while the lock is off and questions are loaded. */
    method Tick()
      requires Valid() && result.None?
      modifies this
      ensures Snapshot() == Countdown(old(Snapshot()), questions, config) && Valid()
    {
      CountdownInv(Snapshot(), questions, config);
      if isAnswerLocked || |questions| == 0 {
        return;
      }
      if timeRemaining <= 1 {
        IndexInRange(Snapshot(), questions, config);
        Next(true);
        timeRemaining := TimeLimit;
      } else {
        timeRemaining := timeRemaining - 1;
      }
    }
  }

  // ---- the entry check: a stored configuration, or a topic taken from the path ----

  /** The page's own slug table. */
  const FallbackTopics: map<string, string> := map[
    "csharp_basics" := "C# Basics",
    "control_flows_csharp" := "Control Flows C#",
    "csharp_aspdotnet_core" := "C# ASP.NET Core",
    "csharp_entity_framework" := "C# Entity Framework",
    "csharp_linq" := "C# LINQ",
    "dotnet9_features" := ".NET9 Features",
    "csharp_aspdotnet_middleware" := "C# ASP.NET Core Middleware & Pipeline",
    "csharp_core" := "C# Core"
  ]

  /** Questions asked when the topic comes from the path. */
  const FallbackCount := 10

  /** `path.replace("/", "")`: only the first slash is removed. */
  function StripFirstSlash(path: string): (r: string)
    ensures '/' !in path ==> r == path
    ensures '/' in path ==> |r| == |path| - 1 && exists k :: 0 <= k < |path| && path[k] == '/' && r == path[..k] + path[k + 1..]
  {
    var k := IndexOf(path, '/');
    if k < 0 then path else path[..k] + path[k + 1..]
  }

  /** A path made of a slash and a slug without slashes gives back the slug. */
  lemma StripLeadingSlash(slug: string)
    requires '/' !in slug
    ensures StripFirstSlash("/" + slug) == slug
  {
    assert ("/" + slug)[0] == '/';
    assert ("/" + slug)[1..] == slug;
  }

  /** How the page starts: with the stored configuration, with one made from the path, or by going home. */
  datatype Entry = Resume(config: QuizConfig) | FromPath(config: QuizConfig) | GoHome

  function Enter(stored: Option<QuizConfig>, path: string): (e: Entry)
    ensures stored.Some? && stored.value.topic != "" ==> e == Resume(stored.value)
    ensures !(stored.Some? && stored.value.topic != "") ==>
      (StripFirstSlash(path) in FallbackTopics <==> e.FromPath?) && (e.FromPath? || e.GoHome?)
    ensures e.FromPath? ==> e.config == QuizConfig(FallbackTopics[StripFirstSlash(path)], FallbackCount)
  {
    if stored.Some? && stored.value.topic != "" then Resume(stored.value)
    else
      var slug := StripFirstSlash(path);
      if slug in FallbackTopics then FromPath(QuizConfig(FallbackTopics[slug], FallbackCount)) else GoHome
  }

  /** Every topic in the page's table is one of the quiz topics. */
  lemma FallbackTopicsKnown()
    ensures forall slug :: slug in FallbackTopics ==> FallbackTopics[slug] in QuizTopics
  {
  }

  /** A configuration made from the path is always a valid one. */
  lemma FromPathValid(stored: Option<QuizConfig>, path: string)
    ensures Enter(stored, path).FromPath? ==> ValidConfig(Enter(stored, path).config)
  {
    FallbackTopicsKnown();
  }
}

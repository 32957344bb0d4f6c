/**
  The start screen (client/src/pages/home.tsx): the topic and question count the form starts
  with, the count typed into the number field, the quick-pick badges, the configuration the
  start button stores, and the three latest blog posts shown beside the form.
*/
module Home {
  import opened Wrappers
  import opened Text
  import opened Schema
  import Sorting
  import BlogLoader

  /** The two state cells of the form. */
  datatype Form = Form(topic: string, questionCount: int)

  /** The form as the page first renders it: the first topic and 20 questions. */
  function InitialForm(): (f: Form)
    ensures f.topic == QuizTopics[0] && f.topic in QuizTopics
    ensures f.questionCount == 20
  {
    Form(QuizTopics[0], 20)
  }

  /** The first topic of the list is "C# Basics". */
  lemma InitialTopic()
    ensures InitialForm().topic == "C# Basics"
  {
  }

  /**
    `parseInt(value) || 20` when the number field changes: a text that does not start with a
    number, or that reads as 0, gives 20; any other number is kept as typed, out of range or not.
  */
  function CountInput(f: Form, value: string): (g: Form)
    ensures g.topic == f.topic
    ensures g.questionCount != 0
    ensures ParseInt(value).Some? && ParseInt(value).value != 0 ==> g.questionCount == ParseInt(value).value
    ensures ParseInt(value).None? || ParseInt(value) == Some(0) ==> g.questionCount == 20
  {
    f.(questionCount := NumberOr(ParseInt(value), 20))
  }

  /** A number typed into the field is taken as it is, and a typed 0 becomes 20. */
  lemma CountInputOfNumber(f: Form, n: int)
    ensures CountInput(f, IntToString(n)).questionCount == (if n == 0 then 20 else n)
  {
    ParseIntToString(n);
  }

  /** The badges offered beside the field. */
  const QuickPicks: seq<int> := [10, 20, 30]

  /** Clicking a badge sets the count to its value. */
  function QuickPick(f: Form, pick: int): (g: Form)
    ensures g.topic == f.topic && g.questionCount == pick
  {
    f.(questionCount := pick)
  }

  /** A badge is drawn as the selected one when the count equals its value. */
  predicate Highlighted(f: Form, pick: int) {
    f.questionCount == pick
  }

  /** After a click exactly the clicked badge is highlighted. */
  lemma QuickPickHighlights(f: Form, i: nat)
    requires i < |QuickPicks|
    ensures forall j :: 0 <= j < |QuickPicks| ==> (Highlighted(QuickPick(f, QuickPicks[i]), QuickPicks[j]) <==> i == j)
  {
  }

  /** `Math.min(Math.max(n, 5), 50)`. */
  function Clamp(n: int): (c: int)
    ensures 5 <= c <= 50
    ensures 5 <= n <= 50 ==> c == n
    ensures n < 5 ==> c == 5
    ensures n > 50 ==> c == 50
  {
    Min(Max(n, 5), 50)
  }

  /** Clamping twice is clamping once. */
  lemma ClampIdempotent(n: int)
    ensures Clamp(Clamp(n)) == Clamp(n)
  {
  }

  /** The quick picks lie in the clamped range, so starting with one asks for exactly that many. */
  lemma QuickPicksInRange()
    ensures forall i :: 0 <= i < |QuickPicks| ==> Clamp(QuickPicks[i]) == QuickPicks[i]
  {
  }

  /** `handleStartQuiz`: the configuration stored before going to the quiz page. */
  function StartQuiz(f: Form): (c: QuizConfig)
    ensures c.topic == f.topic
    ensures 5 <= c.questionCount <= 50
    ensures 5 <= f.questionCount <= 50 ==> c.questionCount == f.questionCount
  {
    QuizConfig(f.topic, Clamp(f.questionCount))
  }

  /**
    The topic menu offers only the quiz topics, so every form the page can reach stores a valid
    configuration, whatever was typed into the number field.
  */
  lemma StartQuizValid(f: Form)
    requires f.topic in QuizTopics
    ensures ValidConfig(StartQuiz(f))
  {
  }

  /** What the user can do to the form. */
  datatype Edit = PickTopic(topic: string) | TypeCount(value: string) | ClickPick(pick: int)

  function Apply(f: Form, e: Edit): Form {
    match e
    case PickTopic(t) => f.(topic := t)
    case TypeCount(v) => CountInput(f, v)
    case ClickPick(p) => QuickPick(f, p)
  }

  function ApplyAll(f: Form, edits: seq<Edit>): Form
    decreases |edits|
  {
    if edits == [] then f else ApplyAll(Apply(f, edits[0]), edits[1..])
  }

  /** An edit to the form is a pick from the menu when it changes the topic. */
  predicate FromMenu(e: Edit) {
    e.PickTopic? ==> e.topic in QuizTopics
  }

  /** From the initial form, any sequence of edits through the menu keeps the topic a quiz topic. */
  lemma {:induction false} EditsKeepTopic(f: Form, edits: seq<Edit>)
    requires f.topic in QuizTopics
    requires forall k :: 0 <= k < |edits| ==> FromMenu(edits[k])
    ensures ApplyAll(f, edits).topic in QuizTopics
    ensures ValidConfig(StartQuiz(ApplyAll(f, edits)))
    decreases |edits|
  {
    if edits != [] {
      assert FromMenu(edits[0]);
      EditsKeepTopic(Apply(f, edits[0]), edits[1..]);
    }
  }

  /** A post may come before another in the latest list when its date is not earlier. */
  predicate NotOlder(time: string -> int, a: BlogLoader.Post, b: BlogLoader.Post) {
    time(BlogLoader.DateText(a.date)) >= time(BlogLoader.DateText(b.date))
  }

  lemma NotOlderOrders(time: string -> int)
    ensures Sorting.TotalPreorder((a, b) => NotOlder(time, a, b))
  {
  }

  /**
    The latest posts: the posts ordered by the time of their date, newest first, and the first
    three kept. `time` stands for `new Date(date).getTime()`.
  */
  method LatestPosts(blogs: seq<BlogLoader.Post>, time: string -> int) returns (latest: seq<BlogLoader.Post>)
    ensures |latest| == Min(3, |blogs|)
    ensures multiset(latest) <= multiset(blogs)
    ensures forall i, j :: 0 <= i < j < |latest| ==> NotOlder(time, latest[i], latest[j])
    ensures forall p, i :: p in multiset(blogs) - multiset(latest) && 0 <= i < |latest| ==> NotOlder(time, latest[i], p)
  {
    var le := (a, b) => NotOlder(time, a, b);
    NotOlderOrders(time);
    var sorted := Sorting.Sort(blogs, le);
    var m := Min(3, |sorted|);
    latest := sorted[..m];
    Sorting.PrefixFirst(sorted, le, m);
    assert sorted == latest + sorted[m..];
    assert multiset(sorted) == multiset(latest) + multiset(sorted[m..]);
    forall p, i | p in multiset(blogs) - multiset(latest) && 0 <= i < |latest|
      ensures NotOlder(time, latest[i], p)
    {
      assert p in multiset(sorted[m..]);
      var j :| 0 <= j < |sorted[m..]| && sorted[m..][j] == p;
      assert le(sorted[i], sorted[m + j]);
    }
  }
}

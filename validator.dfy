/**
  The offline checker of the question bank (server/data/scripts/validateQuestions.cjs). Each
  question of each topic is checked field by field and every problem found is recorded as an
  issue, in the order the checks run; the report lists the questions that have at least one.
  The bank is read-only: nothing is corrected.
*/
module Validator {
  import opened Wrappers
  import opened Text

  /** A value `JSON.parse` can produce. Numbers are kept as reals. */
  datatype Json =
    | JNull
    | JBool(b: bool)
    | JNum(n: real)
    | JStr(s: string)
    | JArr(items: seq<Json>)
    | JObj(fields: map<string, Json>)

  /** `typeof v`. */
  function TypeOf(v: Json): string {
    match v
    case JBool(_) => "boolean"
    case JNum(_) => "number"
    case JStr(_) => "string"
    case _ => "object"
  }

  /** `obj.key` on a value that is not null: the field of an object, and `undefined` otherwise. */
  function Field(obj: Json, key: string): (f: Option<Json>)
    requires !obj.JNull?
    ensures f.Some? <==> obj.JObj? && key in obj.fields
  {
    if obj.JObj? && key in obj.fields then Some(obj.fields[key]) else None
  }

  /** `v === undefined || v === null`. */
  predicate Absent(v: Option<Json>) {
    v.None? || v.value.JNull?
  }

  /** `hasUnmatchedBackticks`: a text with an odd number of backticks; never a value of another type. */
  predicate HasUnmatchedBackticks(v: Json) {
    v.JStr? && CountChar(v.s, '`') % 2 != 0
  }

  /** The number of backticks of two texts put together is the sum of theirs. */
  lemma {:induction false} CountCharAppend(a: string, b: string, c: char)
    ensures CountChar(a + b, c) == CountChar(a, c) + CountChar(b, c)
    decreases |a|
  {
    if a == [] {
      assert a + b == b;
    } else {
      assert (a + b)[1..] == a[1..] + b;
      CountCharAppend(a[1..], b, c);
    }
  }

  /** Code quoted as "`code`" keeps the balance of the text around it. */
  lemma QuotedCodeBalanced(before: string, code: string, after: string)
    requires '`' !in code
    ensures HasUnmatchedBackticks(JStr(before + "`" + code + "`" + after)) <==>
      HasUnmatchedBackticks(JStr(before + after))
  {
    assert CountChar(code, '`') == 0 by {
      CountCharZero(code, '`');
    }
    CountCharAppend(before, "`", '`');
    CountCharAppend(before + "`", code, '`');
    CountCharAppend(before + "`" + code, "`", '`');
    CountCharAppend(before + "`" + code + "`", after, '`');
    CountCharAppend(before, after, '`');
  }

  lemma {:induction false} CountCharZero(s: string, c: char)
    requires c !in s
    ensures CountChar(s, c) == 0
    decreases |s|
  {
    if s != [] {
      assert s[0] in s;
      assert forall x :: x in s[1..] ==> x in s;
      CountCharZero(s[1..], c);
    }
  }

  /** Everything the checks can report about a question. */
  datatype Issue =
    | QMissing
    | QNotString(typeName: string)
    | QTooShort
    | QBackticks
    | OptionsNotArray
    | OptionsLength(length: nat)
    | OptionNotString(index: nat, typeName: string)
    | OptionTooShort(index: nat)
    | OptionBackticks(index: nat)
    | DuplicateOption(text: string, indices: seq<nat>)
    | AnswerMissing
    | AnswerNotNumber(typeName: string)
    | AnswerRangeUnknown
    | AnswerOutOfRange(answer: real)
    | ExplanationNotString(typeName: string)
    | ExplanationTooShort
    | ExplanationBackticks
    | TopicNotArray

  // ---------------------------------------------------------------------------------------
  // The checks of one question, field by field (server/data/scripts/validateQuestions.cjs:15-86)
  // ---------------------------------------------------------------------------------------

  /** The issues of a text field that is present: too short once trimmed, and unbalanced backticks. */
  function TextIssues(s: string, minLength: nat, tooShort: Issue, backticks: Issue): (r: seq<Issue>)
    ensures |r| <= 2
  {
    Flags(|Trim(s)| < minLength, HasUnmatchedBackticks(JStr(s)), tooShort, backticks)
  }

  /** The first issue if its check fails, then the second if its check fails. */
  function Flags(first: bool, second: bool, x: Issue, y: Issue): (r: seq<Issue>)
    ensures |r| <= 2
  {
    (if first then [x] else []) + (if second then [y] else [])
  }

  /** With two distinct issues, each is in the list exactly when its check failed, and nothing else is. */
  lemma FlagsExact(first: bool, second: bool, x: Issue, y: Issue)
    requires x != y
    ensures x in Flags(first, second, x, y) <==> first
    ensures y in Flags(first, second, x, y) <==> second
    ensures forall z :: z in Flags(first, second, x, y) ==> z == x || z == y
  {
  }

  /** A text that passes: a string of at least `minLength` characters once trimmed, with balanced backticks. */
  predicate GoodText(v: Json, minLength: nat) {
    v.JStr? && |Trim(v.s)| >= minLength && !HasUnmatchedBackticks(v)
  }

  /** A present text has no issue exactly when it passes. */
  lemma TextIssuesEmpty(s: string, minLength: nat, tooShort: Issue, backticks: Issue)
    ensures TextIssues(s, minLength, tooShort, backticks) == [] <==> GoodText(JStr(s), minLength)
  {
  }

  /** With two distinct issues to report, each is reported exactly when its own check fails, and nothing else is. */
  lemma TextIssuesExact(s: string, minLength: nat, tooShort: Issue, backticks: Issue)
    requires tooShort != backticks
    ensures tooShort in TextIssues(s, minLength, tooShort, backticks) <==> |Trim(s)| < minLength
    ensures backticks in TextIssues(s, minLength, tooShort, backticks) <==> HasUnmatchedBackticks(JStr(s))
    ensures forall x :: x in TextIssues(s, minLength, tooShort, backticks) ==> x == tooShort || x == backticks
  {
    FlagsExact(|Trim(s)| < minLength, HasUnmatchedBackticks(JStr(s)), tooShort, backticks);
  }

  /** The checks of `q`. */
  function QIssues(q: Option<Json>): (r: seq<Issue>)
    ensures Absent(q) ==> r == [QMissing]
    ensures !Absent(q) && !q.value.JStr? ==> r == [QNotString(TypeOf(q.value))]
  {
    if Absent(q) then [QMissing]
    else if !q.value.JStr? then [QNotString(TypeOf(q.value))]
    else TextIssues(q.value.s, 5, QTooShort, QBackticks)
  }

  /** `q` has no issue exactly when it is a text of at least five characters with balanced backticks. */
  lemma QIssuesEmpty(q: Option<Json>)
    ensures QIssues(q) == [] <==> q.Some? && GoodText(q.value, 5)
  {
    if !Absent(q) && q.value.JStr? {
      TextIssuesEmpty(q.value.s, 5, QTooShort, QBackticks);
    }
  }

  /** The checks of option `i`: a string of at least two characters with balanced backticks. */
  function OptionIssues(i: nat, o: Json): (r: seq<Issue>)
    ensures !o.JStr? ==> r == [OptionNotString(i, TypeOf(o))]
  {
    if !o.JStr? then [OptionNotString(i, TypeOf(o))]
    else TextIssues(o.s, 2, OptionTooShort(i), OptionBackticks(i))
  }

  /** An issue about one option, naming its position. */
  predicate OptionIssue(x: Issue) {
    x.OptionNotString? || x.OptionTooShort? || x.OptionBackticks?
  }

  /** The checks of every option, one list per option, in their order. */
  function OptionChecks(opts: seq<Json>): (checks: seq<seq<Issue>>)
    ensures |checks| == |opts|
  {
    seq(|opts|, i requires 0 <= i < |opts| => OptionIssues(i, opts[i]))
  }

  /** The lists put one after the other. */
  function Flatten(xs: seq<seq<Issue>>): seq<Issue>
    decreases |xs|
  {
    if xs == [] then [] else Flatten(xs[..|xs| - 1]) + xs[|xs| - 1]
  }

  lemma {:induction false} FlattenEmpty(xs: seq<seq<Issue>>)
    ensures Flatten(xs) == [] <==> forall i :: 0 <= i < |xs| ==> xs[i] == []
    decreases |xs|
  {
    if xs != [] {
      var n := |xs| - 1;
      FlattenEmpty(xs[..n]);
      assert forall i :: 0 <= i < n ==> xs[..n][i] == xs[i];
    }
  }

  lemma FlattenStep(xs: seq<seq<Issue>>, i: nat)
    requires i < |xs|
    ensures Flatten(xs[..i + 1]) == Flatten(xs[..i]) + xs[i]
  {
    assert xs[..i + 1][..i] == xs[..i];
  }

  /** Everything in the lists put together comes from one of them. */
  lemma {:induction false} FlattenMember(xs: seq<seq<Issue>>, x: Issue)
    requires x in Flatten(xs)
    ensures exists i :: 0 <= i < |xs| && x in xs[i]
    decreases |xs|
  {
    var n := |xs| - 1;
    if x !in xs[n] {
      FlattenMember(xs[..n], x);
      var i :| 0 <= i < n && x in xs[..n][i];
      assert x in xs[i];
    }
  }

  /** The issues of the options one by one, in their order. */
  function EachOption(opts: seq<Json>): seq<Issue> {
    Flatten(OptionChecks(opts))
  }

  /** No option has an issue of its own exactly when every option is a good text. */
  lemma EachOptionEmpty(opts: seq<Json>)
    ensures EachOption(opts) == [] <==> forall i :: 0 <= i < |opts| ==> GoodText(opts[i], 2)
  {
    var checks := OptionChecks(opts);
    FlattenEmpty(checks);
    forall i | 0 <= i < |opts|
      ensures checks[i] == [] <==> GoodText(opts[i], 2)
    {
      if opts[i].JStr? {
        TextIssuesEmpty(opts[i].s, 2, OptionTooShort(i), OptionBackticks(i));
      }
    }
  }

  /** The issues of option `i` are about option `i`. */
  lemma OptionIssuesNamed(i: nat, o: Json)
    ensures forall x :: x in OptionIssues(i, o) ==> OptionIssue(x) && x.index == i
  {
    if o.JStr? {
      TextIssuesExact(o.s, 2, OptionTooShort(i), OptionBackticks(i));
    }
  }

  /** Each option's own issues name an option of the list. */
  lemma EachOptionNamed(opts: seq<Json>)
    ensures forall x :: x in EachOption(opts) ==> OptionIssue(x) && x.index < |opts|
  {
    forall x | x in EachOption(opts)
      ensures OptionIssue(x) && x.index < |opts|
    {
      FlattenMember(OptionChecks(opts), x);
      var i :| 0 <= i < |opts| && x in OptionChecks(opts)[i];
      OptionIssuesNamed(i, opts[i]);
    }
  }

  /** The key the duplicate check files an option under: its trimmed text, when it is a string. */
  function Key(o: Json): Option<string> {
    if o.JStr? then Some(Trim(o.s)) else None
  }

  /** The key of every option, in their order. */
  function KeyList(opts: seq<Json>): (ks: seq<Option<string>>)
    ensures |ks| == |opts|
  {
    seq(|opts|, i requires 0 <= i < |opts| => Key(opts[i]))
  }

  /** The keys of `seen` in the order they were first met. */
  function Keys(ks: seq<Option<string>>): (keys: seq<string>)
    decreases |ks|
  {
    if ks == [] then []
    else
      var keys := Keys(ks[..|ks| - 1]);
      var k := ks[|ks| - 1];
      if k.Some? && k.value !in keys then keys + [k.value] else keys
  }

  /** `seen[text]`: the positions, in increasing order, of the options filed under `text`. */
  function IndicesOf(ks: seq<Option<string>>, text: string): (idx: seq<nat>)
    ensures forall k :: 0 <= k < |idx| ==> idx[k] < |ks|
    decreases |ks|
  {
    if ks == [] then []
    else
      var n := |ks| - 1;
      IndicesOf(ks[..n], text) + (if ks[n] == Some(text) then [n] else [])
  }

  /** The positions filed under a text are exactly the options with that key, each once and in order. */
  lemma {:induction false} IndicesOfExact(ks: seq<Option<string>>, text: string)
    ensures forall k :: k in IndicesOf(ks, text) <==> 0 <= k < |ks| && ks[k] == Some(text)
    ensures forall a, b :: 0 <= a < b < |IndicesOf(ks, text)| ==> IndicesOf(ks, text)[a] < IndicesOf(ks, text)[b]
    decreases |ks|
  {
    if ks != [] {
      var n := |ks| - 1;
      IndicesOfExact(ks[..n], text);
      assert forall k :: 0 <= k < n ==> ks[..n][k] == ks[k];
    }
  }

  /** A text is a key of `seen` exactly when some option is filed under it; no key is listed twice. */
  lemma {:induction false} KeysExact(ks: seq<Option<string>>)
    ensures forall t :: t in Keys(ks) <==> IndicesOf(ks, t) != []
    ensures forall a, b :: 0 <= a < b < |Keys(ks)| ==> Keys(ks)[a] != Keys(ks)[b]
    decreases |ks|
  {
    if ks != [] {
      var n := |ks| - 1;
      KeysExact(ks[..n]);
    }
  }

  /** One duplicate issue per key met at two positions or more, in the order of `keys`. */
  function DuplicatesOf(ks: seq<Option<string>>, keys: seq<string>): (r: seq<Issue>)
    ensures forall k :: 0 <= k < |r| ==> r[k].DuplicateOption?
    decreases |keys|
  {
    if keys == [] then []
    else
      var n := |keys| - 1;
      var idx := IndicesOf(ks, keys[n]);
      DuplicatesOf(ks, keys[..n]) + (if |idx| > 1 then [DuplicateOption(keys[n], idx)] else [])
  }

  /** `Object.entries(seen)`, keeping the texts found at more than one position, in first-met order. */
  function Duplicates(opts: seq<Json>): seq<Issue> {
    var ks := KeyList(opts);
    DuplicatesOf(ks, Keys(ks))
  }

  /** The duplicate issues over some keys are those of the keys filed at two positions or more. */
  lemma {:induction false} DuplicatesOfExact(ks: seq<Option<string>>, keys: seq<string>)
    ensures forall t, idx :: DuplicateOption(t, idx) in DuplicatesOf(ks, keys) <==>
      t in keys && idx == IndicesOf(ks, t) && |idx| >= 2
    decreases |keys|
  {
    if keys != [] {
      DuplicatesOfExact(ks, keys[..|keys| - 1]);
    }
  }

  /**
    A duplicate issue names a trimmed text and lists every position, in order, of the string
    options with that text; there is one for each text found at two positions or more.
  */
  lemma DuplicatesExact(opts: seq<Json>)
    ensures forall t, idx :: DuplicateOption(t, idx) in Duplicates(opts) <==> idx == IndicesOf(KeyList(opts), t) && |idx| >= 2
    ensures forall t, k :: k in IndicesOf(KeyList(opts), t) <==> 0 <= k < |opts| && Key(opts[k]) == Some(t)
  {
    var ks := KeyList(opts);
    DuplicatesOfExact(ks, Keys(ks));
    KeysExact(ks);
    forall t
      ensures forall k :: k in IndicesOf(ks, t) <==> 0 <= k < |opts| && Key(opts[k]) == Some(t)
    {
      IndicesOfExact(ks, t);
    }
  }

  /** No string options share a trimmed text. */
  predicate DistinctTexts(opts: seq<Json>) {
    forall i, j :: 0 <= i < j < |opts| && Key(opts[i]).Some? ==> Key(opts[i]) != Key(opts[j])
  }

  /** Two distinct positions in a list make it at least two long. */
  lemma TwoMembers(idx: seq<nat>, i: nat, j: nat)
    requires i in idx && j in idx && i != j
    ensures |idx| >= 2
  {
    var a :| 0 <= a < |idx| && idx[a] == i;
    var b :| 0 <= b < |idx| && idx[b] == j;
    assert a != b;
  }

  /** There is no duplicate issue exactly when the string options have distinct trimmed texts. */
  lemma NoDuplicates(opts: seq<Json>)
    ensures Duplicates(opts) == [] <==> DistinctTexts(opts)
  {
    DuplicatesExact(opts);
    var ks := KeyList(opts);
    var d := Duplicates(opts);
    if !DistinctTexts(opts) {
      var i, j :| 0 <= i < j < |opts| && Key(opts[i]).Some? && Key(opts[i]) == Key(opts[j]);
      var t := Key(opts[i]).value;
      var idx := IndicesOf(ks, t);
      TwoMembers(idx, i, j);
      assert DuplicateOption(t, idx) in d;
    }
    if d != [] {
      assert d[0].DuplicateOption?;
      var t, idx := d[0].text, d[0].indices;
      assert DuplicateOption(t, idx) in d;
      IndicesOfExact(ks, t);
      assert idx[0] < idx[1];
      assert idx[0] in idx && idx[1] in idx;
    }
  }

  /** The checks of `options`: the length, each option, then the duplicates. */
  function OptionsIssues(options: Option<Json>): (r: seq<Issue>)
    ensures options.None? || !options.value.JArr? ==> r == [OptionsNotArray]
  {
    if options.None? || !options.value.JArr? then [OptionsNotArray]
    else
      var opts := options.value.items;
      (if |opts| != 4 then [OptionsLength(|opts|)] else []) + EachOption(opts) + Duplicates(opts)
  }

  /**
    An array of options gets a length issue, first, exactly when it does not hold four; the
    other issues are about single options or duplicates.
  */
  lemma OptionsLengthIssue(options: Option<Json>)
    requires options.Some? && options.value.JArr?
    ensures var r, n := OptionsIssues(options), |options.value.items|;
      (n != 4 ==> r[0] == OptionsLength(n)) &&
      (forall x :: x in r && x.OptionsLength? ==> n != 4 && x == OptionsLength(n)) &&
      (forall x :: x in r ==> x.OptionsLength? || OptionIssue(x) || x.DuplicateOption?)
  {
    var opts := options.value.items;
    EachOptionNamed(opts);
    var r := OptionsIssues(options);
    var first := if |opts| != 4 then [OptionsLength(|opts|)] else [];
    assert r == first + EachOption(opts) + Duplicates(opts);
    forall x | x in r
      ensures x.OptionsLength? ==> |opts| != 4 && x == OptionsLength(|opts|)
      ensures x.OptionsLength? || OptionIssue(x) || x.DuplicateOption?
    {
      if x !in first && x !in EachOption(opts) {
        var k :| 0 <= k < |Duplicates(opts)| && Duplicates(opts)[k] == x;
      }
    }
  }

  /** The checks of `answer`; its range is only checked against an array of options. */
  function AnswerIssues(answer: Option<Json>, options: Option<Json>): (r: seq<Issue>)
    ensures |r| <= 1
    ensures r == [] <==>
      (!Absent(answer) && answer.value.JNum? && options.Some? && options.value.JArr? &&
       0.0 <= answer.value.n < |options.value.items| as real)
  {
    if Absent(answer) then [AnswerMissing]
    else if !answer.value.JNum? then [AnswerNotNumber(TypeOf(answer.value))]
    else if options.None? || !options.value.JArr? then [AnswerRangeUnknown]
    else if answer.value.n < 0.0 || answer.value.n >= |options.value.items| as real then [AnswerOutOfRange(answer.value.n)]
    else []
  }

  /** The checks of the optional `explanation`. */
  function ExplanationIssues(e: Option<Json>): (r: seq<Issue>)
    ensures Absent(e) ==> r == []
    ensures !Absent(e) && !e.value.JStr? ==> r == [ExplanationNotString(TypeOf(e.value))]
  {
    if Absent(e) then []
    else if !e.value.JStr? then [ExplanationNotString(TypeOf(e.value))]
    else TextIssues(e.value.s, 5, ExplanationTooShort, ExplanationBackticks)
  }

  /** An explanation has no issue exactly when it is absent or a good text of at least five characters. */
  lemma ExplanationIssuesEmpty(e: Option<Json>)
    ensures ExplanationIssues(e) == [] <==> Absent(e) || GoodText(e.value, 5)
  {
    if !Absent(e) && e.value.JStr? {
      TextIssuesEmpty(e.value.s, 5, ExplanationTooShort, ExplanationBackticks);
    }
  }

  /** The issues of a question, in the order `validateQuestion` finds them. */
  function Issues(qObj: Json): seq<Issue>
    requires !qObj.JNull?
  {
    var options := Field(qObj, "options");
    QIssues(Field(qObj, "q")) + OptionsIssues(options) +
    AnswerIssues(Field(qObj, "answer"), options) + ExplanationIssues(Field(qObj, "explanation"))
  }

  /** A question the bank should hold, stated field by field. */
  predicate WellFormed(qObj: Json)
    requires !qObj.JNull?
  {
    var q, options, answer, e := Field(qObj, "q"), Field(qObj, "options"), Field(qObj, "answer"), Field(qObj, "explanation");
    q.Some? && GoodText(q.value, 5) &&
    options.Some? && options.value.JArr? && |options.value.items| == 4 &&
    (forall i :: 0 <= i < 4 ==> GoodText(options.value.items[i], 2)) &&
    DistinctTexts(options.value.items) &&
    answer.Some? && answer.value.JNum? && 0.0 <= answer.value.n < 4.0 &&
    (Absent(e) || GoodText(e.value, 5))
  }

  /** The options are fine exactly when there are four good texts, no two alike once trimmed. */
  lemma OptionsClean(options: Option<Json>)
    ensures OptionsIssues(options) == [] <==>
      options.Some? && options.value.JArr? && |options.value.items| == 4 &&
      (forall i :: 0 <= i < 4 ==> GoodText(options.value.items[i], 2)) &&
      DistinctTexts(options.value.items)
  {
    if options.Some? && options.value.JArr? {
      var opts := options.value.items;
      EachOptionEmpty(opts);
      NoDuplicates(opts);
    }
  }

  /**
    A question has no issue exactly when it is well formed: a long enough question text, four
    distinct good options, an answer that is a position among them and, if there is one, a
    long enough explanation.
  */
  lemma NoIssuesIffWellFormed(qObj: Json)
    requires !qObj.JNull?
    ensures Issues(qObj) == [] <==> WellFormed(qObj)
  {
    QIssuesEmpty(Field(qObj, "q"));
    OptionsClean(Field(qObj, "options"));
    ExplanationIssuesEmpty(Field(qObj, "explanation"));
  }

  /** The two checks of a present text, pushing what they find. */
  method CheckText(s: string, minLength: nat, tooShort: Issue, backticks: Issue) returns (found: seq<Issue>)
    ensures found == TextIssues(s, minLength, tooShort, backticks)
  {
    found := [];
    if |Trim(s)| < minLength {
      found := [tooShort];
    }
    if HasUnmatchedBackticks(JStr(s)) {
      found := found + [backticks];
    }
  }

  /** `validateQuestion`: the checks run in order, each pushing what it finds onto `issues`. */
  method ValidateQuestion(qObj: Json) returns (issues: seq<Issue>)
    requires !qObj.JNull?
    ensures issues == Issues(qObj)
  {
    var options := Field(qObj, "options");
    issues := CheckQ(Field(qObj, "q"));
    var found := CheckOptions(options);
    issues := issues + found;
    found := CheckAnswer(Field(qObj, "answer"), options);
    issues := issues + found;
    found := CheckExplanation(Field(qObj, "explanation"));
    issues := issues + found;
  }

  /** The checks of `q`. */
  method CheckQ(q: Option<Json>) returns (found: seq<Issue>)
    ensures found == QIssues(q)
  {
    if q.None? || q.value.JNull? {
      found := [QMissing];
    } else if !q.value.JStr? {
      found := [QNotString(TypeOf(q.value))];
    } else {
      found := CheckText(q.value.s, 5, QTooShort, QBackticks);
    }
  }

  /** The checks of `options`: the length, then each option, then the duplicates. */
  method CheckOptions(options: Option<Json>) returns (found: seq<Issue>)
    ensures found == OptionsIssues(options)
  {
    if options.None? || !options.value.JArr? {
      found := [OptionsNotArray];
    } else {
      var opts := options.value.items;
      found := [];
      if |opts| != 4 {
        found := [OptionsLength(|opts|)];
      }
      var each := CheckEachOption(opts);
      found := found + each;
      var duplicates := CheckDuplicates(opts);
      found := found + duplicates;
    }
  }

  /** The checks of `answer`. */
  method CheckAnswer(answer: Option<Json>, options: Option<Json>) returns (found: seq<Issue>)
    ensures found == AnswerIssues(answer, options)
  {
    found := [];
    if answer.None? || answer.value.JNull? {
      found := [AnswerMissing];
    } else if !answer.value.JNum? {
      found := [AnswerNotNumber(TypeOf(answer.value))];
    } else if options.None? || !options.value.JArr? {
      found := [AnswerRangeUnknown];
    } else if answer.value.n < 0.0 || answer.value.n >= |options.value.items| as real {
      found := [AnswerOutOfRange(answer.value.n)];
    }
  }

  /** The checks of `explanation`, when there is one. */
  method CheckExplanation(e: Option<Json>) returns (found: seq<Issue>)
    ensures found == ExplanationIssues(e)
  {
    found := [];
    if e.Some? && !e.value.JNull? {
      if !e.value.JStr? {
        found := [ExplanationNotString(TypeOf(e.value))];
      } else {
        found := CheckText(e.value.s, 5, ExplanationTooShort, ExplanationBackticks);
      }
    }
  }

  /** The checks of option `i`. */
  method CheckOption(i: nat, o: Json) returns (found: seq<Issue>)
    ensures found == OptionIssues(i, o)
  {
    if !o.JStr? {
      found := [OptionNotString(i, TypeOf(o))];
    } else {
      found := CheckText(o.s, 2, OptionTooShort(i), OptionBackticks(i));
    }
  }

  /** The first `forEach` over the options: each option's own checks, pushed in order. */
  method CheckEachOption(opts: seq<Json>) returns (found: seq<Issue>)
    ensures found == EachOption(opts)
  {
    ghost var checks := OptionChecks(opts);
    found := [];
    var i := 0;
    while i < |opts|
      invariant 0 <= i <= |opts|
      invariant found == Flatten(checks[..i])
    {
      var more := CheckOption(i, opts[i]);
      assert more == checks[i];
      FlattenStep(checks, i);
      found := found + more;
      i := i + 1;
    }
    assert checks[..i] == checks;
  }

  /**
    The duplicate check: `seen` is filled with the positions of each trimmed text, then one
    issue is pushed per text seen twice or more, in the order the texts were first met.
  */
  method CheckDuplicates(opts: seq<Json>) returns (found: seq<Issue>)
    ensures found == Duplicates(opts)
  {
    ghost var ks := KeyList(opts);
    var seen, order := FillSeen(opts);
    found := [];
    var j := 0;
    while j < |order|
      invariant 0 <= j <= |order|
      invariant found == DuplicatesOf(ks, order[..j])
    {
      assert order[j] in order;
      var indices := seen[order[j]];
      if |indices| > 1 {
        found := found + [DuplicateOption(order[j], indices)];
      }
      assert order[..j + 1][..j] == order[..j];
      j := j + 1;
    }
    assert order[..j] == order;
  }

  /**
    The second `forEach` over the options: `seen` maps each trimmed text to its positions;
    `order` is the order in which its keys were added. `Object.entries` lists integer-like keys
    first, in ascending order, and the others in this order; the model keeps this order for all.
  */
  method FillSeen(opts: seq<Json>) returns (seen: map<string, seq<nat>>, order: seq<string>)
    ensures order == Keys(KeyList(opts))
    ensures forall t :: t in seen <==> t in order
    ensures forall t :: t in seen ==> seen[t] == IndicesOf(KeyList(opts), t)
  {
    ghost var ks := KeyList(opts);
    seen := map[];
    order := [];
    SeenNone(ks);
    var i := 0;
    while i < |opts|
      invariant 0 <= i <= |opts|
      invariant SeenAfter(ks, i, seen, order)
    {
      var key := Key(opts[i]);
      if key.Some? {
        seen, order := AddToSeen(ks, i, seen, order, key.value);
      } else {
        SkipOption(ks, i, seen, order);
      }
      i := i + 1;
    }
    SeenAll(ks, seen, order);
  }

  /** Before the first option nothing is filed. */
  lemma SeenNone(ks: seq<Option<string>>)
    ensures SeenAfter(ks, 0, map[], [])
  {
    assert ks[..0] == [];
  }

  /** An option that is not a string is filed nowhere. */
  lemma SkipOption(ks: seq<Option<string>>, i: nat, seen: map<string, seq<nat>>, order: seq<string>)
    requires i < |ks| && ks[i] == None
    requires SeenAfter(ks, i, seen, order)
    ensures SeenAfter(ks, i + 1, seen, order)
  {
    IndicesStep(ks, i);
  }

  /** Once every option is filed, `seen` holds the positions of each key over all the options. */
  lemma SeenAll(ks: seq<Option<string>>, seen: map<string, seq<nat>>, order: seq<string>)
    requires SeenAfter(ks, |ks|, seen, order)
    ensures order == Keys(ks)
    ensures forall t :: t in seen <==> t in order
    ensures forall t :: t in seen ==> seen[t] == IndicesOf(ks, t)
  {
    assert ks[..|ks|] == ks;
  }

  /** `seen` and the order of its keys as they are once the first `i` options are filed. */
  ghost predicate SeenAfter(ks: seq<Option<string>>, i: nat, seen: map<string, seq<nat>>, order: seq<string>)
    requires i <= |ks|
  {
    order == Keys(ks[..i]) &&
    (forall t :: t in seen <==> t in order) &&
    (forall t :: t in seen ==> seen[t] == IndicesOf(ks[..i], t))
  }

  /** Files option `i` under its key: a new key gets an empty list first, then the position is pushed. */
  method AddToSeen(ghost ks: seq<Option<string>>, i: nat, seen: map<string, seq<nat>>, order: seq<string>, key: string)
    returns (seen': map<string, seq<nat>>, order': seq<string>)
    requires i < |ks| && ks[i] == Some(key)
    requires SeenAfter(ks, i, seen, order)
    ensures SeenAfter(ks, i + 1, seen', order')
    ensures seen'.Keys == seen.Keys + {key}
  {
    IndicesStep(ks, i);
    var positions := [];
    order' := order;
    if key in seen {
      positions := seen[key];
    } else {
      KeysExact(ks[..i]);
      order' := order' + [key];
    }
    assert positions == IndicesOf(ks[..i], key);
    seen' := seen[key := positions + [i]];
    forall t | t in seen'
      ensures seen'[t] == IndicesOf(ks[..i + 1], t)
    {
      if t != key {
        assert seen'[t] == seen[t];
      }
    }
  }

  /** One more option adds its position to its own key and leaves the other keys' positions alone. */
  lemma IndicesStep(ks: seq<Option<string>>, i: nat)
    requires i < |ks|
    ensures forall t :: IndicesOf(ks[..i + 1], t) == IndicesOf(ks[..i], t) + (if ks[i] == Some(t) then [i] else [])
    ensures Keys(ks[..i + 1]) ==
      (if ks[i].Some? && ks[i].value !in Keys(ks[..i]) then Keys(ks[..i]) + [ks[i].value] else Keys(ks[..i]))
  {
    assert ks[..i + 1][..i] == ks[..i];
  }

  // ---------------------------------------------------------------------------------------
  // The file loop of `validateFile` (server/data/scripts/validateQuestions.cjs:8, 110-126)
  // ---------------------------------------------------------------------------------------

  /** `META_KEYS`: top-level entries that are not topics. */
  const MetaKeys: seq<string> := ["author", "site", "built", "credit", "keywords"]

  /** A line of the report: a topic, the position of the question (none for "-"), and its issues. */
  datatype Entry = Entry(topic: string, index: Option<nat>, issues: seq<Issue>)

  /**
    How the loop ends: with the report, or with the `TypeError` thrown when a question is
    `null` and its `q` is read.
  */
  datatype Outcome = Report(entries: seq<Entry>) | Thrown

  /** What `validateQuestion` makes of each question of a list: its issues, or `None` where it throws. */
  function Verdicts(list: seq<Json>): (vs: seq<Option<seq<Issue>>>)
    ensures |vs| == |list|
    ensures forall i :: 0 <= i < |list| ==> (vs[i].None? <==> list[i].JNull?)
  {
    seq(|list|, i requires 0 <= i < |list| => if list[i].JNull? then None else Some(Issues(list[i])))
  }

  /** The entries of a list's verdicts: one per question with at least one issue; `None` once one throws. */
  function EntriesOf(topic: string, vs: seq<Option<seq<Issue>>>): (r: Option<seq<Entry>>)
    ensures r.None? <==> None in vs
    decreases |vs|
  {
    if vs == [] then Some([])
    else
      var n := |vs| - 1;
      var firsts := EntriesOf(topic, vs[..n]);
      assert None in vs <==> None in vs[..n] || vs[n] == None by {
        assert vs == vs[..n] + [vs[n]];
      }
      if firsts.None? || vs[n].None? then None
      else Some(firsts.value + (if vs[n].value != [] then [Entry(topic, Some(n), vs[n].value)] else []))
  }

  /** The entries of one topic's list: the questions with at least one issue; `None` if one is null. */
  function ListEntries(topic: string, list: seq<Json>): (r: Option<seq<Entry>>)
    ensures r.None? <==> JNull in list
  {
    var vs := Verdicts(list);
    assert None in vs <==> JNull in list by {
      if None in vs {
        var i :| 0 <= i < |vs| && vs[i] == None;
        assert list[i] == JNull;
      }
      if JNull in list {
        var i :| 0 <= i < |list| && list[i] == JNull;
        assert vs[i] == None;
      }
    }
    EntriesOf(topic, vs)
  }

  /** The entries one top-level entry adds: none for metadata, one for a value that is not a list. */
  function TopicEntries(topic: string, value: Json): (r: Option<seq<Entry>>)
    ensures topic in MetaKeys ==> r == Some([])
    ensures topic !in MetaKeys && !value.JArr? ==> r == Some([Entry(topic, None, [TopicNotArray])])
  {
    if topic in MetaKeys then Some([])
    else if !value.JArr? then Some([Entry(topic, None, [TopicNotArray])])
    else ListEntries(topic, value.items)
  }

  /** The report over the top-level entries, in the order the loop visits them. */
  function FileReport(topics: seq<(string, Json)>): Outcome
    decreases |topics|
  {
    if topics == [] then Report([])
    else
      var n := |topics| - 1;
      match FileReport(topics[..n])
      case Thrown => Thrown
      case Report(es) =>
        match TopicEntries(topics[n].0, topics[n].1)
        case None => Thrown
        case Some(more) => Report(es + more)
  }

  /** The loop of `validateFile` over the top-level entries, with `continue` for metadata and non-lists. */
  method ValidateFile(topics: seq<(string, Json)>) returns (outcome: Outcome)
    ensures outcome == FileReport(topics)
  {
    var report: seq<Entry> := [];
    var t := 0;
    while t < |topics|
      invariant 0 <= t <= |topics|
      invariant FileReport(topics[..t]) == Report(report)
    {
      var (topic, list) := topics[t];
      if topic in MetaKeys {
        FileStep(topics, t, report, []);
        assert report + [] == report;
        t := t + 1;
        continue;
      }
      if !list.JArr? {
        FileStep(topics, t, report, [Entry(topic, None, [TopicNotArray])]);
        report := report + [Entry(topic, None, [TopicNotArray])];
        t := t + 1;
        continue;
      }
      var more := CheckList(topic, list.items);
      if more.None? {
        FileStep(topics, t, report, []);
        ThrownStays(topics, t + 1);
        return Thrown;
      }
      FileStep(topics, t, report, more.value);
      report := report + more.value;
      t := t + 1;
    }
    assert topics[..t] == topics;
    outcome := Report(report);
  }

  /** One more top-level entry: its entries are added to the report, or the loop throws. */
  lemma FileStep(topics: seq<(string, Json)>, t: nat, report: seq<Entry>, more: seq<Entry>)
    requires t < |topics| && FileReport(topics[..t]) == Report(report)
    ensures TopicEntries(topics[t].0, topics[t].1) == Some(more) ==> FileReport(topics[..t + 1]) == Report(report + more)
    ensures TopicEntries(topics[t].0, topics[t].1).None? ==> FileReport(topics[..t + 1]) == Thrown
  {
    assert topics[..t + 1][..t] == topics[..t];
  }

  /** Once the loop has thrown, the entries after it change nothing. */
  lemma {:induction false} ThrownStays(topics: seq<(string, Json)>, k: nat)
    requires k <= |topics| && FileReport(topics[..k]) == Thrown
    ensures FileReport(topics) == Thrown
    decreases |topics| - k
  {
    if k == |topics| {
      assert topics[..k] == topics;
    } else {
      assert topics[..k + 1][..k] == topics[..k];
      ThrownStays(topics, k + 1);
    }
  }

  /** `list.forEach(...)`: each question validated, the ones with issues reported. */
  method CheckList(topic: string, list: seq<Json>) returns (r: Option<seq<Entry>>)
    ensures r == ListEntries(topic, list)
  {
    ghost var vs := Verdicts(list);
    var entries: seq<Entry> := [];
    assert vs[..0] == [];
    var index := 0;
    while index < |list|
      invariant 0 <= index <= |list|
      invariant EntriesOf(topic, vs[..index]) == Some(entries)
    {
      var qObj := list[index];
      if qObj.JNull? {
        assert list[index] in list;
        return None;
      }
      var issues := ValidateQuestion(qObj);
      assert vs[index] == Some(issues);
      EntriesStep(topic, vs, index, entries, issues);
      if issues != [] {
        entries := entries + [Entry(topic, Some(index), issues)];
      } else {
        assert entries + [] == entries;
      }
      index := index + 1;
    }
    assert vs[..index] == vs;
    r := Some(entries);
  }

  /** One more question extends the entries of the ones before it. */
  lemma EntriesStep(topic: string, vs: seq<Option<seq<Issue>>>, i: nat, entries: seq<Entry>, issues: seq<Issue>)
    requires i < |vs| && vs[i] == Some(issues)
    requires EntriesOf(topic, vs[..i]) == Some(entries)
    ensures EntriesOf(topic, vs[..i + 1]) == Some(entries + if issues != [] then [Entry(topic, Some(i), issues)] else [])
  {
    assert vs[..i + 1][..i] == vs[..i];
  }

  /** Every entry of a report is a question with issues, reported with exactly those issues. */
  lemma {:induction false} EntriesOfExact(topic: string, vs: seq<Option<seq<Issue>>>)
    requires None !in vs
    ensures forall e :: e in EntriesOf(topic, vs).value ==>
      e.topic == topic && e.index.Some? && e.index.value < |vs| &&
      vs[e.index.value] == Some(e.issues) && e.issues != []
    ensures forall i :: 0 <= i < |vs| && vs[i].value != [] ==>
      Entry(topic, Some(i), vs[i].value) in EntriesOf(topic, vs).value
    decreases |vs|
  {
    if vs != [] {
      var n := |vs| - 1;
      assert vs == vs[..n] + [vs[n]];
      assert None !in vs[..n];
      EntriesOfExact(topic, vs[..n]);
      assert forall i :: 0 <= i < n ==> vs[..n][i] == vs[i];
    }
  }

  /**
    A list without null questions is reported in full: every entry is a question of the list with
    its issues, and every question with an issue has its entry.
  */
  lemma ListEntriesExact(topic: string, list: seq<Json>)
    requires JNull !in list
    ensures forall e :: e in ListEntries(topic, list).value ==>
      e.topic == topic && e.index.Some? && e.index.value < |list| &&
      e.issues == Issues(list[e.index.value]) && e.issues != []
    ensures forall i :: 0 <= i < |list| && Issues(list[i]) != [] ==>
      Entry(topic, Some(i), Issues(list[i])) in ListEntries(topic, list).value
  {
    var vs := Verdicts(list);
    assert None !in vs;
    EntriesOfExact(topic, vs);
    forall i | 0 <= i < |list|
      ensures vs[i] == Some(Issues(list[i]))
    {
      assert list[i] in list;
    }
  }

  /** A metadata entry changes nothing, wherever it comes. */
  lemma MetaSkipped(topics: seq<(string, Json)>, key: string, value: Json)
    requires key in MetaKeys
    ensures FileReport(topics + [(key, value)]) == FileReport(topics)
  {
    assert (topics + [(key, value)])[..|topics|] == topics;
  }
}

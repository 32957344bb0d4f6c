# MockDotNet quiz — a Dafny model

MockDotNet is a quiz application for .NET interview practice. The start screen picks a topic
and a number of questions. The server serves that many questions, shuffled, from a question
bank. The quiz page runs a 30-second countdown per question and records one answer per
question. The results page scores the quiz and shows a review. Beside the quiz there is a
small blog: markdown files with a front-matter block, listed newest first with a one-paragraph
summary. An offline script checks the question bank field by field.

This project models that core in Dafny and proves what each part promises.

- `schema.dfy` (module `Schema`): the closed list of nine topic labels, and the question,
  configuration, answer and result records, with the validity rules the schema states.
- `routes.dfy` (`Routes`): the `GET /api/questions` handler.
  - The topic check (400).
  - The label-to-key rewrite: lower case, `c#`, `.net`, `&`, white-space runs, dots.
  - The bank lookup (404).
  - The count default.
  - The shuffle-and-slice selection. The shuffle is a permutation given as a parameter.
- `quiz.dfy` (`Quiz`): the quiz page.
  - Its state cells are the fields of the class `Quiz.Session`.
  - Each handler is a method whose new state is a pure transition on `Quiz.State`: option
    click, Next, Previous, Skip, and the one-second tick.
  - The invariant those transitions keep says entry `k` of the answers is for question `k`.
    It makes the final append in `finishQuiz` equal to an upsert, and the positional score
    of the results page equal to the stored score.
  - It also models the entry check that takes the topic from the path when no configuration
    is stored.
- `results.dfy` (`Results`): the results page.
  - The rounded percentage, including the NaN and infinite cases of an empty quiz.
  - The message and colour bands.
  - Per-question correctness and option highlighting in the review.
  - The redirect when no result is stored, and restart.
- `home.dfy` (`Home`): the start form.
  - The initial topic and count, the count field's `parseInt(...) || 20`, and the quick-pick
    badges.
  - The 5..50 clamp applied when the quiz is started.
  - The three latest blog posts.
- `topic.dfy` (`Topic`): the landing pages of single topics, which store a ten-question
  configuration for the slug of the path.
- `validator.dfy` (`Validator`): the question-bank checker.
  - Every check of `validateQuestion` as a pure function of a JSON value, and the method that
    runs the checks in order.
  - The `seen` grouping of options by trimmed text, as a loop over a map.
  - The loop over the top-level entries of the file, including the `TypeError` that a `null`
    question raises.
- `blogloader.dfy` (`BlogLoader`): front-matter parsing, post building with its defaults,
  the newest-first sort, and the lookup by slug.
- `blogs.dfy` (`Blogs`): the summary of a post, and the "Load more" pager as a class.
- `text.dfy` (`Text`), `sorting.dfy` (`Sorting`), `wrappers.dfy` (`Wrappers`): the
  JavaScript string operations the core relies on, an insertion sort proved sorted and a
  permutation, and `Option`.

## Model

| member | source | states |
|---|---|---|
| Schema.TopicsDistinct | shared/schema.ts:3-13 | There are exactly nine topic labels and no two are equal. |
| Schema.ValidQuestion | shared/schema.ts:19-24 | Four options and an answer in 0..3. It has no contract of its own; `Quiz.UnansweredMisses` uses it: an unanswered entry never scores against a valid question. |
| Schema.ValidConfig | shared/schema.ts:34-37 | A topic of the list and a count in 5..50. It has no contract of its own; `Home.StartQuizValid`, `Topic.StoredValid` and `Quiz.FromPathValid` state that every stored configuration meets it. |
| Routes.Rewrite | server/routes.ts:33-37 | After lower-casing and the `c#`, `.net` and `&` replacements, no `&` and no upper-case ASCII letter is left. |
| Routes.RewriteNoSpace | server/routes.ts:33-37 | The first rewrite steps bring in no white space: a label without white space stays without. |
| Routes.CollapseSpaces | server/routes.ts:38 | Replacing each white-space run by `_` leaves no white space and brings in nothing but `_`. |
| Routes.CollapseCons | server/routes.ts:38 | A word, one space and a text that starts with no space collapse to the word, `_`, and the collapse of the text. |
| Routes.TopicKey | server/routes.ts:33-39 | A normalised key has no white space, no `.`, no `&` and no upper-case ASCII letter. |
| Routes.KeyCons | server/routes.ts:33-39 | The key of a multi-word label is the key of its first word, `_`, and the key of the rest. |
| Routes.KeyOfLabel | server/routes.ts:33-39 | Label `i` of `quizTopics` becomes the storage key listed beside it, e.g. "C# Basics" as `csharp_basics`, ".NET9 Features" as `dotnet9_features`, "Control Flows C#" as `control_flows_csharp`. |
| Routes.StorageKeysDistinct | server/routes.ts:40 | The nine storage keys are pairwise distinct. |
| Routes.TopicKeysDistinct | server/routes.ts:33-39 | No two topic labels share a key of the question bank. |
| Routes.RequestedCount | server/routes.ts:24 | The count is the parsed parameter unless it is missing, does not parse, or is 0; then it is 20. It is never 0. |
| Routes.RequestedCountOfNumber | server/routes.ts:24 | A count written as a number is that number, except that 0 becomes 20. |
| Routes.Pick | server/routes.ts:46 | Drawing elements at a list of positions gives, at each place, the element at that position. |
| Routes.PickSubMultiset | server/routes.ts:46-47 | Elements drawn from pairwise distinct positions form a sub-multiset of the list: no question is served more often than it occurs. |
| Routes.Select | server/routes.ts:46-47 | The served list has the slice length of `min(count, n)`. Entry `k` is question `perm[k]` of the topic's list, and no question is served more often than it occurs. |
| Routes.SelectLength | server/routes.ts:47 | A count `>= 0` serves `min(count, n)` questions and a negative one `max(0, n + count)`. A count of at least `n` serves the whole list. |
| Routes.Lookup | server/routes.ts:40-44 | `questionsData[topicKey] \|\| []`. It has no contract of its own; `Routes.GetQuestions` states the 404 case for a missing or empty list. |
| Routes.GetQuestions | server/routes.ts:22-50 | An absent or unknown topic gives 400 "Invalid topic", whatever the bank holds. A known topic whose list is missing or empty gives 404. Otherwise the shuffled selection is served, and nothing else is. |
| Routes.DefaultCount | server/routes.ts:24 | With no count, a non-numeric one or 0, twenty questions are served, or all of them when the topic has fewer. |
| Quiz.FindIndex | client/src/pages/quiz.tsx:114-116 | The position of the first answer for the question, or -1 exactly when there is none. |
| Quiz.Upsert | client/src/pages/quiz.tsx:112-123 | The new answer is in the list. Entries for other questions stay in place. An entry for the same question is replaced, with the length kept. With none, the answer is appended. |
| Quiz.UpsertDistinct | client/src/pages/quiz.tsx:112-123 | Upserting keeps at most one entry per question, and that entry is the committed answer. |
| Quiz.UpsertAligned | client/src/pages/quiz.tsx:112-123 | When entry `k` answers question `k`, an upsert for the current question replaces that entry or appends it at the end, and the alignment holds afterwards. |
| Quiz.AlignedDistinct | client/src/pages/quiz.tsx:112-123 | Answers aligned with their positions never hold two entries for one question. |
| Quiz.Score | client/src/pages/quiz.tsx:161-166 | The score of the final answers never exceeds the number of entries. |
| Quiz.ScoreBound | client/src/pages/quiz.tsx:161-166 | The score never exceeds the number of questions. |
| Quiz.ScoreFull | client/src/pages/quiz.tsx:161-166 | The score equals the number of entries exactly when every entry is a hit. |
| Quiz.ScoreZero | client/src/pages/quiz.tsx:161-166 | The score is 0 exactly when no entry is a hit. |
| Quiz.UnansweredMisses | client/src/pages/quiz.tsx:161-166 | An entry recorded as -1 never scores against a valid question. |
| Quiz.StartInv | client/src/pages/quiz.tsx:18-22 | The page mounts in a state of the session invariant: index 0, no answers, nothing staged, 30 seconds, unlocked. |
| Quiz.IndexInRange | client/src/pages/quiz.tsx:125-132 | While the quiz runs, the current index is a question of the list, and an answer recorded at that position is for that question. |
| Quiz.FinishAppendIsUpsert | client/src/pages/quiz.tsx:151-159 | On the last question, appending the committed answer is the same as upserting it, and the final answers are one per question, in order. |
| Quiz.Advance | client/src/pages/quiz.tsx:105-133 | `handleNext` as a transition. It has no contract of its own; `Quiz.AdvanceStep` states what it does and `Quiz.AdvanceInv` that it keeps the invariant. |
| Quiz.AdvanceStep | client/src/pages/quiz.tsx:105-133 | The committed answer is for the current question, with the staged option or -1 and `timeSpent` = 30 - remaining. Before the last question the index moves up by one, with the option cleared and the clock back at 30. On the last question the commit is appended and the result carries every answer in order and its score. |
| Quiz.AdvanceInv | client/src/pages/quiz.tsx:105-133 | Next keeps the session invariant. |
| Quiz.Retreat | client/src/pages/quiz.tsx:135-145 | `handlePrevious` as a transition. It has no contract of its own; `Quiz.RetreatStep` states what it does and `Quiz.RetreatInv` that it keeps the invariant. |
| Quiz.RetreatStep | client/src/pages/quiz.tsx:135-145 | Previous does nothing at index 0. Otherwise the index moves down by one, the option recorded for that question is staged again, the clock is back at 30, and the answers are unchanged. |
| Quiz.RetreatInv | client/src/pages/quiz.tsx:135-145 | Previous keeps the session invariant. |
| Quiz.Countdown | client/src/pages/quiz.tsx:89-103 | The one-second tick of the timer effect. It has no contract of its own; `Quiz.CountdownStep` states what it does and `Quiz.CountdownInv` that it keeps the invariant. |
| Quiz.CountdownStep | client/src/pages/quiz.tsx:89-103 | A tick with more than one second left takes one second off. At one second it performs Next and sets the clock back to 30. |
| Quiz.CountdownInv | client/src/pages/quiz.tsx:89-103 | A tick keeps the session invariant, so the clock stays within 1..30 and the lock is never set. |
| Quiz.Step | client/src/pages/quiz.tsx:89-149 | One user or timer event. It has no contract of its own; `Quiz.StepInv` states that it keeps the invariant. |
| Quiz.Run | client/src/pages/quiz.tsx:89-149 | A sequence of events, one after another. It has no contract of its own; `Quiz.RunInv` states that it keeps the invariant. |
| Quiz.StepInv | client/src/pages/quiz.tsx:89-149 | Every user or timer event keeps the session invariant. |
| Quiz.RunInv | client/src/pages/quiz.tsx:89-149 | Any sequence of events from an invariant state ends in an invariant state. |
| Quiz.FinishedResult | client/src/pages/quiz.tsx:151-178 | A finished quiz hands over its configuration and questions, `totalQuestions` = number of questions, one answer per question in order, and the positional score, which lies in 0..total. |
| Quiz.Session.constructor | client/src/pages/quiz.tsx:18-22 | A new session holds the served questions and the configuration, and starts in the initial state. |
| Quiz.Choose | client/src/pages/quiz.tsx:385 | An option click as a transition. It has no contract of its own; `Quiz.Session.SelectOption` states that it stages the option and changes nothing else. |
| Quiz.Session.SelectOption | client/src/pages/quiz.tsx:385 | Clicking an option stages it and changes nothing else. |
| Quiz.Session.Next | client/src/pages/quiz.tsx:105-133 | The new state is the Next transition of the old one, and the invariant still holds. |
| Quiz.Session.Previous | client/src/pages/quiz.tsx:135-145 | The new state is the Previous transition of the old one, and the invariant still holds. |
| Quiz.Session.Skip | client/src/pages/quiz.tsx:147-149 | Skip is exactly Next: a staged option is committed and -1 only when none is staged. |
| Quiz.Session.Tick | client/src/pages/quiz.tsx:89-103 | The new state is the countdown transition of the old one, and the invariant still holds. |
| Quiz.StripFirstSlash | client/src/pages/quiz.tsx:52 | Only the first `/` of the path is removed; a path without one is unchanged. |
| Quiz.StripLeadingSlash | client/src/pages/quiz.tsx:52 | The path of a slug without slashes gives back the slug. |
| Quiz.Enter | client/src/pages/quiz.tsx:45-62 | A stored configuration with a topic is used as it is. Otherwise a path slug in the page's table gives that topic with 10 questions, and any other slug sends the user home. |
| Quiz.FallbackTopicsKnown | client/src/pages/quiz.tsx:25-34 | Every topic of the page's own table is a quiz topic. |
| Quiz.FromPathValid | client/src/pages/quiz.tsx:50-62 | A configuration taken from the path is valid under the configuration schema. |
| Results.Percentage | client/src/pages/results.tsx:27 | The percentage is `100 * score / total` rounded half up. A zero total gives NaN for a zero score and an infinity otherwise. |
| Results.RoundUnique | client/src/pages/results.tsx:27 | The rounded value is unique: one integer's half-open band holds the numerator. |
| Results.PercentageRange | client/src/pages/results.tsx:27 | A score within 0..total gives a percentage within 0..100, with 100 for all correct and 0 for none. |
| Results.PerfectMeansAllCorrect | client/src/pages/results.tsx:27 | Below 200 questions the percentage is 100 exactly when every answer is correct. |
| Results.PerfectWithOneWrong | client/src/pages/results.tsx:27 | With 200 questions, 199 correct already rounds to 100. |
| Results.ScoreMessage | client/src/pages/results.tsx:55-61 | The message chain. It has no contract of its own; its bands are stated by `Results.MessageBands` and `Results.NonFiniteMessages`. |
| Results.MessageBands | client/src/pages/results.tsx:55-61 | Each message is given for exactly its band: 100; 80..99; 60..79; 40..59; below 40. |
| Results.ScoreColour | client/src/pages/results.tsx:63-68 | The colour chain. It has no contract of its own; its bands are stated by `Results.ColourBands` and `Results.ColourMatchesMessage`. |
| Results.ColourBands | client/src/pages/results.tsx:63-68 | Each colour is given for exactly its band: from 80; 60..79; 40..59; below 40. |
| Results.ColourMatchesMessage | client/src/pages/results.tsx:55-68 | The two top messages share the success colour, and every other message has its own colour. |
| Results.NonFiniteMessages | client/src/pages/results.tsx:55-68 | A NaN percentage gets "Don't Give Up!" in the destructive colour. An infinite one gets "Excellent Work!" in the success colour. |
| Results.UserAnswer | client/src/pages/results.tsx:174 | An answer is found exactly when some entry is for the question, and the one found is the first such entry. |
| Results.IsCorrect | client/src/pages/results.tsx:174-175 | Whether a question is shown correct. It has no contract of its own; `Results.MissingIsIncorrect` and `Results.ShownCorrectIsScore` state its behaviour. |
| Results.MissingIsIncorrect | client/src/pages/results.tsx:174-175 | A question without a recorded answer is shown incorrect. |
| Results.OptionMark | client/src/pages/results.tsx:211-239 | The highlighting of one option in the review. It has no contract of its own; `Results.OptionMarks` states it. |
| Results.OptionMarks | client/src/pages/results.tsx:211-239 | The correct option, and only it, is marked correct. An option is marked wrong exactly when it is the user's pick and not the correct one, so at most one option is marked wrong and never the correct one. A correctly answered question shows no wrong mark. |
| Results.ShownCorrect | client/src/pages/results.tsx:173-175 | The number of questions the review shows correct is at most the number of questions. |
| Results.ShownCorrectIsScore | client/src/pages/results.tsx:173-175 | When entry `k` answers question `k`, the review's count by lookup equals the positional score. |
| Results.ScoreIgnoresLaterQuestions | client/src/pages/quiz.tsx:161-166 | The positional score reads only the questions at positions that have an answer. |
| Results.ReviewAgreesWithScore | client/src/pages/results.tsx:173-175 | For a quiz finished on the quiz page, the review shows as many questions correct as the stored score. |
| Results.Open | client/src/pages/results.tsx:19-23 | Without a stored result the page sends the user home; otherwise it shows the stored one. |
| Results.Restart | client/src/pages/results.tsx:50-53 | Restart sends the user to `/` and removes the stored result, so opening the results page again sends the user home. |
| Home.InitialForm | client/src/pages/home.tsx:19-20 | The form starts on the first quiz topic with 20 questions. |
| Home.InitialTopic | client/src/pages/home.tsx:19 | That topic is "C# Basics". |
| Home.CountInput | client/src/pages/home.tsx:251 | A typed count that parses to a non-zero number is kept as it is, out of range or not. One that does not parse, or parses to 0, gives 20. The topic is untouched. |
| Home.CountInputOfNumber | client/src/pages/home.tsx:251 | Typing a number sets exactly that count, and typing 0 sets 20. |
| Home.QuickPick | client/src/pages/home.tsx:265 | Clicking a badge sets the count to its value and keeps the topic. |
| Home.QuickPickHighlights | client/src/pages/home.tsx:260-263 | After a badge is clicked, exactly that badge is highlighted. |
| Home.Clamp | client/src/pages/home.tsx:36 | The clamped count lies in 5..50. It equals the count inside that range, is 5 below it and 50 above it. |
| Home.ClampIdempotent | client/src/pages/home.tsx:36 | Clamping twice is clamping once. |
| Home.QuickPicksInRange | client/src/pages/home.tsx:42 | The quick picks 10, 20 and 30 lie inside the clamp range. |
| Home.StartQuiz | client/src/pages/home.tsx:33-40 | The stored configuration keeps the topic and clamps the count into 5..50, keeping an in-range count. |
| Home.StartQuizValid | client/src/pages/home.tsx:33-37 | A form whose topic is a quiz topic stores a valid configuration. |
| Home.EditsKeepTopic | client/src/pages/home.tsx:19-40 | From such a form, any sequence of menu picks, typed counts and badge clicks keeps a quiz topic and stores a valid configuration. |
| Home.NotOlderOrders | client/src/pages/home.tsx:27 | Comparing the dates' times is a total preorder on posts. |
| Home.LatestPosts | client/src/pages/home.tsx:24-30 | At most three posts, taken from the loaded ones, newest first, and none newer among those left out. |
| Topic.Slug | client/src/pages/topic.tsx:65 | The slug is the location without its first character. |
| Topic.SlugOfRoute | client/src/pages/topic.tsx:65 | The route `/slug` gives back the slug. |
| Topic.OnLocation | client/src/pages/topic.tsx:64-89 | A known slug stores its topic with its count and navigates to the quiz. An unknown slug stores nothing and stays. |
| Topic.TopicMap | client/src/pages/topic.tsx:5-59 | The slug table as a constant. `Topic.TableEntries`, `Topic.ClassesRouteIgnored` and `Topic.AgreesWithQuizFallback` state its contents. |
| Topic.TableEntries | client/src/pages/topic.tsx:5-59 | Every entry of the table names a quiz topic and asks for 10 questions. |
| Topic.StoredValid | client/src/pages/topic.tsx:83-86 | Whatever the location, a stored configuration is a valid one of 10 questions. |
| Topic.ClassesRouteIgnored | client/src/pages/topic.tsx:65-73 | The routed path `/csharp_classes` has no table entry, so the page stores nothing and does not navigate. |
| Topic.AgreesWithQuizFallback | client/src/pages/topic.tsx:11-58 | The table and the quiz page's fallback table have the same slugs with the same topics. |
| Validator.Field | server/data/scripts/validateQuestions.cjs:19 | A field is present exactly when the question is an object that has it. |
| Validator.HasUnmatchedBackticks | server/data/scripts/validateQuestions.cjs:13 | An odd number of backticks in a string. It has no contract of its own; `Validator.QuotedCodeBalanced` states how a quoted pair affects it. |
| Validator.QuotedCodeBalanced | server/data/scripts/validateQuestions.cjs:13 | Code quoted in a pair of backticks does not change whether a text has unmatched backticks. |
| Validator.TextIssues | server/data/scripts/validateQuestions.cjs:24-25 | A present text gets at most two issues. |
| Validator.TextIssuesEmpty | server/data/scripts/validateQuestions.cjs:24-25 | A present text has no issue exactly when it is long enough once trimmed and has balanced backticks. |
| Validator.TextIssuesExact | server/data/scripts/validateQuestions.cjs:24-25 | The too-short issue is reported exactly when the trimmed text is too short, and the backtick issue exactly when backticks are unmatched. Nothing else is reported. |
| Validator.QIssues | server/data/scripts/validateQuestions.cjs:18-26 | A missing or null `q` gives only "missing", and a non-string only its type issue. |
| Validator.QIssuesEmpty | server/data/scripts/validateQuestions.cjs:18-26 | `q` has no issue exactly when it is a string of at least 5 trimmed characters with balanced backticks. |
| Validator.OptionIssues | server/data/scripts/validateQuestions.cjs:37-42 | A non-string option gives only its type issue. |
| Validator.OptionChecks | server/data/scripts/validateQuestions.cjs:36-43 | One list of issues per option. |
| Validator.EachOptionEmpty | server/data/scripts/validateQuestions.cjs:36-43 | No option has an issue exactly when every option is a string of at least 2 trimmed characters with balanced backticks. |
| Validator.OptionIssuesNamed | server/data/scripts/validateQuestions.cjs:37-42 | The issues of option `i` are option issues that name `i`. |
| Validator.EachOptionNamed | server/data/scripts/validateQuestions.cjs:36-43 | Every per-option issue names an option of the list. |
| Validator.KeyList | server/data/scripts/validateQuestions.cjs:47-49 | One key per option. |
| Validator.IndicesOf | server/data/scripts/validateQuestions.cjs:47-53 | The positions filed under a text are positions of the list. |
| Validator.IndicesOfExact | server/data/scripts/validateQuestions.cjs:47-53 | The positions filed under a text are exactly the string options with that trimmed text, in increasing order. |
| Validator.KeysExact | server/data/scripts/validateQuestions.cjs:46-53 | A text is a key of `seen` exactly when some option is filed under it, and no key is listed twice. |
| Validator.DuplicatesOfExact | server/data/scripts/validateQuestions.cjs:55-59 | A duplicate issue is emitted for a key exactly when it is filed at two positions or more, and it lists all of them. |
| Validator.Duplicates | server/data/scripts/validateQuestions.cjs:45-59 | The duplicate issues of an option list. It has no contract of its own; `Validator.DuplicatesExact` and `Validator.NoDuplicates` state which issues it holds, and `Validator.CheckDuplicates` proves the loops equal to it. |
| Validator.DuplicatesExact | server/data/scripts/validateQuestions.cjs:45-59 | A duplicate issue is emitted exactly for each trimmed text at two positions or more, listing every such position. |
| Validator.NoDuplicates | server/data/scripts/validateQuestions.cjs:45-59 | There is no duplicate issue exactly when the string options have pairwise distinct trimmed texts. |
| Validator.OptionsIssues | server/data/scripts/validateQuestions.cjs:28-43 | A missing or non-array `options` gives exactly one issue. |
| Validator.OptionsLengthIssue | server/data/scripts/validateQuestions.cjs:32-34 | For an array, a length issue comes first exactly when the length is not 4, and it carries that length. Every other issue is about an option or a duplicate. |
| Validator.OptionsClean | server/data/scripts/validateQuestions.cjs:28-59 | The options have no issue exactly when they are four good texts with pairwise distinct trimmed texts. |
| Validator.AnswerIssues | server/data/scripts/validateQuestions.cjs:62-73 | At most one issue. There is none exactly when the answer is a number, the options are an array and the answer lies in `0 <= answer < length`. |
| Validator.ExplanationIssues | server/data/scripts/validateQuestions.cjs:75-83 | An absent or null explanation gives no issue, and a non-string only its type issue. |
| Validator.ExplanationIssuesEmpty | server/data/scripts/validateQuestions.cjs:75-83 | An explanation has no issue exactly when it is absent or a string of at least 5 trimmed characters with balanced backticks. |
| Validator.Issues | server/data/scripts/validateQuestions.cjs:15-86 | The issue list of one question. It has no contract of its own; `Validator.NoIssuesIffWellFormed` states when it is empty, and `Validator.ValidateQuestion` proves the script's push order equal to it. |
| Validator.WellFormed | server/data/scripts/validateQuestions.cjs:15-86 | The field-by-field reference definition of a well-formed question. It has no contract of its own; `Validator.NoIssuesIffWellFormed` ties it to `Validator.Issues`. |
| Validator.NoIssuesIffWellFormed | server/data/scripts/validateQuestions.cjs:15-86 | A question has no issue exactly when it is well formed, field by field. |
| Validator.CheckText | server/data/scripts/validateQuestions.cjs:24-25 | The two checks of a present text push what the issue function lists. |
| Validator.ValidateQuestion | server/data/scripts/validateQuestions.cjs:15-86 | Running the checks in order and pushing their issues gives the issue list of the question. The input is a value and is not changed. |
| Validator.CheckQ | server/data/scripts/validateQuestions.cjs:18-26 | The checks of `q` push its issues. |
| Validator.CheckOptions | server/data/scripts/validateQuestions.cjs:28-60 | The checks of `options` push its issues in order: length, each option, duplicates. |
| Validator.CheckAnswer | server/data/scripts/validateQuestions.cjs:62-73 | The checks of `answer` push its issue. |
| Validator.CheckExplanation | server/data/scripts/validateQuestions.cjs:75-83 | The checks of `explanation` push its issues. |
| Validator.CheckOption | server/data/scripts/validateQuestions.cjs:37-42 | The checks of one option push its issues. |
| Validator.CheckEachOption | server/data/scripts/validateQuestions.cjs:36-43 | The first `forEach` pushes every option's issues, in option order. |
| Validator.CheckDuplicates | server/data/scripts/validateQuestions.cjs:45-59 | The grouping and the entries loop push exactly the duplicate issues. |
| Validator.FillSeen | server/data/scripts/validateQuestions.cjs:46-53 | After the loop, `seen` has exactly the keys met, in first-met order, and each key maps to all positions filed under it. |
| Validator.AddToSeen | server/data/scripts/validateQuestions.cjs:50-51 | Filing one option adds its key (if new) and its position: the `seen` contract extends to one more option. |
| Validator.Verdicts | server/data/scripts/validateQuestions.cjs:122-123 | Validating a question throws exactly when it is `null`. |
| Validator.EntriesOf | server/data/scripts/validateQuestions.cjs:122-125 | A list's entries are missing (the loop threw) exactly when some question threw. |
| Validator.ListEntries | server/data/scripts/validateQuestions.cjs:122-125 | A topic's list throws exactly when it holds a `null`. |
| Validator.TopicEntries | server/data/scripts/validateQuestions.cjs:113-120 | A metadata key adds nothing, and a non-array topic adds exactly one "topic is not an array" entry. |
| Validator.ValidateFile | server/data/scripts/validateQuestions.cjs:110-126 | The loop over the top-level entries builds the report of the file, or throws. |
| Validator.FileStep | server/data/scripts/validateQuestions.cjs:112-126 | One more top-level entry appends its entries to the report, or makes the loop throw. |
| Validator.ThrownStays | server/data/scripts/validateQuestions.cjs:112-126 | Once the loop has thrown, later entries change nothing. |
| Validator.CheckList | server/data/scripts/validateQuestions.cjs:122-125 | The `forEach` over a list reports the questions with issues, or throws. |
| Validator.EntriesOfExact | server/data/scripts/validateQuestions.cjs:122-125 | Every reported entry is a question of the topic with at least one issue, reported with exactly its issues, and every such question is reported. |
| Validator.ListEntriesExact | server/data/scripts/validateQuestions.cjs:122-125 | The same, stated over the questions of a list: only questions with issues appear, each with its own issues. |
| Validator.MetaSkipped | server/data/scripts/validateQuestions.cjs:113 | A metadata entry leaves the report as it is, wherever it comes. |
| BlogLoader.FindClose | client/src/lib/blogLoader.ts:17 | The lazy match stops at the first closing marker, or there is none. |
| BlogLoader.StripQuotes | client/src/lib/blogLoader.ts:33 | At most one character is removed at each end. |
| BlogLoader.StripQuotesWrapped | client/src/lib/blogLoader.ts:33 | A text between two double quotes loses exactly those two quotes. |
| BlogLoader.StripQuotesOneSide | client/src/lib/blogLoader.ts:33 | A double quote at only one end is removed, and nothing else is. |
| BlogLoader.StripQuotesUnquoted | client/src/lib/blogLoader.ts:33 | A text with no double quote at either end is unchanged. |
| BlogLoader.ListItems | client/src/lib/blogLoader.ts:33 | One item per comma-separated piece, each trimmed and unquoted. |
| BlogLoader.ValueOf | client/src/lib/blogLoader.ts:28-38 | A value becomes a list exactly when it is wrapped in brackets, and the list holds the trimmed, unquoted comma pieces of the text inside; otherwise it stays the same string. |
| BlogLoader.ListRoundTrip | client/src/lib/blogLoader.ts:33 | Plain items (no comma, no white space or quote at their ends) written as `[a,b,...]` read back as the same items. |
| BlogLoader.EmptyBrackets | client/src/lib/blogLoader.ts:33 | `[]` reads back as one empty item. |
| BlogLoader.QuotedCommaSplits | client/src/lib/blogLoader.ts:33 | `["a,b"]` reads back as the two items `a` and `b`: the comma inside the quotes still cuts. |
| BlogLoader.ParseLine | client/src/lib/blogLoader.ts:24-27 | A line matches only when its first colon is after at least one character, and the key is the trimmed text before that colon. |
| BlogLoader.ParseLineRoundTrip | client/src/lib/blogLoader.ts:24-27 | A line written as `key: value` gives back the trimmed key and the value read from the trimmed value. |
| BlogLoader.ParseLineParts | client/src/lib/blogLoader.ts:24-27 | A line with its first colon at `p > 0` and one line after it gives the trimmed key before `p` and the value read from the trimmed rest. |
| BlogLoader.ParseLineSkips | client/src/lib/blogLoader.ts:24-25 | A line is skipped when it has no colon after its first character, or when the rest after the colon and its white space holds a line terminator, which `.` does not match. With `BlogLoader.ParseLineParts` this covers both directions. |
| BlogLoader.CarriageReturnSkipped | client/src/lib/blogLoader.ts:24-25 | A `key: value` line ending in `\r`, as in a CRLF file, assigns nothing. |
| BlogLoader.Assignments | client/src/lib/blogLoader.ts:23-27 | One possible assignment per front-matter line. |
| BlogLoader.AssignKeys | client/src/lib/blogLoader.ts:23-39 | A key is in the meta object exactly when some assignment names it. |
| BlogLoader.AssignLastWins | client/src/lib/blogLoader.ts:35-37 | A key keeps the value of the last assignment that names it. |
| BlogLoader.MetaKeys | client/src/lib/blogLoader.ts:23-39 | A key is in the meta object exactly when some line assigns it. |
| BlogLoader.MetaLastWins | client/src/lib/blogLoader.ts:23-39 | A later duplicate key overwrites an earlier one. |
| BlogLoader.Frontmatter | client/src/lib/blogLoader.ts:17-20 | Without an opening and a closing marker the text is the body, with no meta. The body is always a suffix of the text, and comes at least 8 characters in when there is meta. |
| BlogLoader.FrontmatterRoundTrip | client/src/lib/blogLoader.ts:17-20 | `---`, the front matter, `---` and a body give back the meta of the front-matter lines and the body. |
| BlogLoader.FrontmatterBareClose | client/src/lib/blogLoader.ts:17-20 | When no newline follows the closing `---`, the body is everything after it, and the meta is that of the front-matter lines. |
| BlogLoader.FrontmatterOnly | client/src/lib/blogLoader.ts:17-20 | A file that ends at the closing `---` gives the meta and an empty body. |
| BlogLoader.ParseMeta | client/src/lib/blogLoader.ts:22-39 | The loop over the front-matter lines builds the meta object of those lines. |
| BlogLoader.ParseFrontmatter | client/src/lib/blogLoader.ts:16-42 | The method computes the parse of the file. |
| BlogLoader.FieldOr | client/src/lib/blogLoader.ts:61-62 | A truthy field is used, and otherwise the fallback. |
| BlogLoader.ToPost | client/src/lib/blogLoader.ts:54-64 | A file gives a post exactly when it has meta with a truthy slug and title. The date defaults to 1970-01-01, tags to the empty list, and the content is the trimmed body. |
| BlogLoader.Candidates | client/src/lib/blogLoader.ts:48-57 | One possible post per file. |
| BlogLoader.Keep | client/src/lib/blogLoader.ts:54-57 | Keeping the present posts never adds any. |
| BlogLoader.KeepMembers | client/src/lib/blogLoader.ts:54-57 | A kept post is a present one, and every present one is kept. |
| BlogLoader.Loaded | client/src/lib/blogLoader.ts:47-66 | At most one post per file. |
| BlogLoader.LoadedPosts | client/src/lib/blogLoader.ts:47-66 | A post comes from some file, and every file with a slug and a title gives one. |
| BlogLoader.NewerOrders | client/src/lib/blogLoader.ts:67 | Newest-first comparison of the date strings is a total preorder. |
| BlogLoader.GetAllPosts | client/src/lib/blogLoader.ts:44-69 | The posts are ordered by date string, newest first, and are a permutation of the posts the files give. |
| BlogLoader.FindBySlug | client/src/lib/blogLoader.ts:73 | The first post with the slug, or none exactly when no post has it. |
| BlogLoader.GetPostBySlug | client/src/lib/blogLoader.ts:71-73 | A post of the files with that slug, or none exactly when no such post exists. The post found is at least as new as every other post with that slug. |
| Blogs.TrimmedLines | client/src/pages/blogs.tsx:12-15 | The trimmed lines kept are no more than the pieces, and none is empty. |
| Blogs.LeadingRun | client/src/pages/blogs.tsx:24 | The length of the run of `#` at the start. |
| Blogs.StripHeading | client/src/pages/blogs.tsx:24 | The result is a suffix of the line, and a line not starting with `#` is unchanged. |
| Blogs.StripHeadingMark | client/src/pages/blogs.tsx:24 | A heading line loses its whole run of `#` and all the white space after it, and no more. |
| Blogs.LinkAt | client/src/pages/blogs.tsx:26 | A link found at the start has its text between the brackets, and its length covers the text and the four syntax characters. |
| Blogs.ReplaceLinks | client/src/pages/blogs.tsx:26 | Replacing links never lengthens the text. |
| Blogs.ReplaceLinksMembers | client/src/pages/blogs.tsx:26 | Replacing links only keeps characters of the text. |
| Blogs.ReplaceLinksPlain | client/src/pages/blogs.tsx:26 | Text without `[` is kept as it is. |
| Blogs.ReplaceLinksLink | client/src/pages/blogs.tsx:26 | `[text](url)` becomes `text`, and the scan goes on after it. |
| Blogs.Clean | client/src/pages/blogs.tsx:23-26 | The cleaned line holds only characters of the line and none of `*`, `_`, backtick and `>`. |
| Blogs.Truncate | client/src/pages/blogs.tsx:29-33 | A text within the length is unchanged, and a cut text adds nothing but `…`. |
| Blogs.TruncateCut | client/src/pages/blogs.tsx:29-33 | A text longer than the length is cut to fit. The cut ends at the last space of the first `maxLength` characters, or drops the last character when they hold no space. Then `…` is added. |
| Blogs.Summary | client/src/pages/blogs.tsx:8-36 | A summary holds none of the stripped markup characters. |
| Blogs.FirstLineSummary | client/src/pages/blogs.tsx:17-35 | A summary made from the first line holds none of the stripped markup characters. |
| Blogs.SummaryFits | client/src/pages/blogs.tsx:29-33 | For a positive `maxLength` the summary never exceeds it. |
| Blogs.BlankLines | client/src/pages/blogs.tsx:12-17 | A text gives no line exactly when it is only white space. |
| Blogs.BlankLinesStep | client/src/pages/blogs.tsx:12-17 | The same, one line break at a time. |
| Blogs.NoLinesCons | client/src/pages/blogs.tsx:14-15 | A first piece and more pieces give no line exactly when neither does. |
| Blogs.BlankSummary | client/src/pages/blogs.tsx:9-17 | Empty content, or content of only white space and blank lines, has the empty summary. |
| Blogs.FirstLineSplit | client/src/pages/blogs.tsx:13 | Splitting after a first line gives that line and the pieces of the rest. |
| Blogs.FirstLineOnly | client/src/pages/blogs.tsx:12-20 | Only the first non-blank line is summarised: what follows it is ignored. |
| Blogs.BlankLineSkipped | client/src/pages/blogs.tsx:12-20 | A blank first line is skipped. |
| Blogs.BlankFirstLine | client/src/pages/blogs.tsx:12-15 | A blank first line adds no trimmed line. |
| Blogs.SameLines | client/src/pages/blogs.tsx:8-36 | Two contents with the same trimmed lines have the same summary. |
| Blogs.EmptySplit | client/src/pages/blogs.tsx:12-15 | The empty text gives no line. |
| Blogs.BlankPieceDropped | client/src/pages/blogs.tsx:14-15 | A piece that trims to nothing is dropped. |
| Blogs.ShortLineKept | client/src/pages/blogs.tsx:23-35 | A single line that needs no cleaning and fits is its own summary. |
| Blogs.VisibleOf | client/src/pages/blogs.tsx:110 | The visible posts are the first `min(visibleCount, n)`. |
| Blogs.LoadMoreWhileHidden | client/src/pages/blogs.tsx:146 | The button is drawn exactly while some post is hidden. |
| Blogs.PressesToShowAll | client/src/pages/blogs.tsx:146-150 | The fewest presses after which all posts show: with one press fewer some would stay hidden. |
| Blogs.Pager.constructor | client/src/pages/blogs.tsx:61-62 | The pager starts at five visible posts, showing the first `min(5, n)`. |
| Blogs.Pager.LoadMore | client/src/pages/blogs.tsx:150 | A press shows five more, with the ones shown before still first, and the count stays a positive multiple of five. |
| Sorting.Insert | client/src/lib/blogLoader.ts:67 | Inserting into an ordered list keeps it ordered and adds exactly the new element. |
| Sorting.Sort | client/src/lib/blogLoader.ts:67 | The result is ordered by the comparison and is a permutation of the input. |
| Sorting.PrefixFirst | client/src/pages/home.tsx:26-28 | In an ordered list, every element of a prefix may come before every element after it. |
| Text.LowerChar | server/routes.ts:34 | The lowered character is not an upper-case ASCII letter, and it is white space exactly when the character is. |
| Text.Lower | server/routes.ts:34 | The result has the same length, with each character lowered. |
| Text.LowerAppend | server/routes.ts:34 | Lowering distributes over concatenation. |
| Text.ReplaceAll | server/routes.ts:35-37 | A global replace of a non-empty pattern. It has no contract of its own; `Text.ReplaceAllMembers`, `Text.ReplaceAllRemoves`, `Text.ReplaceAllAbsent` and `Text.ReplaceAllSplit` state its behaviour. |
| Text.ReplaceAllMembers | server/routes.ts:35-37 | A replacement brings in only characters of the text or of the replacement. |
| Text.ReplaceAllRemoves | server/routes.ts:37 | After replacing every `&` by a text without `&`, no `&` is left. |
| Text.ReplaceAllAbsent | server/routes.ts:35-36 | A text lacking a character of the pattern is unchanged. |
| Text.ReplaceAllSplit | server/routes.ts:35-37 | A character that cannot be part of the pattern splits the replacement in two. |
| Text.RemoveChars | server/routes.ts:39 | Removing characters never lengthens the text. |
| Text.RemoveCharsMembers | server/routes.ts:39 | What is left are characters of the text outside the removed class. |
| Text.RemoveCharsAppend | client/src/pages/blogs.tsx:25 | Removing characters distributes over concatenation. |
| Text.RemoveCharsNone | client/src/pages/blogs.tsx:25 | A text without characters of the class is unchanged. |
| Text.TrimStart | client/src/lib/blogLoader.ts:24 | The longest suffix not starting with white space; everything before it is white space. |
| Text.TrimEnd | client/src/lib/blogLoader.ts:27 | The longest prefix not ending with white space; everything after it is white space. |
| Text.Trim | server/data/scripts/validateQuestions.cjs:24 | The trimmed text is no longer than the text and has no white space at either end. |
| Text.TrimSlice | server/data/scripts/validateQuestions.cjs:24 | The trimmed text is a contiguous part `s[i..j]` of the text, and everything before `i` and from `j` on is white space: only white space at the ends is removed. |
| Text.TrimTrimmed | server/data/scripts/validateQuestions.cjs:24 | A text with no white space at either end is its own trim. |
| Text.TrimEmpty | client/src/pages/blogs.tsx:14-15 | A text trims to nothing exactly when it is all white space. |
| Text.TrimChars | server/data/scripts/validateQuestions.cjs:49 | Trimming only removes characters. |
| Text.TrimNoSpace | server/data/scripts/validateQuestions.cjs:49 | A text without white space is its own trim. |
| Text.IndexOf | client/src/lib/blogLoader.ts:24 | The first position of the character, or -1 exactly when it is absent. |
| Text.LastIndexOf | client/src/pages/blogs.tsx:31 | The last position of the character, or -1 exactly when it is absent. |
| Text.Split | client/src/lib/blogLoader.ts:23 | Splitting always gives at least one piece. |
| Text.SplitFirst | client/src/lib/blogLoader.ts:23 | The first piece ends at the first separator, and the rest is the split of what follows. |
| Text.SplitPieces | client/src/lib/blogLoader.ts:23 | No piece contains the separator. |
| Text.SplitJoin | client/src/lib/blogLoader.ts:23 | Joining the pieces with the separator gives the text back. |
| Text.JoinSplit | client/src/lib/blogLoader.ts:33 | Splitting pieces joined by a separator that none of them holds gives the pieces back. |
| Text.LexLess | client/src/lib/blogLoader.ts:67 | String `<`. It has no contract of its own; the four lemmas below state that it is a strict total order. |
| Text.LexLessIrreflexive | client/src/lib/blogLoader.ts:67 | No date string is smaller than itself. |
| Text.LexLessAsymmetric | client/src/lib/blogLoader.ts:67 | String `<` is asymmetric. |
| Text.LexLessTransitive | client/src/lib/blogLoader.ts:67 | String `<` is transitive. |
| Text.LexLessTotal | client/src/lib/blogLoader.ts:67 | Of two different strings one is smaller. |
| Text.DigitRun | server/routes.ts:24 | The longest prefix of digits: every character before it is a digit, and the one after it is not. |
| Text.ParseUnsigned | server/routes.ts:24 | The digits after the sign read as a number that is never negative. |
| Text.NumberOr | server/routes.ts:24 | `n || fallback`: NaN and 0 give the fallback, and any other number is kept. |
| Text.Decimal | server/routes.ts:24 | Decimal digits without a leading zero. |
| Text.DecimalValue | server/routes.ts:24 | The digits of a number read back as that number. |
| Text.ParseUnsignedDecimal | server/routes.ts:24 | The decimal digits of a natural number parse back to it. |
| Text.ParseInt | server/routes.ts:24 | `parseInt`. It has no contract of its own; `Text.ParseIntToString` and `Text.ParseIntNoDigits` state its behaviour, and `Routes.RequestedCount` and `Home.CountInput` its use. |
| Text.ParseIntToString | server/routes.ts:24 | `parseInt(String(n)) == n` for every integer. |
| Text.ParseIntNoDigits | server/routes.ts:24 | A text starting with a character that is not white space, not a sign and not a digit does not parse. |
| Text.SliceLength | server/routes.ts:47 | `slice(0, end)` keeps `min(end, n)` elements for `end >= 0` and `max(0, n + end)` for a negative `end`. |

## Left out

- Reading the files and parsing JSON (`readFileSync`, `JSON.parse`, `fs`), and `process.exit` and console output in the validator. The bank and the question file are given as values.
- The Express and HTTP setup. The handler is a function of the query parameters and the bank. A query parameter is a single optional string. Express turns a repeated parameter into an array, which is not represented: `?count=1&count=2` gives `parseInt("1,2")`, so 1, and an array topic gives 400.
- `fetch` and react-query on the quiz page. The served questions are an input of `Quiz.Session.constructor`.
- `import.meta.glob` and `Promise.all` loading of the blog files. The files are given as a list of texts.
- The `JSON.parse` branch for bracketed front-matter values. Only the comma-split fallback path is modelled. Where `JSON.parse` would succeed the results differ: `tags: []` gives `MList([""])` here (`BlogLoader.EmptyBrackets`) but `[]` in the page, and `["a,b"]` gives the two items `a` and `b` here (`BlogLoader.QuotedCommaSplits`) but the one item `a,b` in the page.
- Session and local storage, navigation, `document.title` and the description meta tag. Storage appears only as the value read or written, and navigation as a result value.
- JSX rendering, theming, icons, dialogs, confetti, and the syntax-highlighted question text. So are the progress bar and timer percentages, which are floating-point display values.
- The animated score counter on the results page. It is display only.
- The `setInterval` scheduling and React's re-installation of the effect: the tick is an explicit event. The stale `handleNext` closure a timer may call is not modelled.
- Quiz.Session.Next: the `autoAdvance` argument is accepted and, as in the page, never read.
- Routes.GetQuestions: the shuffle `sort(() => Math.random() - 0.5)` is an arrangement `perm` given as a parameter. Nothing is claimed about its distribution.
- Text.LowerChar: lower-cases ASCII letters only, not the full Unicode mapping of `toLowerCase`.
- Text.ParseInt: parses to an unbounded integer. JavaScript's loss of precision above 2^53 is not modelled.
- Strings are sequences of code points. Lengths, the 160-character cut of the summary, and the string `<` on dates (`Text.LexLess`) work on code points, not UTF-16 code units. The comparison differs from JavaScript's only between a character above U+FFFF and one in U+E000–U+FFFF.
- Results.Percentage: computes `Math.round(score / total * 100)` exactly on rationals, not in floating point.
- Home.LatestPosts: `new Date(date).getTime()` is an abstract `time` function of the date text. Invalid dates (NaN times) are not modelled. The order among posts with equal times is not stated either. The page's sort is stable, so the input order would decide which equally dated posts make the top three; that input order itself comes from `getAllPosts`, whose tie order is left to the engine (see `BlogLoader.GetAllPosts`).
- BlogLoader.GetAllPosts: the comparator `a.date < b.date ? 1 : -1` gives -1 for equal dates, so the relative order of posts with equal dates depends on the engine. The contract states only that the result is sorted newest first and is a permutation of the loaded posts.
- Validator.FillSeen: `seen` is a map with no prototype. Keys such as `constructor` or `__proto__`, which collide with `Object.prototype` in JavaScript, are not modelled. The keys are kept in first-met order, while `Object.entries(seen)` lists integer-like keys first, in ascending order. So `Validator.CheckDuplicates`, and with it the exact issue list of `Validator.ValidateQuestion`, can order duplicate issues differently: for the options `["2","2","1","1"]` the script reports `1` before `2`, and the model reports `2` before `1`. The set of duplicate issues is the same.
- Validator.ValidateFile: the top-level entries come as a list in `Object.keys` order. JavaScript's reordering of integer-like keys is not modelled.
- Validator.Issues: the text of the messages and the report printing are not modelled. An issue is a datatype value carrying the same data.
- The unused helpers `normalizeDashes` and `cleanOptionPrefix`. Neither helper is called.
- Schema.ValidQuestion: the answer is an integer in this model, so the schema's acceptance of a non-integral answer between 0 and 3 is not represented. The zod library itself is not modelled.
- client/src/App.tsx, client/src/main.tsx and the adsense placeholder are not part of this model. The routing of `/csharp_classes` to the topic page is stated through `Topic.ClassesRouteIgnored`.

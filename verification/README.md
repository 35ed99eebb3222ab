# Fohlio course platform — a Dafny model of its pure core

This project models the deterministic logic inside the Fohlio AI-courses platform, a Next.js course
site, and proves properties of it. The model covers:

- **Progress aggregation** (`progress.ts`). A student's submission rows are reduced against the lesson
  registry. The result is per-lesson task counts with a three-way status, then the student's sums, the
  number of finished lessons, the rounded completion percentage and the latest activity.
- **Lesson registry** (`constants.ts`). This is the static `LESSONS` data and the lookups over it:
  `getLessonBySlug`, `getLessonByNumber`, `getPublishedLessons` and `getAllHomeworkTasks`.
- **Lesson HTML and CSS rewriting** (`content.ts`). `parseHtmlContent` extracts the `<style>` and
  `<body>` elements and unwraps the `.container` div. It strips the header, goals-box and homework
  sections (`stripSection`), cuts the footer, and scopes the CSS under `.lesson-content`
  (`scopeCss`, `scopeSelector`).
- **Route guard** (`middleware.ts`). This is the redirect decision over the request path and the
  verified session's role.
- **Admin mock data** (`mock-data.ts`). It builds per-lesson records from given completion counts and
  derives the four mock students' totals from them.
- **Homework form helpers.** These are the quiz answer read and update (`SubmissionQuiz.tsx`), the
  checklist read and toggle (`SubmissionChecklist.tsx`), and the screenshot content builder
  (`SubmissionScreenshot.tsx`).
- **Lesson navigation** (`LessonNav.tsx`). This finds the previous and next lesson in the registry.

Modules follow the source files: `Progress`, `Constants`, `Content` and `CssScope` (the CSS half of
`content.ts`), `Middleware`, `MockData`, `SubmissionQuiz`, `SubmissionChecklist`,
`SubmissionScreenshot` and `LessonNav`. `Types` holds the records of `types.ts`, `Text` holds the
JavaScript string operations the code relies on, and `Wrappers` holds `Option`.

The lesson registry is a parameter (`registry: seq<Lesson>`) of the functions that take it:

- the progress functions (`Progress.CalculateLessonProgress`, `Progress.CalculateStudentProgress`);
- the lookups `Constants.IndexOfLesson`, `Constants.FindLesson` and `Constants.Published`;
- `LessonNav.Nav`;
- the mock builders `MockData.BuildAllLessonProgress`, `MockData.MockStudent` and
  `MockData.MockStudentAsWritten`.

The static registry is the constant `Constants.Lessons`. `Constants.GetLessonBySlug`,
`Constants.GetLessonByNumber` and `Constants.GetPublishedLessons` read it directly, as the source
does, and are the generic lookups applied to it. So most properties are proved for any registry, and
a few for the static one.

Regular expressions are written out as leftmost-match scanners over `seq<char>`. The `i` flag is
ASCII case folding, which is exact for these ASCII-only patterns. `\s` and `trim()` use the full
JavaScript whitespace set.

Where the code's own comments suggest more than the code does, the model follows the code:

- `scopeCss` is documented as turning `h3 { ... }` into `.lesson-content h3 { ... }`
  (content.ts:131-134), but it works line by line. A rule that shares a line with another rule is
  scoped only as one line: the selector up to the line's first `{` is scoped and the rest of the
  line is kept.
- "Remove the outermost .container wrapper" (content.ts:68): the regex
  `^[\s\S]*?<div class="container">…` drops any text before the first container opening, not only
  whitespace.
- "Remove body rule" (content.ts:146): the `body\s*\{[^}]*\}` removal is not anchored, so a
  `.card-body { … }` block loses its `body { … }` tail as well.

The `@media` handling of `scopeCss` is a parameter of `CssScope.ScopeCssWith`:

- `AsWritten` follows the code: it resets the depth to 0 on the opening line.
- `BraceCounted` counts that line's braces, as evidently intended.

`Content.ParseHtmlContent` scopes the CSS with `AsWritten`, as content.ts:91 does. The corrected
scoping is `ScopeCssWith(BraceCounted, …)`, and the two agree on any CSS without `@media` lines (see
Findings). The mock students are built as the fixture writes them (`MockStudentAsWritten`) and with
the registry's lesson count (`MockStudent`).

## Model

| member | source | states |
|---|---|---|
| Progress.CalculateLessonProgress | platform/src/lib/progress.ts:11-67 | A lesson id the registry does not know gives the all-zero `not_started` record that echoes the id and number. Otherwise the total is the lesson's task count and the required and advanced totals are the sizes of its two category filters. Each completed count is bounded by its total, the completed count is their sum, and the status is the one the counts call for. The completed counts themselves are stated by `CompletedCountsBySubmittedTasks` |
| Progress.CompletedCountsBySubmittedTasks | platform/src/lib/progress.ts:31-47 | With distinct task ids (as in the static data), the required and advanced completed counts are the numbers of the lesson's tasks of that category that some `submitted` row names, each task counted once however many rows name it |
| Progress.DoneCount | platform/src/lib/progress.ts:39-44 | With distinct ids, filtering by category and then by submitted id keeps as many tasks as there are distinct done tasks of the category |
| Progress.DoneAmong | platform/src/lib/progress.ts:39-44 | A task is counted as done exactly when it belongs to the list and its id is among the submitted ids; no more tasks are done than exist |
| Progress.DoneAmongAgrees | platform/src/lib/progress.ts:35-44 | Two sets of submitted ids that agree on the lesson's task ids give the same done tasks |
| Progress.LessonProgressIgnoresOrder | platform/src/lib/progress.ts:35-37 | Only the set of rows matters: reordering or repeating rows leaves the lesson record unchanged |
| Progress.LessonProgressIgnoresIrrelevantRows | platform/src/lib/progress.ts:35-44 | Adding rows that are not `submitted`, or that name tasks outside the lesson, leaves the lesson record unchanged |
| Progress.NothingDoneWithoutSubmission | platform/src/lib/progress.ts:35-47 | Rows none of which is `submitted` give a lesson no completed task |
| Progress.OneOfTwoSubmitted | platform/src/lib/progress.ts:31-66 | A lesson with two required tasks and a submitted row for the first only is `in_progress` with 1 of 2 tasks done, both required |
| Progress.RowsOfLesson | platform/src/lib/progress.ts:76 | A row reaches a lesson exactly when it names that lesson's id |
| Progress.CountCompleted | platform/src/lib/progress.ts:85-87 | The number of `completed` entries is at most the number of entries; it is 0 exactly when no entry is completed, and equals the entry count exactly when all are |
| Progress.CompletedOccurrences | platform/src/lib/progress.ts:85-87 | The count is the number of times `completed` occurs among the entries' statuses |
| Progress.SumsBounded | platform/src/lib/progress.ts:80-84 | When each entry's completed count is within its total, so is the sum of completed counts within the sum of totals |
| Progress.Percentage | platform/src/lib/progress.ts:105-106 | The percentage is 0 without tasks or without completed tasks, lies in 0..100 when no more tasks are done than exist, and is 100 when all are done |
| Progress.PercentageRounds | platform/src/lib/progress.ts:105-106 | The percentage is `100·completed/total` rounded to the nearest integer, halves upwards, as `Math.round` does |
| Progress.LatestFrom | platform/src/lib/progress.ts:91-94 | The reduction gives a value no smaller than the start or any row's time, and equal to the start or to some row's time |
| Progress.LastActivity | platform/src/lib/progress.ts:89-95 | The latest activity is absent exactly when there are no rows; otherwise it is some row's time and no row is later |
| Progress.LastActivityIgnoresOrder | platform/src/lib/progress.ts:89-95 | The latest activity depends only on the set of rows |
| Progress.CalculateStudentProgress | platform/src/lib/progress.ts:69-110 | One record per registered lesson, in registry order, each computed from that lesson's rows only. `totalLessons` is the registry size. The totals are the sums of the records and the finished-lesson count counts the `completed` ones, so completed tasks are within total tasks and finished lessons within lessons. The percentage is the rounded percentage of completed tasks (`Percentage`, characterised by `PercentageRounds`): in 0..100, 0 without tasks and 100 when all are done. The last activity is the latest row time |
| Progress.StudentProgressIgnoresOrder | platform/src/lib/progress.ts:69-110 | The whole student summary depends only on the set of rows |
| Progress.StudentTotalIsRegistrySize | platform/src/lib/progress.ts:75-80 | With distinct lesson ids, the student's task total is the number of tasks in the whole registry |
| Progress.NothingSubmitted | platform/src/lib/progress.ts:69-110 | Without a submitted row, no task is done, no lesson is finished, every lesson is `not_started` and the percentage is 0 |
| Progress.NoSubmissions | platform/src/lib/progress.ts:69-110 | A student without rows, against the static registry, has 2 lessons, 7 tasks, none done, 0 percent and no activity |
| Progress.FindRegisteredLesson | platform/src/lib/progress.ts:16 | With distinct ids, looking up a registered lesson's id finds that lesson |
| Progress.SumOfTaskCounts | platform/src/lib/progress.ts:80 | Records carrying each lesson's task count sum to the registry's task count |
| Constants.IndexOfLesson | platform/src/lib/constants.ts:150-156 | The lookup index is -1 exactly when no lesson has the key, and otherwise points at the first lesson that has it |
| Constants.FindLesson | platform/src/lib/constants.ts:150-156 | The lookup is absent exactly when no lesson has the key, and otherwise gives the first lesson that has it |
| Constants.GetLessonBySlug | platform/src/lib/constants.ts:150-152 | Gives the first static lesson with the slug, and nothing exactly when no lesson has it |
| Constants.GetLessonByNumber | platform/src/lib/constants.ts:154-156 | Gives the first static lesson with the number, and nothing exactly when no lesson has it |
| Constants.Published | platform/src/lib/constants.ts:158-160 | The filter keeps exactly the published lessons and never grows the list |
| Constants.PublishedDistributes | platform/src/lib/constants.ts:158-160 | The filter keeps order: filtering a concatenation concatenates the filtered parts |
| Constants.GetPublishedLessons | platform/src/lib/constants.ts:158-160 | Exactly the published lessons of the static registry |
| Constants.TasksOf | platform/src/lib/constants.ts:162-164 | The flattened task list has as many tasks as the sections together, and a task is in it exactly when it is in some section |
| Constants.GetAllHomeworkTasks | platform/src/lib/constants.ts:162-164 | A lesson's task list holds as many tasks as its sections together, and a task is in it exactly when it is in one of the lesson's sections |
| Constants.TasksOfDistributes | platform/src/lib/constants.ts:162-164 | Flattening keeps section order: flattening a concatenation concatenates the flattened parts |
| Constants.OfCategory | platform/src/lib/progress.ts:32-33 | The category filter keeps exactly the tasks of that category |
| Constants.OfCategoryDistributes | platform/src/lib/progress.ts:32-33 | The category filter keeps order across a concatenation |
| Constants.CategoriesPartition | platform/src/lib/progress.ts:31-33 | The required and advanced tasks together are all of a lesson's tasks |
| Constants.StaticTasksMatchSections | platform/src/lib/constants.ts:5-148 | In the static data every task's category is its section's category and every task's lesson id is its lesson's id |
| Constants.StaticTaskIdsDistinct | platform/src/lib/constants.ts:5-148 | No two tasks of the static registry share an id |
| Constants.StaticLessonKeysDistinct | platform/src/lib/constants.ts:5-148 | The two static lessons have different ids, slugs and numbers |
| Constants.StaticTaskCounts | platform/src/lib/constants.ts:25-52 | Lesson 1 has 2 required and no advanced tasks, lesson 2 has 3 required and 2 advanced, 7 in all |
| Constants.Lesson2Counts | platform/src/lib/constants.ts:73-146 | Lesson 2 has 3 required and 2 advanced tasks |
| Constants.DistinctIdsConcat | platform/src/lib/constants.ts:5-148 | Two lists without repeated ids and with no id in common concatenate to a list without repeated ids |
| Content.TagAt | platform/src/lib/content.ts:61 | Recognises the `<tag[^>]*>…</tag>` match at a position; when one exists it is the one found, with its `>` and the first closing tag after it |
| Content.TagFrom | platform/src/lib/content.ts:61 | Finds the leftmost match at or after a position, and none exactly when there is no match there |
| Content.TagContent | platform/src/lib/content.ts:61-66 | The captured text is absent exactly when the element does not occur |
| Content.LeftmostTagUnique | platform/src/lib/content.ts:61-66 | The leftmost match is unique |
| Content.TagContentOfLeftmost | platform/src/lib/content.ts:61-66 | The capture is the text between the leftmost match's `>` and its first closing tag |
| Content.TagOfBlock | platform/src/lib/content.ts:61-66 | A plain `<tag>content</tag>` with nothing tag-like before it captures exactly `content` |
| Content.Unwrap | platform/src/lib/content.ts:68-74 | Unwrapping the container never lengthens the body |
| Content.UnwrapUnmatched | platform/src/lib/content.ts:68-74 | Without the container shape the body is kept |
| Content.UnwrapMatched | platform/src/lib/content.ts:68-74 | With the container shape, and the opening the first one, the body becomes the text between that opening and the final `</div>` |
| Content.UnwrapCases | platform/src/lib/content.ts:69-71 | Every container match starts at or after the first container opening and ends at the `</div>` before the trailing whitespace; the first opening plus such a closing is a match |
| Content.SectionOpenAt | platform/src/lib/content.ts:101-104 | Recognises the `<div\s+class="NAME"[^>]*>` match at a position, ignoring case, and it is the only match there |
| Content.SectionOpenUnique | platform/src/lib/content.ts:101-104 | A match's attribute starts where the whitespace run after `<div` ends |
| Content.SectionFrom | platform/src/lib/content.ts:105 | Finds the leftmost opening at or after a position, and none exactly when there is none |
| Content.StripSection | platform/src/lib/content.ts:100-129 | Stripping either keeps the html or shortens it |
| Content.CloseFromEndsAtClose | platform/src/lib/content.ts:109-126 | A close found by the depth scan ends in a `</div>` |
| Content.CloseFromBalance | platform/src/lib/content.ts:108-126 | The depth scan against independent counts of `<div` openings and `</div>` closings: where it stops, the depth plus the openings equals the closings plus one; at every earlier `</div>`, and at every `</div>` when it finds nothing, the count still leaves a level open |
| Content.FirstBalancedClose | platform/src/lib/content.ts:108-126 | Conversely, the first `</div>` at which openings and closings balance is where the scan from depth 1 stops, so the close is exactly the first balancing `</div>` |
| Content.ClosedSpan | platform/src/lib/content.ts:108-126 | The span the scan from depth 1 closes ends in a `</div>` at which openings and closings balance, and no earlier `</div>` balances |
| Content.ScanPlain | platform/src/lib/content.ts:123-125 | Text without `<` only advances the scan |
| Content.ScanOpen | platform/src/lib/content.ts:120-122 | A `<div>` raises the depth by one and moves one character on |
| Content.ScanClose | platform/src/lib/content.ts:113-119 | A `</div>` at depth 1 ends the scan right after it; at a deeper level it lowers the depth and skips it |
| Content.StripUnmatched | platform/src/lib/content.ts:105-106 | Without an opening tag the html is returned unchanged |
| Content.StripUnclosed | platform/src/lib/content.ts:112-128 | When the scan reaches the end before the depth returns to zero, the html is returned unchanged |
| Content.StripFound | platform/src/lib/content.ts:105-126 | With the first opening at `p` and its scan ending at `e`, the result is `html[..p] + html[e..]`. The removed span after the opening tag ends in a `</div>` at which the `div` openings and closings since the tag balance, and at every earlier `</div>` the openings still outnumber the closings |
| Content.StripLeaf | platform/src/lib/content.ts:100-129 | `a` + `<div class="NAME">` + inner + `</div>` + `b`, with no tag in `a` or inner, strips to `a + b` |
| Content.StripNested | platform/src/lib/content.ts:109-126 | A section holding one nested `<div>…</div>` is removed whole, up to its own closing tag |
| Content.CutFooter | platform/src/lib/content.ts:85-88 | The result is a prefix of the html. It is the whole html exactly when the footer marker does not occur; otherwise the marker starts right where the result ends, and the kept part holds no marker |
| Content.FooterGone | platform/src/lib/content.ts:85-88 | No footer marker is left after the cut |
| Content.CutFooterIdempotent | platform/src/lib/content.ts:85-88 | Cutting twice is cutting once |
| Content.TrimKeepsNoMarker | platform/src/lib/content.ts:93 | Trimming introduces no footer marker |
| Content.StripSections | platform/src/lib/content.ts:76-82 | Stripping the three sections never lengthens the body |
| Content.PlainSectionsKept | platform/src/lib/content.ts:68-82 | Text without any tag passes the unwrap and the three strips unchanged |
| Content.ParseHtmlContent | platform/src/lib/content.ts:59-94 | The result is HTML content. Its CSS is the text of the first `<style>` element (or `""`) scoped by `scopeCss` as written. Its html is that of the first `<body>` element (or `""`) unwrapped, stripped of the three sections, cut at the footer and trimmed. So both are trimmed, the html holds no footer marker, and it is no longer than the captured body |
| Content.ParseWithoutStyle | platform/src/lib/content.ts:61-62 | Without a `<style>` element the CSS is `""` |
| Content.PlainBodyKept | platform/src/lib/content.ts:59-94 | A body of plain text becomes the trimmed body |
| Content.LessonFilePath | platform/src/lib/content.ts:50-52 | The path is the directory, a `/`, and the content file name |
| Content.ReadLessonContent | platform/src/lib/content.ts:24-45 | No content file, or a Markdown lesson, gives nothing. A PDF lesson gives its file path. An HTML lesson gives the parsed file when it can be read and nothing when it cannot |
| CssScope.BlockEnd | platform/src/lib/content.ts:141-147 | Finds the end of a `HEAD\s*\{[^}]*\}` match at a position exactly when there is one |
| CssScope.BlockShapeUnique | platform/src/lib/content.ts:141-147 | A block match at a position is unique |
| CssScope.ImportEnd | platform/src/lib/content.ts:138 | Finds the end of an `@import\s+url\([^)]+\)\s*;` match at a position exactly when there is one |
| CssScope.ImportShapeDetermined | platform/src/lib/content.ts:138 | Every import match has its `url(`, its `)` and its `;` where the scanner looks |
| CssScope.RemovalEnd | platform/src/lib/content.ts:138-147 | A match of a removal pattern is never empty |
| CssScope.RemoveFrom | platform/src/lib/content.ts:138-147 | The removal pass never lengthens the text; it keeps the text when no match starts in it, and only then |
| CssScope.RemoveAll | platform/src/lib/content.ts:138-147 | The global replace leaves the text unchanged exactly when the pattern does not match |
| CssScope.RemoveLeftmost | platform/src/lib/content.ts:138-147 | For every input: from `i`, the text before the leftmost match is kept, the match is dropped whole, and the pass resumes right after it, so matches never overlap. With `RemoveFrom`'s match-free case this fixes the result |
| CssScope.RemoveAllLeftmost | platform/src/lib/content.ts:138-147 | `replace(/…/g, "")` keeps the text before the leftmost match, drops that match and continues after it |
| CssScope.RemovalIsSinglePass | platform/src/lib/content.ts:147 | The removal is one left-to-right pass: `bobody{}dy{}` becomes `body{}`, a match made by the deletion |
| CssScope.RemoveKeepsAbsent | platform/src/lib/content.ts:138-147 | Removal introduces no character |
| CssScope.BlocksNeedBrace | platform/src/lib/content.ts:141-147 | Text without `{` is kept by the three block removals |
| CssScope.ScopeAll | platform/src/lib/content.ts:226-228 | Each comma-separated piece is trimmed and prefixed with `.lesson-content ` |
| CssScope.ScopedListPieces | platform/src/lib/content.ts:225-230 | Splitting the scoped list on commas gives the selector's pieces, scoped and in order, each after the first led by the space of `, `. The list adds no `{` |
| CssScope.ScopedPiecesSplit | platform/src/lib/content.ts:225-230 | Joining scoped comma-free pieces with `, ` and splitting on commas gives them back, so the number of pieces is kept |
| CssScope.ScopeSelectorShape | platform/src/lib/content.ts:207-231 | A line without `{`, or whose selector is `body`, `html`, `*` or starts with `:root`, is returned as it is. Any other line becomes the scoped selector list, one space, and the line from its first `{` on, unchanged |
| CssScope.ScopeSimpleRule | platform/src/lib/content.ts:207-231 | `sel {…}` with a plain selector becomes `.lesson-content sel {…}` |
| CssScope.LineStep | platform/src/lib/content.ts:155-199 | An `@media` line is kept and enters media mode. Outside media mode the state carries over and a line is scoped exactly when it holds `{` and starts with none of `}`, `/*` and `@`. In media mode the depth moves by the line's `{` count minus its `}` count, the mode lasts while the depth is positive, the line that ends it is kept, and any other line is scoped exactly when it holds `{` and does not start with `}` |
| CssScope.Decisions | platform/src/lib/content.ts:155-199 | One decision per line |
| CssScope.TopLevelDecisions | platform/src/lib/content.ts:159-195 | Before the first `@media` line, from any state outside media mode, the loop scopes exactly the top-level rules, whatever lines follow |
| CssScope.DecisionsScopable | platform/src/lib/content.ts:185-195 | Every line decided for scoping holds a `{` and does not start with `}` |
| CssScope.ScopeLines | platform/src/lib/content.ts:150-199 | One output line per input line, and every line that cannot be scoped is kept verbatim |
| CssScope.TopLevelLineScoped | platform/src/lib/content.ts:185-195 | Every line before the first `@media` line goes through `scopeSelector` exactly when its trimmed form is a top-level rule, and is kept otherwise |
| CssScope.TopLevelLinesScoped | platform/src/lib/content.ts:150-199 | In CSS without `@media` lines every line goes through `scopeSelector` exactly when its trimmed form is a top-level rule, and is kept otherwise |
| CssScope.BracelessKept | platform/src/lib/content.ts:185-198 | A line without `{` is kept |
| CssScope.BracelessLinesKept | platform/src/lib/content.ts:150-199 | CSS lines without braces pass through unchanged |
| CssScope.InsideMedia | platform/src/lib/content.ts:173-190 | Inside a media block at depth 1, a run of one-line rules is scoped line after line |
| CssScope.MediaClose | platform/src/lib/content.ts:176-182 | A lone `}` at depth 1 is kept and ends media mode |
| CssScope.MediaFirstRuleAsWritten | platform/src/lib/content.ts:159-182 | As written, the one-line rule right after an `@media … {` line is not scoped, and media mode has ended before it |
| CssScope.MediaRulesScoped | platform/src/lib/content.ts:159-190 | With the opening line's `{` counted, every one-line rule of a media block is scoped and the block's `}` ends media mode |
| CssScope.MediaDefect | platform/src/lib/content.ts:150-199 | For a block of `@media … {`, `sel {…}` and `}`, the code as written emits the rule line unchanged, while the corrected count emits `.lesson-content sel {…}` |
| CssScope.MediaDefectWitness | platform/src/lib/content.ts:159-182 | `@media print {`, `h3 { color: red; }` and `}` meet the conditions of `MediaDefect` |
| CssScope.EntryOnlyMattersForMedia | platform/src/lib/content.ts:159-164 | Without `@media` lines, the code as written and the corrected brace count decide alike |
| CssScope.MediaBlockDecisions | platform/src/lib/content.ts:159-182 | For an `@media … {` line, one rule and `}`, the code as written scopes nothing, while the corrected count scopes the rule |
| CssScope.ScopeCssWith | platform/src/lib/content.ts:136-202 | The scoped CSS is trimmed |
| CssScope.ScopeCssWithoutRemovals | platform/src/lib/content.ts:136-202 | When none of the four removal patterns matches, the result is the line loop's output joined with newlines and trimmed |
| CssScope.RulelessCss | platform/src/lib/content.ts:136-202 | CSS without `{` loses only its imports and is trimmed |
| Middleware.AnyPrefix | platform/src/middleware.ts:35-39 | True exactly when the path starts with one of the prefixes |
| Middleware.Decide | platform/src/middleware.ts:41-45 | A redirect to the login page carries the original path |
| Middleware.PassesIffAllowed | platform/src/middleware.ts:41-55 | The request passes exactly when a protected path has a session, an admin path an admin session, and a login or registration path none |
| Middleware.AdminPathsAreProtected | platform/src/middleware.ts:8-9 | Every admin path is also protected, so an anonymous admin request meets the login rule first |
| Middleware.AnonymousOnProtected | platform/src/middleware.ts:41-45 | Without a session, a path under `/lessons`, `/progress` or `/admin` redirects to `/login` with the path in `redirect` |
| Middleware.StudentOnAdminPath | platform/src/middleware.ts:47-49 | A student on an `/admin` path is sent to `/lessons` |
| Middleware.SignedInOnAuthPage | platform/src/middleware.ts:51-53 | A signed-in user of either role on `/login` or `/register` is sent to `/lessons` |
| Middleware.AuthPathsNotAdmin | platform/src/middleware.ts:9-10 | The login and registration paths are not admin paths |
| Middleware.HomePasses | platform/src/middleware.ts:55 | `/` passes for any visitor |
| Middleware.RawPrefixes | platform/src/middleware.ts:35-39 | The tests are raw `startsWith`: `/adminx` counts as an admin path and `/lessons-old` as protected |
| MockData.BuildLessonProgress | platform/src/lib/mock-data.ts:9-40 | The totals are the sums of the category totals and of the done counts, the other inputs are copied, and the status is `in_progress` exactly when some but not all tasks are done and `completed` exactly when there are tasks and all are done. With done counts within the totals, this is the rule of `calculateLessonProgress` |
| MockData.BuildForLesson | platform/src/lib/mock-data.ts:51-86 | A record carries its lesson's id, number and category totals. Lesson 1 takes the given required count and no advanced one. Lesson 2 takes the given required and advanced counts, each in its own category. Any other lesson has nothing done in either category |
| MockData.BuildAllLessonProgress | platform/src/lib/mock-data.ts:46-88 | One record per registered lesson, in order, with its id, number and task count; only lessons 1 and 2 can have done tasks |
| MockData.StaticBuild | platform/src/lib/mock-data.ts:46-88 | Over the static registry the records are lesson 1 with 2 required tasks and lesson 2 with 3 required and 2 advanced |
| MockData.StaticSums | platform/src/lib/mock-data.ts:90-100 | Over the static registry there are 7 tasks, the done count is the sum of the three counts, and a lesson counts as finished when all its tasks are done |
| MockData.TwoRecordSums | platform/src/lib/mock-data.ts:90-100 | The counting helpers over two records add their totals and done counts and count the finished ones |
| MockData.StaticTotals | platform/src/lib/mock-data.ts:90-100 | Any counts over the static registry give their sum out of 7 tasks and the rounded percentage of that |
| MockData.AliceTotals | platform/src/lib/mock-data.ts:103-109 | Alice: 5 of 7 tasks, 71%, one lesson finished |
| MockData.BobTotals | platform/src/lib/mock-data.ts:111-116 | Bob: 3 of 7 tasks, 43%, one lesson finished |
| MockData.CarolTotals | platform/src/lib/mock-data.ts:118-124 | Carol: 6 of 7 tasks, 86%, one lesson finished |
| MockData.DaveTotals | platform/src/lib/mock-data.ts:126-131 | Dave: 1 of 7 tasks, 14%, no lesson finished |
| MockData.MockStudentAsWritten | platform/src/lib/mock-data.ts:133-153 | A mock summary as the fixture writes it: 10 lessons whatever the registry holds, with the records built from the counts. The finished lessons are the completed records, the task totals are the records' sums, the percentage is their rounded ratio, and the user fields and activity time are the given ones |
| MockData.MockLessonCountMismatch | platform/src/lib/mock-data.ts:144 | Over the static registry, a mock summary as the fixture writes it reports 10 lessons while holding 2 records |
| MockData.MockStudent | platform/src/lib/mock-data.ts:133-153 | With the lesson count taken from the registry, the summary's lesson count equals its number of records. Its totals are the records' sums, its finished lessons are the completed records (so within its lessons), its percentage is the rounded ratio, and its records and user fields are those of the fixture |
| SubmissionQuiz.FirstAnswerAt | platform/src/components/homework/SubmissionQuiz.tsx:19 | The position of the first stored answer for the question, -1 exactly when there is none |
| SubmissionQuiz.GetAnswer | platform/src/components/homework/SubmissionQuiz.tsx:18-20 | The answer of the first stored entry for the question, or `""` when there is no content or no such entry |
| SubmissionQuiz.UpdateAnswer | platform/src/components/homework/SubmissionQuiz.tsx:22-32 | One entry per question, in order, each with its position and question. The edited entry carries the new answer and every other entry the answer shown before |
| SubmissionQuiz.UpdateThenGet | platform/src/components/homework/SubmissionQuiz.tsx:18-32 | Reading back after an edit gives the new answer at the edited question, the old answer at every other question, and `""` past the questions |
| SubmissionQuiz.UpdateIdempotent | platform/src/components/homework/SubmissionQuiz.tsx:22-32 | Making the same edit twice gives the content of making it once |
| SubmissionChecklist.FirstEntryAt | platform/src/components/homework/SubmissionChecklist.tsx:21 | The position of the first stored entry with the label, -1 exactly when there is none |
| SubmissionChecklist.IsChecked | platform/src/components/homework/SubmissionChecklist.tsx:19-23 | The flag of the first stored entry labelled like the item; false without content, without such an entry, or for a position outside the items |
| SubmissionChecklist.Toggle | platform/src/components/homework/SubmissionChecklist.tsx:25-34 | One entry per item, in order, labelled with the item. The toggled entry flips what was shown and every other entry keeps it |
| SubmissionChecklist.ToggleThenCheck | platform/src/components/homework/SubmissionChecklist.tsx:19-34 | With distinct labels, toggling flips the toggled item and leaves every other item as shown |
| SubmissionChecklist.ToggleTwice | platform/src/components/homework/SubmissionChecklist.tsx:19-34 | With distinct labels, toggling the same item twice shows every item as before |
| SubmissionChecklist.ToggleRepeatedLabel | platform/src/components/homework/SubmissionChecklist.tsx:19-34 | With a repeated label, the second item reads the first one's entry, so toggling it shows no change |
| SubmissionScreenshot.LastSegment | platform/src/components/homework/SubmissionScreenshot.tsx:28 | `url.split("/").pop()`: the text after the last `/`, or the whole url without one; it holds no `/` |
| SubmissionScreenshot.ScreenshotOf | platform/src/components/homework/SubmissionScreenshot.tsx:24-29 | The file url is the typed url verbatim. The file name is never empty and holds no `/`. It is `screenshot` for an empty url or one ending in `/`, and otherwise the text after the last `/` |
| SubmissionScreenshot.DisplayedUrl | platform/src/components/homework/SubmissionScreenshot.tsx:22 | The field shows the stored url, or `""` without content |
| SubmissionScreenshot.LastSegmentAfterSlash | platform/src/components/homework/SubmissionScreenshot.tsx:28 | After a `/`, a slash-free tail is the last segment |
| SubmissionScreenshot.LastSegmentWhole | platform/src/components/homework/SubmissionScreenshot.tsx:28 | A url without `/` is its own last segment |
| SubmissionScreenshot.FileNameIsSegment | platform/src/components/homework/SubmissionScreenshot.tsx:28 | A url ending in a non-empty slash-free segment names the file after that segment |
| SubmissionScreenshot.TrailingSlashFallsBack | platform/src/components/homework/SubmissionScreenshot.tsx:28 | A url ending in `/` gets the file name `screenshot` |
| LessonNav.Nav | platform/src/components/lesson/LessonNav.tsx:10-13 | For the first lesson with the current id, the neighbours are the entries just before and just after it, if any. For an id not in the registry there is no previous lesson and the next is the registry's first |
| LessonNav.NavOfRegistered | platform/src/components/lesson/LessonNav.tsx:10-13 | With distinct ids, a registered lesson's neighbours are the entries around its position |
| LessonNav.NextThenPrev | platform/src/components/lesson/LessonNav.tsx:10-13 | With distinct ids, the previous lesson of a lesson's next lesson is that lesson |
| LessonNav.EndsHaveOneLink | platform/src/components/lesson/LessonNav.tsx:10-13 | The first lesson has no previous one and the last no next one |
| LessonNav.StaticNav | platform/src/components/lesson/LessonNav.tsx:10-13 | In the static registry, lesson 1 links only forward to lesson 2 and lesson 2 only back to lesson 1 |
| Text.Trim | platform/src/lib/content.ts:93 | `trim()`: the result has no whitespace at either end and is the input with leading and trailing whitespace removed |
| Text.TrimKeepsAbsent | platform/src/lib/content.ts:156 | Trimming introduces no character |
| Text.SplitJoinInverse | platform/src/lib/content.ts:150 | Joining the pieces of a split with the separator gives the text back |
| Text.SplitJoin | platform/src/lib/content.ts:226-228 | Splitting a `, `-joined list of comma-free pieces on commas gives the pieces back, each after the first led by a space |
| Text.SplitLast | platform/src/components/homework/SubmissionScreenshot.tsx:28 | The last piece of a split is the text after the last separator, or the whole text without one |

## Left out

- JWT verification and cookies (`middleware.ts:17-29`): the verified payload is an `Option<UserRole>` parameter of `Middleware.Decide`. The matcher configuration (`middleware.ts:58-62`) decides which requests reach the guard at all, and is not modelled.
- File reading (`content.ts:24-45`): `Content.ReadLessonContent` takes the file's text as an `Option<string>` parameter, where `None` is a failed read. The lessons directory is a parameter, and `join` is a plain `/` concatenation without path normalisation.
- Floating point: `Math.round((completed / total) * 100)` is the exact rational rounding `(200·completed + total) div (2·total)`. Agreement with IEEE double results is not claimed.
- MockData.MockStudentAsWritten: for a registry without tasks the fixture computes `Math.round(0 / 0)`, which is `NaN`; the model gives 0, because integers have no `NaN`.
- Dates: `updatedAt` is an integer timestamp, and `>` on dates is integer comparison.
- Counts are natural numbers without an upper bound; JavaScript numbers lose precision above 2^53, which no task count reaches.
- React rendering, the `onChange` callbacks and the `disabled` flags of the homework forms: the helpers return the new content instead of passing it to `onChange`.
- SubmissionChecklist.IsChecked: a position outside the items reads as unchecked. In the source `items[index]` is `undefined` there and no stored label equals it, which gives the same result.
- Regular expressions are written-out scanners for the specific patterns used, not a general engine. The `i` flag is ASCII case folding, which is exact for these ASCII-only patterns.
- Progress.CompletedCountsBySubmittedTasks: stated for lessons whose task ids are distinct, as they are in the static data (`Constants.StaticTaskIdsDistinct`). With a repeated id the source counts every listed copy, and the model states that case only through `DoneAmong`'s membership contract.
- Content.StripSection: its contract states only that the html is kept or shortened. What it removes is stated by the lemmas `StripFound`, `StripUnmatched`, `StripUnclosed`, `StripLeaf` and `StripNested`, because a direct postcondition over the depth scan made the proofs too slow.
- CssScope.ScopeCssWith: its contract states only that the output is trimmed. `ScopeCssWithoutRemovals` connects it to the line loop. The loop is stated line by line for top-level rules by `TopLevelDecisions`, `TopLevelLineScoped` and `TopLevelLinesScoped`, and inside media blocks by the media lemmas. The final `join` and `trim` of the lines are not inverted in the model.
- CssScope.Decisions: its own contract gives one decision per line. Which lines are scoped is stated by `LineStep` step by step, by `TopLevelDecisions` for top-level lines and by the media lemmas for media blocks. It is kept off the recursive function so that every proof unfolding it stays small.
- Authentication, sessions, database access, API routes, client state and the pure rendering components are outside this model.

## Findings

| source | as written | input that shows it | evidently intended | confidence | as-written member | corrected member |
|---|---|---|---|---|---|---|
| platform/src/lib/content.ts:159-182 | On an `@media … {` line the depth is reset to 0, and that line's own `{` is not counted. A one-line rule inside then brings the depth to 0, ends media mode and is kept unscoped. | the CSS lines `@media print {`, `h3 { color: red; }`, `}`: the `h3` rule stays unscoped (see `CssScope.MediaDefectWitness`) | count the opening line's braces, so every rule inside the media block is scoped | not executed; high | CssScope.MediaDefect | CssScope.MediaRulesScoped |
| platform/src/lib/mock-data.ts:144 | every mock student reports `totalLessons: 10`, while its `lessonProgress` holds one record per registered lesson, two with the static registry | any of the four students: `totalLessons` is 10, with 2 records (see `MockData.MockLessonCountMismatch`) | the lesson count of the registry, as `calculateStudentProgress` reports it | not executed; medium | MockData.MockStudentAsWritten | MockData.MockStudent |

/** The progress aggregator: a student's submission rows reduced against the
    lesson registry, first to per-lesson task counts and a three-way status,
    then to per-student totals, a completion percentage and the time of the
    latest activity. The registry is a parameter; the application passes
    `Constants.Lessons`. */
module Progress {
  import opened Wrappers
  import opened Types
  import opened Constants

  /** The only row status that counts a task as done. */
  const SubmittedStatus: string := "submitted"

  /** `new Set(rows.filter(submitted).map((s) => s.taskId))`. */
  function CompletedIds(rows: seq<SubmissionRow>): set<string> {
    set s | s in rows && s.status == SubmittedStatus :: s.taskId
  }

  /** `tasks.filter((t) => completedIds.has(t.id))`. */
  function DoneAmong(tasks: seq<HomeworkTask>, done: set<string>): (r: seq<HomeworkTask>)
    ensures |r| <= |tasks|
    ensures forall t :: t in r <==> t in tasks && t.id in done
    ensures (forall t :: t in tasks ==> t.id !in done) ==> r == []
  {
    if |tasks| == 0 then []
    else
      var rest := DoneAmong(tasks[1..], done);
      assert forall t :: t in tasks <==> t == tasks[0] || t in tasks[1..];
      if tasks[0].id in done then [tasks[0]] + rest else rest
  }

  /** The filter only looks at the ids of the tasks it is given. */
  lemma {:induction false} DoneAmongAgrees(tasks: seq<HomeworkTask>, a: set<string>, b: set<string>)
    requires forall t :: t in tasks ==> (t.id in a <==> t.id in b)
    ensures DoneAmong(tasks, a) == DoneAmong(tasks, b)
  {
    if |tasks| > 0 {
      assert tasks[0] in tasks;
      assert forall t :: t in tasks[1..] ==> t in tasks;
      DoneAmongAgrees(tasks[1..], a, b);
    }
  }

  /** The status chain of `calculateLessonProgress`. */
  function StatusOf(completed: nat, total: nat): LessonStatus {
    if completed > 0 && completed < total then InProgress
    else if total > 0 && completed == total then Completed
    else NotStarted
  }

  /** The status a record's counts call for: completed exactly when there are
      tasks and all are done, in progress exactly when some but not all are
      done, not started exactly when there are no tasks or none is done. */
  predicate StatusMatchesCounts(p: LessonProgress) {
    && (p.status == Completed <==> p.totalTasks > 0 && p.completedTasks == p.totalTasks)
    && (p.status == InProgress <==> 0 < p.completedTasks < p.totalTasks)
    && (p.status == NotStarted <==> p.totalTasks == 0 || p.completedTasks == 0)
  }

  /** The tasks of the first registered lesson with the id (none when the id
      is unknown). */
  function LessonTasks(registry: seq<Lesson>, lessonId: string): seq<HomeworkTask> {
    match FindLesson(registry, ById(lessonId))
    case None => []
    case Some(lesson) => TasksOf(lesson.homework)
  }

  /** `calculateLessonProgress`: the counts of one lesson's tasks and of those
      with a submitted row, and the status they call for. An id the registry
      does not know gives an all-zero record. */
  function CalculateLessonProgress(registry: seq<Lesson>, lessonId: string, lessonNumber: int,
                                   rows: seq<SubmissionRow>): (r: LessonProgress)
    ensures r.lessonId == lessonId && r.lessonNumber == lessonNumber
    ensures (forall l :: l in registry ==> l.id != lessonId) ==>
              r == LessonProgress(lessonId, lessonNumber, 0, 0, 0, 0, 0, 0, NotStarted)
    ensures r.totalTasks == |LessonTasks(registry, lessonId)|
    ensures r.requiredTotal == |OfCategory(LessonTasks(registry, lessonId), Required)|
    ensures r.advancedTotal == |OfCategory(LessonTasks(registry, lessonId), Advanced)|
    ensures r.requiredTotal + r.advancedTotal == r.totalTasks
    ensures r.requiredCompleted <= r.requiredTotal && r.advancedCompleted <= r.advancedTotal
    ensures r.completedTasks == r.requiredCompleted + r.advancedCompleted
    ensures r.completedTasks <= r.totalTasks
    ensures StatusMatchesCounts(r)
  {
    match FindLesson(registry, ById(lessonId))
    case None =>
      LessonProgress(lessonId, lessonNumber, 0, 0, 0, 0, 0, 0, NotStarted)
    case Some(lesson) =>
      var tasks := TasksOf(lesson.homework);
      var requiredTasks := OfCategory(tasks, Required);
      var advancedTasks := OfCategory(tasks, Advanced);
      var done := CompletedIds(rows);
      var requiredCompleted := |DoneAmong(requiredTasks, done)|;
      var advancedCompleted := |DoneAmong(advancedTasks, done)|;
      var completed := requiredCompleted + advancedCompleted;
      CategoriesPartition(tasks);
      LessonProgress(lessonId, lessonNumber, |tasks|, completed,
                     |requiredTasks|, requiredCompleted,
                     |advancedTasks|, advancedCompleted,
                     StatusOf(completed, |tasks|))
  }

  /** Some submitted row names the task. */
  predicate Submitted(rows: seq<SubmissionRow>, taskId: string) {
    exists s :: s in rows && s.status == SubmittedStatus && s.taskId == taskId
  }

  /** The tasks of category `c` in `tasks` whose id is in `done`, each once. */
  function DoneOfCategory(tasks: seq<HomeworkTask>, c: HomeworkCategory, done: set<string>): set<HomeworkTask> {
    set t | t in tasks && t.category == c && t.id in done
  }

  /** With distinct ids, filtering by category and then by the done ids
      counts every done task of the category exactly once. */
  lemma {:induction false} DoneCount(tasks: seq<HomeworkTask>, c: HomeworkCategory, done: set<string>)
    requires DistinctIds(tasks)
    ensures |DoneAmong(OfCategory(tasks, c), done)| == |DoneOfCategory(tasks, c, done)|
    decreases |tasks|
  {
    if |tasks| > 0 {
      DistinctTail(tasks);
      DoneCount(tasks[1..], c, done);
      DoneCountStep(tasks, c, done);
    }
  }

  /** The tail of a list without repeated ids has none, and does not hold
      the head. */
  lemma DistinctTail(tasks: seq<HomeworkTask>)
    requires |tasks| > 0 && DistinctIds(tasks)
    ensures DistinctIds(tasks[1..]) && tasks[0] !in tasks[1..]
  {
    var rest := tasks[1..];
    forall i, j | 0 <= i < j < |rest|
      ensures rest[i].id != rest[j].id
    {
      assert rest[i] == tasks[i + 1] && rest[j] == tasks[j + 1];
    }
    forall k | 0 <= k < |rest|
      ensures rest[k] != tasks[0]
    {
      assert rest[k] == tasks[k + 1];
    }
  }

  /** The head of the list adds one to both counts when it is a done task
      of the category, and nothing otherwise. */
  lemma DoneCountStep(tasks: seq<HomeworkTask>, c: HomeworkCategory, done: set<string>)
    requires |tasks| > 0 && tasks[0] !in tasks[1..]
    requires |DoneAmong(OfCategory(tasks[1..], c), done)| == |DoneOfCategory(tasks[1..], c, done)|
    ensures |DoneAmong(OfCategory(tasks, c), done)| == |DoneOfCategory(tasks, c, done)|
  {
    FilterStep(tasks, c, done);
    DoneSetStep(tasks, c, done);
  }

  /** The filters keep the head exactly when it is a done task of the
      category. */
  lemma FilterStep(tasks: seq<HomeworkTask>, c: HomeworkCategory, done: set<string>)
    requires |tasks| > 0
    ensures |DoneAmong(OfCategory(tasks, c), done)|
         == (if tasks[0].category == c && tasks[0].id in done then 1 else 0)
            + |DoneAmong(OfCategory(tasks[1..], c), done)|
  {
    var x := tasks[0];
    var filtered := OfCategory(tasks[1..], c);
    if x.category == c {
      assert OfCategory(tasks, c) == [x] + filtered;
      assert ([x] + filtered)[1..] == filtered;
    } else {
      assert OfCategory(tasks, c) == filtered;
    }
  }

  /** The set of done tasks gains the head exactly when it is a done task of
      the category and not already in the tail. */
  lemma DoneSetStep(tasks: seq<HomeworkTask>, c: HomeworkCategory, done: set<string>)
    requires |tasks| > 0 && tasks[0] !in tasks[1..]
    ensures |DoneOfCategory(tasks, c, done)|
         == (if tasks[0].category == c && tasks[0].id in done then 1 else 0)
            + |DoneOfCategory(tasks[1..], c, done)|
  {
    var x := tasks[0];
    var after := DoneOfCategory(tasks[1..], c, done);
    assert forall t :: t in tasks <==> t == x || t in tasks[1..];
    if x.category == c && x.id in done {
      assert DoneOfCategory(tasks, c, done) == {x} + after;
    } else {
      assert DoneOfCategory(tasks, c, done) == after;
    }
  }

  /** With distinct task ids, a lesson's completed counts are the numbers of
      its required and of its advanced tasks that some submitted row names:
      every task counts once, however many rows name it. */
  lemma CompletedCountsBySubmittedTasks(registry: seq<Lesson>, lessonId: string, lessonNumber: int,
                                         rows: seq<SubmissionRow>)
    requires DistinctIds(LessonTasks(registry, lessonId))
    ensures var r := CalculateLessonProgress(registry, lessonId, lessonNumber, rows);
      var tasks := LessonTasks(registry, lessonId);
      && r.requiredCompleted == |set t | t in tasks && t.category == Required && Submitted(rows, t.id)|
      && r.advancedCompleted == |set t | t in tasks && t.category == Advanced && Submitted(rows, t.id)|
  {
    var tasks := LessonTasks(registry, lessonId);
    var done := CompletedIds(rows);
    forall t | t in tasks
      ensures t.id in done <==> Submitted(rows, t.id)
    {
      if Submitted(rows, t.id) {
        var s :| s in rows && s.status == SubmittedStatus && s.taskId == t.id;
        assert s.taskId in done;
      }
    }
    assert DoneOfCategory(tasks, Required, done)
        == set t | t in tasks && t.category == Required && Submitted(rows, t.id);
    assert DoneOfCategory(tasks, Advanced, done)
        == set t | t in tasks && t.category == Advanced && Submitted(rows, t.id);
    DoneCount(tasks, Required, done);
    DoneCount(tasks, Advanced, done);
  }

  /** Only the set of rows matters: their order and repetitions do not change
      a lesson's progress. */
  lemma LessonProgressIgnoresOrder(registry: seq<Lesson>, lessonId: string, lessonNumber: int,
                                   a: seq<SubmissionRow>, b: seq<SubmissionRow>)
    requires forall s :: s in a <==> s in b
    ensures CalculateLessonProgress(registry, lessonId, lessonNumber, a)
         == CalculateLessonProgress(registry, lessonId, lessonNumber, b)
  {
    assert CompletedIds(a) == CompletedIds(b);
  }

  /** Rows that are not submitted, or that name a task outside the lesson, do
      not change the lesson's progress. */
  lemma LessonProgressIgnoresIrrelevantRows(registry: seq<Lesson>, lessonId: string, lessonNumber: int,
                                            rows: seq<SubmissionRow>, extra: seq<SubmissionRow>)
    requires forall s :: s in extra ==>
               s.status != SubmittedStatus || forall t :: t in LessonTasks(registry, lessonId) ==> t.id != s.taskId
    ensures CalculateLessonProgress(registry, lessonId, lessonNumber, rows + extra)
         == CalculateLessonProgress(registry, lessonId, lessonNumber, rows)
  {
    match FindLesson(registry, ById(lessonId))
    case None =>
    case Some(lesson) =>
      var tasks := TasksOf(lesson.homework);
      var a := CompletedIds(rows + extra);
      var b := CompletedIds(rows);
      forall t | t in tasks
        ensures t.id in a <==> t.id in b
      {
        if t.id in a {
          var s :| s in rows + extra && s.status == SubmittedStatus && s.taskId == t.id;
          assert s in rows;
        }
      }
      DoneAmongAgrees(OfCategory(tasks, Required), a, b);
      DoneAmongAgrees(OfCategory(tasks, Advanced), a, b);
  }

  /** `rows.filter((s) => s.lessonId === lessonId)`. */
  function RowsOfLesson(rows: seq<SubmissionRow>, lessonId: string): (r: seq<SubmissionRow>)
    ensures forall s :: s in r <==> s in rows && s.lessonId == lessonId
  {
    if |rows| == 0 then []
    else
      var rest := RowsOfLesson(rows[1..], lessonId);
      assert forall s :: s in rows <==> s == rows[0] || s in rows[1..];
      if rows[0].lessonId == lessonId then [rows[0]] + rest else rest
  }

  /** The sum of the entries' task totals (a left-to-right `reduce` from 0). */
  function SumTotalTasks(lps: seq<LessonProgress>): nat {
    if |lps| == 0 then 0 else lps[0].totalTasks + SumTotalTasks(lps[1..])
  }

  /** The sum of the entries' completed-task counts. */
  function SumCompletedTasks(lps: seq<LessonProgress>): nat {
    if |lps| == 0 then 0 else lps[0].completedTasks + SumCompletedTasks(lps[1..])
  }

  /** The entries' statuses, in order. */
  function Statuses(lps: seq<LessonProgress>): (r: seq<LessonStatus>)
    ensures |r| == |lps|
    ensures forall i :: 0 <= i < |lps| ==> r[i] == lps[i].status
  {
    seq(|lps|, i requires 0 <= i < |lps| => lps[i].status)
  }

  /** `lps.filter((lp) => lp.status === "completed").length`
      (`CompletedOccurrences` gives the count itself). */
  function CountCompleted(lps: seq<LessonProgress>): (r: nat)
    ensures r <= |lps|
    ensures r == 0 <==> forall i :: 0 <= i < |lps| ==> lps[i].status != Completed
    ensures r == |lps| <==> forall i :: 0 <= i < |lps| ==> lps[i].status == Completed
  {
    if |lps| == 0 then 0
    else
      var rest := CountCompleted(lps[1..]);
      assert forall i :: 1 <= i < |lps| ==> lps[i] == lps[1..][i - 1];
      (if lps[0].status == Completed then 1 else 0) + rest
  }

  /** The completed count is the number of times `Completed` occurs among
      the entries' statuses. */
  lemma {:induction false} CompletedOccurrences(lps: seq<LessonProgress>)
    ensures CountCompleted(lps) == multiset(Statuses(lps))[Completed]
  {
    if |lps| > 0 {
      CompletedOccurrences(lps[1..]);
      assert Statuses(lps) == [lps[0].status] + Statuses(lps[1..]);
    }
  }

  /** Entry-wise bounds add up: when no entry has more completed tasks than
      tasks, neither has the sum. */
  lemma {:induction false} SumsBounded(lps: seq<LessonProgress>)
    requires forall i :: 0 <= i < |lps| ==> lps[i].completedTasks <= lps[i].totalTasks
    ensures SumCompletedTasks(lps) <= SumTotalTasks(lps)
  {
    if |lps| > 0 {
      assert forall i :: 0 <= i < |lps| - 1 ==> lps[1..][i] == lps[i + 1];
      SumsBounded(lps[1..]);
    }
  }

  /** `Math.round((completed / total) * 100)` for `total > 0`, else 0: the
      percentage rounded to the nearest integer, halves upward, computed
      exactly on integers. */
  function Percentage(completed: nat, total: nat): (r: int)
    ensures total == 0 ==> r == 0
    ensures completed <= total ==> 0 <= r <= 100
    ensures 0 < total && completed == total ==> r == 100
    ensures completed == 0 ==> r == 0
  {
    if total > 0 then
      var r := (200 * completed + total) / (2 * total);
      PercentageBounds(completed, total, r);
      r
    else 0
  }

  /** The percentage is `100 * completed / total` rounded to the nearest
      integer, halves upwards. */
  lemma PercentageRounds(completed: nat, total: nat)
    requires total > 0
    ensures var r := Percentage(completed, total);
      2 * total * r - total <= 200 * completed < 2 * total * r + total
  {
    PercentageBounds(completed, total, Percentage(completed, total));
  }

  lemma DivBounds(n: int, d: int, q: int)
    requires d > 0 && q == n / d
    ensures d * q <= n < d * q + d
  {
  }

  lemma MulLess(d: int, a: int, b: int)
    requires d > 0 && d * a < d * b
    ensures a < b
  {
  }

  lemma PercentageBounds(completed: nat, total: nat, r: int)
    requires total > 0 && r == (200 * completed + total) / (2 * total)
    ensures 2 * total * r - total <= 200 * completed < 2 * total * r + total
    ensures completed <= total ==> 0 <= r <= 100
    ensures completed == total ==> r == 100
    ensures completed == 0 ==> r == 0
  {
    var d := 2 * total;
    DivBounds(200 * completed + total, d, r);
    MulLess(d, -1, r);
    if completed <= total {
      MulLess(d, r, 101);
    }
    if completed == total {
      MulLess(d, 99, r);
    }
    if completed == 0 {
      MulLess(d, r, 1);
    }
  }

  /** `rows.reduce((latest, s) => (s.updatedAt > latest ? s.updatedAt : latest), latest)`:
      the largest of `latest` and the rows' times. */
  function LatestFrom(latest: int, rows: seq<SubmissionRow>): (r: int)
    ensures r >= latest
    ensures forall i :: 0 <= i < |rows| ==> rows[i].updatedAt <= r
    ensures r == latest || exists i :: 0 <= i < |rows| && rows[i].updatedAt == r
    decreases |rows|
  {
    if |rows| == 0 then latest
    else
      var next := if rows[0].updatedAt > latest then rows[0].updatedAt else latest;
      var r := LatestFrom(next, rows[1..]);
      assert forall i :: 1 <= i < |rows| ==> rows[i] == rows[1..][i - 1];
      r
  }

  /** The time of the latest row: absent exactly when there are no rows, and
      otherwise one of the rows' times, at least as late as every other. */
  function LastActivity(rows: seq<SubmissionRow>): (r: Option<int>)
    ensures r.None? <==> |rows| == 0
    ensures r.Some? ==> exists i :: 0 <= i < |rows| && rows[i].updatedAt == r.value
    ensures r.Some? ==> forall i :: 0 <= i < |rows| ==> rows[i].updatedAt <= r.value
  {
    if |rows| > 0 then Some(LatestFrom(rows[0].updatedAt, rows)) else None
  }

  /** The latest activity depends only on the set of rows, not on their order
      or repetitions. */
  lemma LastActivityIgnoresOrder(a: seq<SubmissionRow>, b: seq<SubmissionRow>)
    requires forall s :: s in a <==> s in b
    ensures LastActivity(a) == LastActivity(b)
  {
    assert |a| > 0 ==> a[0] in b;
    assert |b| > 0 ==> b[0] in a;
    if |a| > 0 {
      var x := LastActivity(a).value;
      var y := LastActivity(b).value;
      var i :| 0 <= i < |a| && a[i].updatedAt == x;
      var j :| 0 <= j < |b| && b[j].updatedAt == y;
      assert a[i] in b;
      assert b[j] in a;
    }
  }

  /** One lesson's progress for each registered lesson, in registry order,
      each computed from that lesson's rows only. */
  function LessonProgressList(registry: seq<Lesson>, rows: seq<SubmissionRow>): seq<LessonProgress> {
    seq(|registry|, i requires 0 <= i < |registry| =>
      CalculateLessonProgress(registry, registry[i].id, registry[i].number,
                              RowsOfLesson(rows, registry[i].id)))
  }

  /** `calculateStudentProgress`: per-lesson progress for every registered
      lesson, their sums, the completed-lesson count, the rounded percentage
      and the latest activity. */
  function CalculateStudentProgress(registry: seq<Lesson>, userId: string, githubNickname: string,
                                    displayName: Option<string>, rows: seq<SubmissionRow>): (r: StudentProgress)
    ensures r.userId == userId && r.githubNickname == githubNickname && r.displayName == displayName
    ensures r.totalLessons == |registry| == |r.lessonProgress|
    ensures forall i :: 0 <= i < |registry| ==>
              r.lessonProgress[i] == CalculateLessonProgress(registry, registry[i].id, registry[i].number,
                                                             RowsOfLesson(rows, registry[i].id))
    ensures r.totalTasks == SumTotalTasks(r.lessonProgress)
    ensures r.completedTasks == SumCompletedTasks(r.lessonProgress)
    ensures r.completedLessons == CountCompleted(r.lessonProgress)
    ensures r.completedTasks <= r.totalTasks && r.completedLessons <= r.totalLessons
    ensures r.completionPercentage == Percentage(r.completedTasks, r.totalTasks)
    ensures 0 <= r.completionPercentage <= 100
    ensures r.totalTasks == 0 ==> r.completionPercentage == 0
    ensures 0 < r.totalTasks && r.completedTasks == r.totalTasks ==> r.completionPercentage == 100
    ensures r.lastActivityAt == LastActivity(rows)
  {
    var lps := LessonProgressList(registry, rows);
    var totalTasks := SumTotalTasks(lps);
    var completedTasks := SumCompletedTasks(lps);
    SumsBounded(lps);
    StudentProgress(userId, githubNickname, displayName, |registry|, CountCompleted(lps),
                    totalTasks, completedTasks, Percentage(completedTasks, totalTasks),
                    lps, LastActivity(rows))
  }

  /** A student's progress depends only on the set of rows: any reordering or
      repetition of the rows gives the same result. */
  lemma StudentProgressIgnoresOrder(registry: seq<Lesson>, userId: string, githubNickname: string,
                                    displayName: Option<string>, a: seq<SubmissionRow>, b: seq<SubmissionRow>)
    requires forall s :: s in a <==> s in b
    ensures CalculateStudentProgress(registry, userId, githubNickname, displayName, a)
         == CalculateStudentProgress(registry, userId, githubNickname, displayName, b)
  {
    forall i | 0 <= i < |registry|
      ensures LessonProgressList(registry, a)[i] == LessonProgressList(registry, b)[i]
    {
      var id := registry[i].id;
      LessonProgressIgnoresOrder(registry, id, registry[i].number, RowsOfLesson(a, id), RowsOfLesson(b, id));
    }
    assert LessonProgressList(registry, a) == LessonProgressList(registry, b);
    LastActivityIgnoresOrder(a, b);
  }

  /** With distinct lesson ids, a registered lesson's id finds that lesson. */
  lemma FindRegisteredLesson(registry: seq<Lesson>, i: int)
    requires DistinctLessonIds(registry) && 0 <= i < |registry|
    ensures FindLesson(registry, ById(registry[i].id)) == Some(registry[i])
  {
    var r := FindLesson(registry, ById(registry[i].id));
    assert HasKey(registry[i], ById(registry[i].id));
    assert registry[i] in registry;
  }

  lemma {:induction false} SumOfTaskCounts(lps: seq<LessonProgress>, registry: seq<Lesson>)
    requires |lps| == |registry|
    requires forall i :: 0 <= i < |lps| ==> lps[i].totalTasks == |TasksOf(registry[i].homework)|
    ensures SumTotalTasks(lps) == |RegistryTasks(registry)|
  {
    if |lps| > 0 {
      SumOfTaskCounts(lps[1..], registry[1..]);
    }
  }

  /** With distinct lesson ids the student's task total is the number of
      tasks in the whole registry. */
  lemma StudentTotalIsRegistrySize(registry: seq<Lesson>, userId: string, githubNickname: string,
                                   displayName: Option<string>, rows: seq<SubmissionRow>)
    requires DistinctLessonIds(registry)
    ensures CalculateStudentProgress(registry, userId, githubNickname, displayName, rows).totalTasks
         == |RegistryTasks(registry)|
  {
    var lps := LessonProgressList(registry, rows);
    forall i | 0 <= i < |registry|
      ensures lps[i].totalTasks == |TasksOf(registry[i].homework)|
    {
      FindRegisteredLesson(registry, i);
    }
    SumOfTaskCounts(lps, registry);
  }

  lemma {:induction false} SumOfNothingDone(lps: seq<LessonProgress>)
    requires forall i :: 0 <= i < |lps| ==> lps[i].completedTasks == 0
    ensures SumCompletedTasks(lps) == 0
  {
    if |lps| > 0 {
      assert forall i :: 0 <= i < |lps| - 1 ==> lps[1..][i] == lps[i + 1];
      SumOfNothingDone(lps[1..]);
    }
  }

  /** Without a submitted row no task of any lesson counts as done. */
  lemma NothingDoneWithoutSubmission(registry: seq<Lesson>, lessonId: string, lessonNumber: int,
                                     rows: seq<SubmissionRow>)
    requires forall s :: s in rows ==> s.status != SubmittedStatus
    ensures CalculateLessonProgress(registry, lessonId, lessonNumber, rows).completedTasks == 0
  {
    assert CompletedIds(rows) == {};
  }

  /** A student without a submitted row has done nothing: every lesson is
      not started, no lesson is completed and the percentage is 0. */
  lemma NothingSubmitted(registry: seq<Lesson>, userId: string, githubNickname: string,
                         displayName: Option<string>, rows: seq<SubmissionRow>)
    requires forall s :: s in rows ==> s.status != SubmittedStatus
    ensures var p := CalculateStudentProgress(registry, userId, githubNickname, displayName, rows);
      && p.completedTasks == 0 && p.completedLessons == 0 && p.completionPercentage == 0
      && forall i :: 0 <= i < |p.lessonProgress| ==> p.lessonProgress[i].status == NotStarted
  {
    var lps := LessonProgressList(registry, rows);
    forall i | 0 <= i < |registry|
      ensures lps[i].completedTasks == 0
    {
      NothingDoneWithoutSubmission(registry, registry[i].id, registry[i].number, RowsOfLesson(rows, registry[i].id));
    }
    SumOfNothingDone(lps);
  }

  /** A lesson whose tasks are two required ones, with a submitted row for
      the first only, is in progress with 1 of 2 tasks completed. */
  lemma OneOfTwoSubmitted(registry: seq<Lesson>, lessonId: string, lessonNumber: int,
                          t1: HomeworkTask, t2: HomeworkTask, row: SubmissionRow)
    requires LessonTasks(registry, lessonId) == [t1, t2]
    requires t1.category == Required && t2.category == Required && t1.id != t2.id
    requires row.taskId == t1.id && row.status == SubmittedStatus
    ensures CalculateLessonProgress(registry, lessonId, lessonNumber, [row])
         == LessonProgress(lessonId, lessonNumber, 2, 1, 2, 1, 0, 0, InProgress)
  {
    var tasks := [t1, t2];
    assert CompletedIds([row]) == {t1.id};
    TwoRequired(t1, t2);
    FirstOfTwoDone(t1, t2);
  }

  /** Two required tasks: both are required, none advanced. */
  lemma TwoRequired(t1: HomeworkTask, t2: HomeworkTask)
    requires t1.category == Required && t2.category == Required
    ensures OfCategory([t1, t2], Required) == [t1, t2] && OfCategory([t1, t2], Advanced) == []
  {
    var tasks := [t1, t2];
    assert OfCategory(tasks[1..][1..], Required) == [];
    assert OfCategory(tasks[1..][1..], Advanced) == [];
  }

  /** Of two tasks with different ids, only the first is done. */
  lemma FirstOfTwoDone(t1: HomeworkTask, t2: HomeworkTask)
    requires t1.id != t2.id
    ensures DoneAmong([t1, t2], {t1.id}) == [t1]
  {
    var tasks := [t1, t2];
    assert DoneAmong(tasks[1..][1..], {t1.id}) == [];
  }

  /** A student with no rows at all, against the static registry: 7 tasks,
      none done, no lesson completed, 0 percent, no activity. */
  lemma NoSubmissions(userId: string, githubNickname: string, displayName: Option<string>)
    ensures var p := CalculateStudentProgress(Lessons, userId, githubNickname, displayName, []);
      && p.totalLessons == 2 && p.totalTasks == 7 && p.completedTasks == 0
      && p.completedLessons == 0 && p.completionPercentage == 0 && p.lastActivityAt.None?
  {
    StaticLessonKeysDistinct();
    StaticTaskCounts();
    StudentTotalIsRegistrySize(Lessons, userId, githubNickname, displayName, []);
    NothingSubmitted(Lessons, userId, githubNickname, displayName, []);
  }
}

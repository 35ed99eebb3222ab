/** The mock student summaries of the admin pages (`src/lib/mock-data.ts`):
    per-lesson records built from given completion counts, and the student
    totals derived from them. */
module MockData {
  import opened Wrappers
  import opened Types
  import opened Constants
  import opened Progress

  /** `buildLessonProgress`: a record from category totals and completion
      counts. Its status chain is the one of `calculateLessonProgress` (its
      extra branch for a lesson without tasks assigns the default again). */
  function BuildLessonProgress(lessonId: string, lessonNumber: int, requiredTotal: nat, requiredDone: nat,
                               advancedTotal: nat, advancedDone: nat): (r: LessonProgress)
    ensures r.lessonId == lessonId && r.lessonNumber == lessonNumber
    ensures r.totalTasks == requiredTotal + advancedTotal
    ensures r.completedTasks == requiredDone + advancedDone
    ensures r.requiredTotal == requiredTotal && r.requiredCompleted == requiredDone
    ensures r.advancedTotal == advancedTotal && r.advancedCompleted == advancedDone
    ensures r.status == InProgress <==> 0 < r.completedTasks < r.totalTasks
    ensures r.status == Completed <==> 0 < r.totalTasks == r.completedTasks
    ensures r.completedTasks <= r.totalTasks ==> StatusMatchesCounts(r)
  {
    var total := requiredTotal + advancedTotal;
    var completed := requiredDone + advancedDone;
    LessonProgress(lessonId, lessonNumber, total, completed, requiredTotal, requiredDone,
                   advancedTotal, advancedDone, StatusOf(completed, total))
  }

  /** One entry of `buildAllLessonProgress`: lesson 1 takes the required
      count given for it, lesson 2 the required and advanced counts given for
      it, and every other lesson nothing done. */
  function BuildForLesson(lesson: Lesson, lesson1Required: nat, lesson2Required: nat,
                          lesson2Advanced: nat): (r: LessonProgress)
    ensures r.lessonId == lesson.id && r.lessonNumber == lesson.number
    ensures r.totalTasks == |GetAllHomeworkTasks(lesson)|
    ensures r.requiredTotal == |OfCategory(GetAllHomeworkTasks(lesson), Required)|
    ensures r.advancedTotal == |OfCategory(GetAllHomeworkTasks(lesson), Advanced)|
    ensures lesson.number != 1 && lesson.number != 2 ==> r.completedTasks == 0
    ensures lesson.number == 1 ==> r.completedTasks == lesson1Required
    ensures lesson.number == 2 ==> r.completedTasks == lesson2Required + lesson2Advanced
    ensures lesson.number == 1 ==> r.requiredCompleted == lesson1Required && r.advancedCompleted == 0
    ensures lesson.number == 2 ==> r.requiredCompleted == lesson2Required && r.advancedCompleted == lesson2Advanced
    ensures lesson.number != 1 && lesson.number != 2 ==> r.requiredCompleted == 0 && r.advancedCompleted == 0
  {
    var tasks := GetAllHomeworkTasks(lesson);
    var requiredTotal := |OfCategory(tasks, Required)|;
    var advancedTotal := |OfCategory(tasks, Advanced)|;
    CategoriesPartition(tasks);
    if lesson.number == 1 then
      BuildLessonProgress(lesson.id, lesson.number, requiredTotal, lesson1Required, advancedTotal, 0)
    else if lesson.number == 2 then
      BuildLessonProgress(lesson.id, lesson.number, requiredTotal, lesson2Required, advancedTotal, lesson2Advanced)
    else
      BuildLessonProgress(lesson.id, lesson.number, requiredTotal, 0, advancedTotal, 0)
  }

  /** `buildAllLessonProgress`: one record per registered lesson, in
      registry order. */
  function BuildAllLessonProgress(registry: seq<Lesson>, lesson1Required: nat, lesson2Required: nat,
                                  lesson2Advanced: nat): (r: seq<LessonProgress>)
    ensures |r| == |registry|
    ensures forall i :: 0 <= i < |r| ==>
      r[i].lessonId == registry[i].id && r[i].lessonNumber == registry[i].number
      && r[i].totalTasks == |GetAllHomeworkTasks(registry[i])|
    ensures forall i :: 0 <= i < |r| && registry[i].number != 1 && registry[i].number != 2 ==>
      r[i].completedTasks == 0
  {
    seq(|registry|, i requires 0 <= i < |registry| =>
      BuildForLesson(registry[i], lesson1Required, lesson2Required, lesson2Advanced))
  }

  /** A mock student's summary as the fixture writes it: the lesson count is
      the constant 10, whatever the registry holds. */
  function MockStudentAsWritten(registry: seq<Lesson>, userId: string, githubNickname: string,
                                displayName: string, lastActivityAt: int,
                                lesson1Required: nat, lesson2Required: nat, lesson2Advanced: nat): (r: StudentProgress)
    ensures r.totalLessons == 10
    ensures r.lessonProgress == BuildAllLessonProgress(registry, lesson1Required, lesson2Required, lesson2Advanced)
    ensures r.userId == userId && r.githubNickname == githubNickname && r.displayName == Some(displayName)
    ensures r.lastActivityAt == Some(lastActivityAt)
    ensures r.completedLessons == CountCompleted(r.lessonProgress)
    ensures r.totalTasks == SumTotalTasks(r.lessonProgress)
    ensures r.completedTasks == SumCompletedTasks(r.lessonProgress)
    ensures r.completionPercentage == Percentage(r.completedTasks, r.totalTasks)
  {
    var lps := BuildAllLessonProgress(registry, lesson1Required, lesson2Required, lesson2Advanced);
    StudentProgress(userId, githubNickname, Some(displayName), 10, CountCompleted(lps),
                    SumTotalTasks(lps), SumCompletedTasks(lps),
                    Percentage(SumCompletedTasks(lps), SumTotalTasks(lps)), lps, Some(lastActivityAt))
  }

  /** A mock student's summary with the lesson count taken from the
      registry, as `calculateStudentProgress` reports it. */
  function MockStudent(registry: seq<Lesson>, userId: string, githubNickname: string,
                       displayName: string, lastActivityAt: int,
                       lesson1Required: nat, lesson2Required: nat, lesson2Advanced: nat): (r: StudentProgress)
    ensures r.totalLessons == |r.lessonProgress| == |registry|
    ensures r.totalTasks == SumTotalTasks(r.lessonProgress)
    ensures r.completedTasks == SumCompletedTasks(r.lessonProgress)
    ensures r.completedLessons <= r.totalLessons
    ensures r.lessonProgress == BuildAllLessonProgress(registry, lesson1Required, lesson2Required, lesson2Advanced)
    ensures r.userId == userId && r.githubNickname == githubNickname && r.displayName == Some(displayName)
    ensures r.lastActivityAt == Some(lastActivityAt)
    ensures r.completedLessons == CountCompleted(r.lessonProgress)
    ensures r.completionPercentage == Percentage(r.completedTasks, r.totalTasks)
  {
    var w := MockStudentAsWritten(registry, userId, githubNickname, displayName, lastActivityAt,
                                  lesson1Required, lesson2Required, lesson2Advanced);
    w.(totalLessons := |registry|)
  }

  /** With the two-lesson registry the fixture's lesson count disagrees with
      the number of records it carries. */
  lemma MockLessonCountMismatch(userId: string, githubNickname: string, displayName: string,
                                lastActivityAt: int, l1: nat, l2: nat, a2: nat)
    ensures var p := MockStudentAsWritten(Lessons, userId, githubNickname, displayName, lastActivityAt, l1, l2, a2);
      p.totalLessons == 10 && |p.lessonProgress| == 2
  {
  }

  /** The records built over the static registry: lesson 1 has 2 required
      tasks and no advanced ones, lesson 2 has 3 required and 2 advanced. */
  lemma StaticBuild(l1: nat, l2: nat, a2: nat)
    ensures BuildAllLessonProgress(Lessons, l1, l2, a2)
         == [BuildLessonProgress("lesson-1", 1, 2, l1, 0, 0), BuildLessonProgress("lesson-2", 2, 3, l2, 2, a2)]
  {
    var r := BuildAllLessonProgress(Lessons, l1, l2, a2);
    assert r[0] == BuildForLesson(Lesson1, l1, l2, a2);
    assert r[1] == BuildForLesson(Lesson2, l1, l2, a2);
    StaticFirst(l1, l2, a2);
    StaticSecond(l1, l2, a2);
    PairOf(r, BuildLessonProgress("lesson-1", 1, 2, l1, 0, 0), BuildLessonProgress("lesson-2", 2, 3, l2, 2, a2));
  }

  lemma PairOf<T>(r: seq<T>, a: T, b: T)
    requires |r| == 2 && r[0] == a && r[1] == b
    ensures r == [a, b]
  {
  }

  lemma StaticFirst(l1: nat, l2: nat, a2: nat)
    ensures BuildForLesson(Lesson1, l1, l2, a2) == BuildLessonProgress("lesson-1", 1, 2, l1, 0, 0)
  {
    StaticTaskCounts();
  }

  lemma StaticSecond(l1: nat, l2: nat, a2: nat)
    ensures BuildForLesson(Lesson2, l1, l2, a2) == BuildLessonProgress("lesson-2", 2, 3, l2, 2, a2)
  {
    StaticTaskCounts();
  }

  /** The sums over the two static records. */
  lemma StaticSums(l1: nat, l2: nat, a2: nat)
    ensures var lps := BuildAllLessonProgress(Lessons, l1, l2, a2);
      SumTotalTasks(lps) == 7 && SumCompletedTasks(lps) == l1 + l2 + a2
      && CountCompleted(lps) == (if l1 == 2 then 1 else 0) + (if l2 + a2 == 5 then 1 else 0)
  {
    StaticBuild(l1, l2, a2);
    TwoRecordSums(BuildAllLessonProgress(Lessons, l1, l2, a2), "lesson-1", "lesson-2", l1, l2, a2);
  }

  /** The sums over a lesson with 2 required tasks followed by one with 3
      required and 2 advanced. */
  lemma TwoRecordSums(lps: seq<LessonProgress>, id1: string, id2: string, l1: nat, l2: nat, a2: nat)
    requires lps == [BuildLessonProgress(id1, 1, 2, l1, 0, 0), BuildLessonProgress(id2, 2, 3, l2, 2, a2)]
    ensures SumTotalTasks(lps) == 7 && SumCompletedTasks(lps) == l1 + l2 + a2
    ensures CountCompleted(lps) == (if l1 == 2 then 1 else 0) + (if l2 + a2 == 5 then 1 else 0)
  {
    var tail := lps[1..];
    assert tail == [lps[1]] && tail[1..] == [];
    assert SumTotalTasks(tail) == lps[1].totalTasks + SumTotalTasks([]);
    assert SumCompletedTasks(tail) == lps[1].completedTasks + SumCompletedTasks([]);
    assert CountCompleted(tail) == (if lps[1].status == Completed then 1 else 0) + CountCompleted([]);
  }

  /** A student whose counts are given by `l1`, `l2` and `a2`: the
      completed and total tasks over the static registry, the rounded
      percentage and the number of finished lessons. */
  predicate MockTotalsAre(l1: nat, l2: nat, a2: nat, done: nat, pct: int, finished: nat) {
    var p := BuildAllLessonProgress(Lessons, l1, l2, a2);
    SumCompletedTasks(p) == done && SumTotalTasks(p) == 7
    && Percentage(SumCompletedTasks(p), SumTotalTasks(p)) == pct && CountCompleted(p) == finished
  }

  /** The totals over the static registry for any counts, given the
      rounded percentage of their sum. */
  lemma StaticTotals(l1: nat, l2: nat, a2: nat, done: nat, pct: int, finished: nat)
    requires done == l1 + l2 + a2 && Percentage(done, 7) == pct
    requires finished == (if l1 == 2 then 1 else 0) + (if l2 + a2 == 5 then 1 else 0)
    ensures MockTotalsAre(l1, l2, a2, done, pct, finished)
  {
    StaticSums(l1, l2, a2);
  }

  /** Alice: 5 of 7 tasks, 71%, lesson 1 finished. */
  lemma AliceTotals(l1: nat, l2: nat, a2: nat)
    requires l1 == 2 && l2 == 2 && a2 == 1
    ensures MockTotalsAre(l1, l2, a2, 5, 71, 1)
  {
    assert Percentage(5, 7) == 71;
    StaticTotals(l1, l2, a2, 5, 71, 1);
  }

  /** Bob: 3 of 7 tasks, 43%, lesson 1 finished. */
  lemma BobTotals(l1: nat, l2: nat, a2: nat)
    requires l1 == 2 && l2 == 1 && a2 == 0
    ensures MockTotalsAre(l1, l2, a2, 3, 43, 1)
  {
    assert Percentage(3, 7) == 43;
    StaticTotals(l1, l2, a2, 3, 43, 1);
  }

  /** Carol: 6 of 7 tasks, 86%, lesson 1 finished. */
  lemma CarolTotals(l1: nat, l2: nat, a2: nat)
    requires l1 == 2 && l2 == 3 && a2 == 1
    ensures MockTotalsAre(l1, l2, a2, 6, 86, 1)
  {
    assert Percentage(6, 7) == 86;
    StaticTotals(l1, l2, a2, 6, 86, 1);
  }

  /** Dave: 1 of 7 tasks, 14%, no lesson finished. */
  lemma DaveTotals(l1: nat, l2: nat, a2: nat)
    requires l1 == 1 && l2 == 0 && a2 == 0
    ensures MockTotalsAre(l1, l2, a2, 1, 14, 0)
  {
    assert Percentage(1, 7) == 14;
    StaticTotals(l1, l2, a2, 1, 14, 0);
  }
}

/** The static lesson registry and the lookups over it: find by slug, by
    number or by id, the published lessons, and the flattened task list of a
    lesson. */
module Constants {
  import opened Wrappers
  import opened Types

  const AdminGithubNickname: string := "ivanbunin"

  const Lesson1: Lesson := Lesson(
    "lesson-1", "git-intro", 1,
    "Introduction to Collaborative Development",
    "Installing tools, Git basics",
    Html, "lesson1-git_intro.html", true, 1,
    [HomeworkSection("hw-1-required", Required, [Task11, Task12])])

  const Task11: HomeworkTask :=
    HomeworkTask("task-1-1", "lesson-1", "Install Cursor and Git", Required, Screenshot, 1, None, None)
  const Task12: HomeworkTask :=
    HomeworkTask("task-1-2", "lesson-1", "Clone the course repository", Required, Screenshot, 2, None, None)

  const Lesson2: Lesson := Lesson(
    "lesson-2", "architecture", 2,
    "Architecture, Servers & Git Flow",
    "How Fohlio works, staging servers, advanced Git",
    Html, "lesson2-architecture.html", true, 2,
    [ HomeworkSection("hw-2-required", Required, [Task21, Task22, Task23]),
      HomeworkSection("hw-2-advanced", Advanced, [Task24, Task25])])

  const Task21: HomeworkTask :=
    HomeworkTask("task-2-1", "lesson-2", "Add your totem to totems.txt", Required, PrLink, 1, None, None)
  const Task22: HomeworkTask :=
    HomeworkTask("task-2-2", "lesson-2", "Resolve the merge conflict", Required, PrLink, 2, None, None)
  const Task23: HomeworkTask :=
    HomeworkTask("task-2-3", "lesson-2", "Set up the frontend locally", Required, Screenshot, 3, None, None)
  const Task24: HomeworkTask :=
    HomeworkTask("task-2-4", "lesson-2", "Explore the codebase", Advanced, Checklist, 1, None,
                 Some(["Where is the login page?",
                       "Where are the GraphQL queries?",
                       "What does make s actually do?"]))
  const Task25: HomeworkTask :=
    HomeworkTask("task-2-5", "lesson-2", "Quiz: answer these questions", Advanced, Quiz, 2,
                 Some(["What language does the backend use?",
                       "What does Redis do? Name 2 use cases.",
                       "What's the difference between test01 and uat01?",
                       "Why do branch names start with a Jira ticket number?"]),
                 None)

  /** The registry, in course order. */
  const Lessons: seq<Lesson> := [Lesson1, Lesson2]

  /** What a registry lookup compares a lesson against. */
  datatype LessonKey = ById(id: string) | BySlug(slug: string) | ByNumber(number: int)

  predicate HasKey(l: Lesson, key: LessonKey) {
    match key
    case ById(id) => l.id == id
    case BySlug(slug) => l.slug == slug
    case ByNumber(n) => l.number == n
  }

  /** `registry.findIndex(...)`: the first position holding a lesson with the
      key, or -1 when there is none. */
  function IndexOfLesson(registry: seq<Lesson>, key: LessonKey): (r: int)
    ensures -1 <= r < |registry|
    ensures r == -1 <==> forall i :: 0 <= i < |registry| ==> !HasKey(registry[i], key)
    ensures r != -1 ==> HasKey(registry[r], key)
    ensures r != -1 ==> forall i :: 0 <= i < r ==> !HasKey(registry[i], key)
  {
    if |registry| == 0 then -1
    else if HasKey(registry[0], key) then 0
    else
      var r := IndexOfLesson(registry[1..], key);
      if r == -1 then -1 else r + 1
  }

  /** `registry.find(...)`: the first lesson with the key. */
  function FindLesson(registry: seq<Lesson>, key: LessonKey): (r: Option<Lesson>)
    ensures r.None? <==> forall l :: l in registry ==> !HasKey(l, key)
    ensures r.Some? ==> exists i :: 0 <= i < |registry| && registry[i] == r.value
                          && HasKey(registry[i], key)
                          && forall j :: 0 <= j < i ==> !HasKey(registry[j], key)
  {
    var i := IndexOfLesson(registry, key);
    if i == -1 then None else Some(registry[i])
  }

  /** `getLessonBySlug`: the first registered lesson with the slug, and
      nothing exactly when no lesson has it. */
  function GetLessonBySlug(slug: string): (r: Option<Lesson>)
    ensures r.None? <==> forall l :: l in Lessons ==> l.slug != slug
    ensures r.Some? ==> exists i :: 0 <= i < |Lessons| && Lessons[i] == r.value
                          && r.value.slug == slug
                          && forall j :: 0 <= j < i ==> Lessons[j].slug != slug
  {
    FindLesson(Lessons, BySlug(slug))
  }

  /** `getLessonByNumber`: the first registered lesson with the number, and
      nothing exactly when no lesson has it. */
  function GetLessonByNumber(num: int): (r: Option<Lesson>)
    ensures r.None? <==> forall l :: l in Lessons ==> l.number != num
    ensures r.Some? ==> exists i :: 0 <= i < |Lessons| && Lessons[i] == r.value
                          && r.value.number == num
                          && forall j :: 0 <= j < i ==> Lessons[j].number != num
  {
    FindLesson(Lessons, ByNumber(num))
  }

  /** `lessons.filter((l) => l.isPublished)`. */
  function Published(lessons: seq<Lesson>): (r: seq<Lesson>)
    ensures |r| <= |lessons|
    ensures forall l :: l in r <==> l in lessons && l.isPublished
  {
    if |lessons| == 0 then []
    else
      var rest := Published(lessons[1..]);
      assert forall l :: l in lessons <==> l == lessons[0] || l in lessons[1..];
      if lessons[0].isPublished then [lessons[0]] + rest else rest
  }

  /** The filter keeps the registry order: it distributes over concatenation. */
  lemma {:induction false} PublishedDistributes(a: seq<Lesson>, b: seq<Lesson>)
    ensures Published(a + b) == Published(a) + Published(b)
  {
    if |a| == 0 {
      assert a + b == b;
    } else {
      assert (a + b)[0] == a[0];
      assert (a + b)[1..] == a[1..] + b;
      PublishedDistributes(a[1..], b);
      if a[0].isPublished {
        assert Published(a + b) == [a[0]] + Published(a[1..] + b);
        assert Published(a) == [a[0]] + Published(a[1..]);
      } else {
        assert Published(a + b) == Published(a[1..] + b);
        assert Published(a) == Published(a[1..]);
      }
    }
  }

  /** `getPublishedLessons`: every published registered lesson, in order. */
  function GetPublishedLessons(): (r: seq<Lesson>)
    ensures forall l :: l in r <==> l in Lessons && l.isPublished
  {
    Published(Lessons)
  }

  /** The number of tasks summed section by section. */
  function SectionSizes(sections: seq<HomeworkSection>): nat {
    if |sections| == 0 then 0 else |sections[0].tasks| + SectionSizes(sections[1..])
  }

  /** `homework.flatMap((section) => section.tasks)`: every section's tasks,
      section after section. */
  function TasksOf(sections: seq<HomeworkSection>): (r: seq<HomeworkTask>)
    ensures |r| == SectionSizes(sections)
    ensures forall t :: t in r <==> exists i :: 0 <= i < |sections| && t in sections[i].tasks
  {
    if |sections| == 0 then []
    else
      var rest := TasksOf(sections[1..]);
      assert forall i :: 1 <= i < |sections| ==> sections[i] == sections[1..][i - 1];
      sections[0].tasks + rest
  }

  /** The flattening keeps section order: it distributes over concatenation. */
  lemma {:induction false} TasksOfDistributes(a: seq<HomeworkSection>, b: seq<HomeworkSection>)
    ensures TasksOf(a + b) == TasksOf(a) + TasksOf(b)
  {
    if |a| == 0 {
      assert a + b == b;
    } else {
      assert (a + b)[0] == a[0];
      assert (a + b)[1..] == a[1..] + b;
      TasksOfDistributes(a[1..], b);
    }
  }

  /** `getAllHomeworkTasks`: every task of every section of the lesson, as
      many as the sections hold together. */
  function GetAllHomeworkTasks(lesson: Lesson): (r: seq<HomeworkTask>)
    ensures |r| == SectionSizes(lesson.homework)
    ensures forall t :: t in r <==> exists i :: 0 <= i < |lesson.homework| && t in lesson.homework[i].tasks
  {
    TasksOf(lesson.homework)
  }

  /** `tasks.filter((t) => t.category === c)`. */
  function OfCategory(tasks: seq<HomeworkTask>, c: HomeworkCategory): (r: seq<HomeworkTask>)
    ensures |r| <= |tasks|
    ensures forall t :: t in r <==> t in tasks && t.category == c
  {
    if |tasks| == 0 then []
    else
      var rest := OfCategory(tasks[1..], c);
      assert forall t :: t in tasks <==> t == tasks[0] || t in tasks[1..];
      if tasks[0].category == c then [tasks[0]] + rest else rest
  }

  /** The filter distributes over concatenation. */
  lemma {:induction false} OfCategoryDistributes(a: seq<HomeworkTask>, b: seq<HomeworkTask>, c: HomeworkCategory)
    ensures OfCategory(a + b, c) == OfCategory(a, c) + OfCategory(b, c)
  {
    if |a| == 0 {
      assert a + b == b;
    } else {
      assert (a + b)[0] == a[0];
      assert (a + b)[1..] == a[1..] + b;
      OfCategoryDistributes(a[1..], b, c);
    }
  }

  /** Filtering a list of tasks that all share one category keeps all of
      them or none. */
  lemma {:induction false} OfCategoryUniform(tasks: seq<HomeworkTask>, c: HomeworkCategory, d: HomeworkCategory)
    requires forall i :: 0 <= i < |tasks| ==> tasks[i].category == c
    ensures OfCategory(tasks, d) == if c == d then tasks else []
  {
    if |tasks| > 0 {
      OfCategoryUniform(tasks[1..], c, d);
      assert tasks == [tasks[0]] + tasks[1..];
    }
  }

  /** A category split: the two category filters together account for every
      task exactly once. */
  lemma {:induction false} CategoriesPartition(tasks: seq<HomeworkTask>)
    ensures |OfCategory(tasks, Required)| + |OfCategory(tasks, Advanced)| == |tasks|
  {
    if |tasks| > 0 {
      CategoriesPartition(tasks[1..]);
    }
  }

  /** Every task of the lesson belongs to its section's category and to the
      lesson itself. */
  predicate LessonTasksMatch(l: Lesson) {
    forall i, j :: 0 <= i < |l.homework| && 0 <= j < |l.homework[i].tasks| ==>
      l.homework[i].tasks[j].category == l.homework[i].category
      && l.homework[i].tasks[j].lessonId == l.id
  }

  predicate TasksMatchSections(registry: seq<Lesson>) {
    forall k :: 0 <= k < |registry| ==> LessonTasksMatch(registry[k])
  }

  /** All tasks of all lessons, lesson after lesson. */
  function RegistryTasks(registry: seq<Lesson>): seq<HomeworkTask> {
    if |registry| == 0 then [] else TasksOf(registry[0].homework) + RegistryTasks(registry[1..])
  }

  /** No two tasks of the list share an id. */
  predicate DistinctIds(tasks: seq<HomeworkTask>) {
    forall i, j :: 0 <= i < j < |tasks| ==> tasks[i].id != tasks[j].id
  }

  predicate DistinctTaskIds(registry: seq<Lesson>) {
    DistinctIds(RegistryTasks(registry))
  }

  /** Two lists without repeated ids, with no id in common, make one. */
  lemma DistinctIdsConcat(a: seq<HomeworkTask>, b: seq<HomeworkTask>)
    requires DistinctIds(a) && DistinctIds(b)
    requires forall i, j :: 0 <= i < |a| && 0 <= j < |b| ==> a[i].id != b[j].id
    ensures DistinctIds(a + b)
  {
    var ab := a + b;
    forall i, j | 0 <= i < j < |ab|
      ensures ab[i].id != ab[j].id
    {
      if j < |a| {
        assert ab[i] == a[i] && ab[j] == a[j];
      } else if i < |a| {
        assert ab[i] == a[i] && ab[j] == b[j - |a|];
      } else {
        assert ab[i] == b[i - |a|] && ab[j] == b[j - |a|];
      }
    }
  }

  /** No two lessons of the registry share an id. */
  predicate DistinctLessonIds(registry: seq<Lesson>) {
    forall i, j :: 0 <= i < j < |registry| ==> registry[i].id != registry[j].id
  }

  /** No two lessons of the registry share an id, a slug or a number. */
  predicate DistinctLessonKeys(registry: seq<Lesson>) {
    forall i, j :: 0 <= i < j < |registry| ==>
      registry[i].id != registry[j].id && registry[i].slug != registry[j].slug
      && registry[i].number != registry[j].number
  }

  /** In the static registry every task's category is its section's and
      every task's lesson id is its lesson's. */
  lemma StaticTasksMatchSections()
    ensures TasksMatchSections(Lessons)
  {
    assert LessonTasksMatch(Lesson1);
    assert LessonTasksMatch(Lesson2);
  }

  /** Task ids are unique across the static registry. */
  lemma StaticTaskIdsDistinct()
    ensures DistinctTaskIds(Lessons)
  {
    StaticTaskList();
    Lesson1Ids();
    Lesson2Ids();
    var t1 := GetAllHomeworkTasks(Lesson1);
    var t2 := GetAllHomeworkTasks(Lesson2);
    forall i, j | 0 <= i < |t1| && 0 <= j < |t2|
      ensures t1[i].id != t2[j].id
    {
      assert t1[i].id[5] != t2[j].id[5];
    }
    DistinctIdsConcat(t1, t2);
  }

  /** Lesson 1's task ids: `task-1-N`, told apart by their last character. */
  lemma Lesson1Ids()
    ensures var t := GetAllHomeworkTasks(Lesson1);
      DistinctIds(t) && forall i :: 0 <= i < |t| ==> |t[i].id| == 8 && t[i].id[5] == '1'
  {
    StaticTaskList();
    var t := GetAllHomeworkTasks(Lesson1);
    assert t[0].id[7] != t[1].id[7];
  }

  /** Lesson 2's task ids: `task-2-N`, told apart by their last character. */
  lemma Lesson2Ids()
    ensures var t := GetAllHomeworkTasks(Lesson2);
      DistinctIds(t) && forall i :: 0 <= i < |t| ==> |t[i].id| == 8 && t[i].id[5] == '2'
  {
    var t := GetAllHomeworkTasks(Lesson2);
    Lesson2TaskList();
    assert forall i :: 0 <= i < 5 ==> |t[i].id| == 8 && t[i].id[5] == '2' && t[i].id[7] == "12345"[i];
    DistinctByLastChar(t, "12345");
  }

  /** Lesson 2's tasks in section order. */
  lemma Lesson2TaskList()
    ensures GetAllHomeworkTasks(Lesson2) == [Task21, Task22, Task23, Task24, Task25]
  {
    StaticTaskList();
  }

  /** Ids whose last characters are pairwise different are distinct. */
  lemma DistinctByLastChar(t: seq<HomeworkTask>, lasts: string)
    requires |t| == |lasts| && forall i, j :: 0 <= i < j < |lasts| ==> lasts[i] != lasts[j]
    requires forall i :: 0 <= i < |t| ==> |t[i].id| > 0 && t[i].id[|t[i].id| - 1] == lasts[i]
    ensures DistinctIds(t)
  {
  }

  /** Lesson ids, slugs and numbers are unique in the static registry. */
  lemma StaticLessonKeysDistinct()
    ensures DistinctLessonKeys(Lessons)
    ensures DistinctLessonIds(Lessons)
  {
    assert Lesson1.id[7] != Lesson2.id[7];
    assert Lesson1.slug[0] != Lesson2.slug[0];
  }

  /** The flattened task lists of the static registry. */
  lemma StaticTaskList()
    ensures GetAllHomeworkTasks(Lesson1) == Lesson1.homework[0].tasks
    ensures GetAllHomeworkTasks(Lesson2) == Lesson2.homework[0].tasks + Lesson2.homework[1].tasks
    ensures RegistryTasks(Lessons) == GetAllHomeworkTasks(Lesson1) + GetAllHomeworkTasks(Lesson2)
  {
    assert Lesson1.homework[1..] == [];
    assert TasksOf(Lesson1.homework) == Lesson1.homework[0].tasks + TasksOf([]);
    var h := Lesson2.homework;
    assert h[1..][1..] == [];
    assert TasksOf(h[1..]) == h[1].tasks + TasksOf([]);
    assert Lessons[1..] == [Lesson2] && Lessons[1..][1..] == [];
    assert RegistryTasks(Lessons[1..]) == TasksOf(h) + RegistryTasks([]);
  }

  /** The static task counts: lesson 1 has 2 required and no advanced
      tasks, lesson 2 has 3 required and 2 advanced, 7 in all. */
  lemma StaticTaskCounts()
    ensures |OfCategory(GetAllHomeworkTasks(Lesson1), Required)| == 2
    ensures |OfCategory(GetAllHomeworkTasks(Lesson1), Advanced)| == 0
    ensures |OfCategory(GetAllHomeworkTasks(Lesson2), Required)| == 3
    ensures |OfCategory(GetAllHomeworkTasks(Lesson2), Advanced)| == 2
    ensures |RegistryTasks(Lessons)| == 7
  {
    StaticTaskList();
    Lesson1Counts();
    Lesson2Counts();
  }

  lemma Lesson1Counts()
    ensures |OfCategory(GetAllHomeworkTasks(Lesson1), Required)| == 2
    ensures |OfCategory(GetAllHomeworkTasks(Lesson1), Advanced)| == 0
  {
    StaticTaskList();
    var r := Lesson1.homework[0].tasks;
    assert forall i :: 0 <= i < |r| ==> r[i].category == Required;
    OfCategoryUniform(r, Required, Required);
    OfCategoryUniform(r, Required, Advanced);
  }

  lemma Lesson2Counts()
    ensures |OfCategory(GetAllHomeworkTasks(Lesson2), Required)| == 3
    ensures |OfCategory(GetAllHomeworkTasks(Lesson2), Advanced)| == 2
  {
    StaticTaskList();
    var r := Lesson2.homework[0].tasks;
    var a := Lesson2.homework[1].tasks;
    assert forall i :: 0 <= i < |r| ==> r[i].category == Required;
    assert forall i :: 0 <= i < |a| ==> a[i].category == Advanced;
    OfCategoryUniform(r, Required, Required);
    OfCategoryUniform(r, Required, Advanced);
    OfCategoryUniform(a, Advanced, Required);
    OfCategoryUniform(a, Advanced, Advanced);
    OfCategoryDistributes(r, a, Required);
    OfCategoryDistributes(r, a, Advanced);
  }
}

/** The records of the course platform that the modelled logic reads and
    produces: the static lesson registry, submission rows, submission
    contents, and the derived per-lesson and per-student progress. */
module Types {
  import opened Wrappers

  datatype UserRole = Student | Admin

  datatype HomeworkCategory = Required | Advanced

  datatype SubmissionType = PrLink | Screenshot | Text | Quiz | Checklist

  datatype LessonContentType = Html | Pdf | Markdown

  /** One homework task; `quizQuestions` and `checklistItems` are the optional
      fields of the record, present only on quiz and checklist tasks. */
  datatype HomeworkTask = HomeworkTask(
    id: string,
    lessonId: string,
    title: string,
    category: HomeworkCategory,
    submissionType: SubmissionType,
    order: int,
    quizQuestions: Option<seq<string>>,
    checklistItems: Option<seq<string>>)

  datatype HomeworkSection = HomeworkSection(
    id: string,
    category: HomeworkCategory,
    tasks: seq<HomeworkTask>)

  /** A lesson of the static registry (prose fields other than the titles
      are not carried). */
  datatype Lesson = Lesson(
    id: string,
    slug: string,
    number: int,
    title: string,
    subtitle: string,
    contentType: LessonContentType,
    contentFile: string,
    isPublished: bool,
    order: int,
    homework: seq<HomeworkSection>)

  /** The submission columns progress is computed from; `status` is the raw
      database string and `updatedAt` a timestamp. */
  datatype SubmissionRow = SubmissionRow(
    taskId: string,
    lessonId: string,
    status: string,
    updatedAt: int)

  datatype LessonStatus = NotStarted | InProgress | Completed

  datatype LessonProgress = LessonProgress(
    lessonId: string,
    lessonNumber: int,
    totalTasks: nat,
    completedTasks: nat,
    requiredTotal: nat,
    requiredCompleted: nat,
    advancedTotal: nat,
    advancedCompleted: nat,
    status: LessonStatus)

  datatype StudentProgress = StudentProgress(
    userId: string,
    githubNickname: string,
    displayName: Option<string>,
    totalLessons: nat,
    completedLessons: nat,
    totalTasks: nat,
    completedTasks: nat,
    completionPercentage: int,
    lessonProgress: seq<LessonProgress>,
    lastActivityAt: Option<int>)

  datatype ScreenshotContent = ScreenshotContent(fileUrl: string, fileName: string)

  datatype QuizAnswer = QuizAnswer(questionIndex: int, question: string, answer: string)

  datatype QuizContent = QuizContent(answers: seq<QuizAnswer>)

  /** A checklist entry; `label` is a Dafny keyword, hence `itemLabel`. */
  datatype ChecklistItemData = ChecklistItemData(itemLabel: string, checked: bool)

  datatype ChecklistContent = ChecklistContent(items: seq<ChecklistItemData>)
}

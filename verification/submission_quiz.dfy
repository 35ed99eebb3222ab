/** The quiz answer form (`SubmissionQuiz.tsx`): reading the answer shown
    for a question and rebuilding the quiz content when one answer is
    edited. */
module SubmissionQuiz {
  import opened Wrappers
  import opened Types

  /** The position of the first stored answer for question `index`, or -1. */
  function FirstAnswerAt(answers: seq<QuizAnswer>, index: int): (r: int)
    ensures -1 <= r < |answers|
    ensures r == -1 <==> forall j :: 0 <= j < |answers| ==> answers[j].questionIndex != index
    ensures r != -1 ==> answers[r].questionIndex == index
    ensures r != -1 ==> forall j :: 0 <= j < r ==> answers[j].questionIndex != index
  {
    if |answers| == 0 then -1
    else if answers[0].questionIndex == index then 0
    else
      var r := FirstAnswerAt(answers[1..], index);
      if r == -1 then -1 else r + 1
  }

  /** Entry `j` is the first stored answer for question `index`. */
  predicate IsFirstAnswer(answers: seq<QuizAnswer>, index: int, j: int) {
    0 <= j < |answers| && answers[j].questionIndex == index
    && forall k :: 0 <= k < j ==> answers[k].questionIndex != index
  }

  /** `getAnswer`: the answer of the first stored entry for question
      `index`, or `""` when there is no content or no such entry. */
  function GetAnswer(value: Option<QuizContent>, index: int): (r: string)
    ensures value.None? ==> r == ""
    ensures value.Some? && (forall j :: 0 <= j < |value.value.answers| ==>
                                          value.value.answers[j].questionIndex != index)
            ==> r == ""
    ensures value.Some? ==>
              forall j :: IsFirstAnswer(value.value.answers, index, j) ==> r == value.value.answers[j].answer
  {
    match value
    case None => ""
    case Some(content) =>
      var j := FirstAnswerAt(content.answers, index);
      if j == -1 then "" else content.answers[j].answer
  }

  /** `updateAnswer`: one entry per question, in order, each carrying its
      position and its question; the edited one carries the new answer and
      every other one the answer shown before. */
  function UpdateAnswer(questions: seq<string>, value: Option<QuizContent>, index: int, answer: string)
    : (r: QuizContent)
    ensures |r.answers| == |questions|
    ensures forall i :: 0 <= i < |questions| ==>
      r.answers[i].questionIndex == i && r.answers[i].question == questions[i]
    ensures 0 <= index < |questions| ==> r.answers[index].answer == answer
    ensures forall i :: 0 <= i < |questions| && i != index ==> r.answers[i].answer == GetAnswer(value, i)
  {
    QuizContent(seq(|questions|, i requires 0 <= i < |questions| =>
      QuizAnswer(i, questions[i], if i == index then answer else GetAnswer(value, i))))
  }

  /** Reading back after an edit: the edited question shows the new answer,
      every other question what it showed before, and a position past the
      questions shows nothing. */
  lemma {:induction false} UpdateThenGet(questions: seq<string>, value: Option<QuizContent>, index: int,
                                         answer: string, i: int)
    ensures var after := Some(UpdateAnswer(questions, value, index, answer));
      GetAnswer(after, i) == if 0 <= i < |questions| then (if i == index then answer else GetAnswer(value, i)) else ""
  {
    var c := UpdateAnswer(questions, value, index, answer);
    if 0 <= i < |questions| {
      assert forall k :: 0 <= k < i ==> c.answers[k].questionIndex != i;
    } else {
      assert forall j :: 0 <= j < |c.answers| ==> c.answers[j].questionIndex != i;
    }
  }

  /** Making the same edit twice gives the content of making it once. */
  lemma UpdateIdempotent(questions: seq<string>, value: Option<QuizContent>, index: int, answer: string)
    ensures var once := UpdateAnswer(questions, value, index, answer);
      UpdateAnswer(questions, Some(once), index, answer) == once
  {
    var once := UpdateAnswer(questions, value, index, answer);
    var twice := UpdateAnswer(questions, Some(once), index, answer);
    forall i | 0 <= i < |questions|
      ensures twice.answers[i] == once.answers[i]
    {
      UpdateThenGet(questions, value, index, answer, i);
    }
  }
}

/** The previous/next links under a lesson (`LessonNav.tsx`): the current
    lesson is looked up by id in the registry and its neighbours there are
    linked. */
module LessonNav {
  import opened Wrappers
  import opened Types
  import opened Constants

  /** The lessons linked before and after the current one. */
  datatype Neighbours = Neighbours(prev: Option<Lesson>, next: Option<Lesson>)

  /** Position `i` holds the first lesson with id `id`. */
  predicate FirstWithId(registry: seq<Lesson>, id: string, i: int) {
    0 <= i < |registry| && registry[i].id == id
    && forall k :: 0 <= k < i ==> registry[k].id != id
  }

  /** `LessonNav`'s choice of links: the lessons on either side of the
      current lesson's position. A lesson the registry lacks sits at
      position -1, so it gets no previous link and the first lesson as its
      next one. */
  function Nav(registry: seq<Lesson>, current: Lesson): (r: Neighbours)
    ensures forall i :: FirstWithId(registry, current.id, i) ==>
      r.prev == (if i > 0 then Some(registry[i - 1]) else None)
      && r.next == (if i + 1 < |registry| then Some(registry[i + 1]) else None)
    ensures (forall i :: 0 <= i < |registry| ==> registry[i].id != current.id) ==>
      r.prev == None && r.next == (if |registry| > 0 then Some(registry[0]) else None)
  {
    var i := IndexOfLesson(registry, ById(current.id));
    var prev := if i > 0 then Some(registry[i - 1]) else None;
    var next := if i < |registry| - 1 then Some(registry[i + 1]) else None;
    Neighbours(prev, next)
  }

  /** With distinct ids the links of the lesson at position `i` are its
      neighbours there. */
  lemma NavOfRegistered(registry: seq<Lesson>, i: int)
    requires DistinctLessonIds(registry) && 0 <= i < |registry|
    ensures Nav(registry, registry[i]).prev == (if i > 0 then Some(registry[i - 1]) else None)
    ensures Nav(registry, registry[i]).next == (if i + 1 < |registry| then Some(registry[i + 1]) else None)
  {
    assert FirstWithId(registry, registry[i].id, i);
  }

  /** Following a next link and then the previous link comes back. */
  lemma NextThenPrev(registry: seq<Lesson>, current: Lesson)
    requires DistinctLessonIds(registry)
    requires Nav(registry, current).next.Some?
    requires exists i :: 0 <= i < |registry| && registry[i] == current
    ensures Nav(registry, Nav(registry, current).next.value).prev == Some(current)
  {
    var i :| 0 <= i < |registry| && registry[i] == current;
    NavOfRegistered(registry, i);
    NavOfRegistered(registry, i + 1);
  }

  /** The first lesson has no previous link and the last no next link. */
  lemma EndsHaveOneLink(registry: seq<Lesson>)
    requires DistinctLessonIds(registry) && |registry| > 0
    ensures Nav(registry, registry[0]).prev == None
    ensures Nav(registry, registry[|registry| - 1]).next == None
  {
    NavOfRegistered(registry, 0);
    NavOfRegistered(registry, |registry| - 1);
  }

  /** The links of the static registry: lesson 1 links forward to lesson 2,
      which links back. */
  lemma StaticNav()
    ensures Nav(Lessons, Lessons[0]) == Neighbours(None, Some(Lessons[1]))
    ensures Nav(Lessons, Lessons[1]) == Neighbours(Some(Lessons[0]), None)
  {
    StaticLessonKeysDistinct();
    NavOfRegistered(Lessons, 0);
    NavOfRegistered(Lessons, 1);
  }
}

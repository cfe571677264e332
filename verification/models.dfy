/** The slice of `Model` the note commands use: the lesson and student
    collections, each with the filtered view through which commands address
    entries by displayed index. A view is held as the ascending positions of
    the entries it shows, which is what a filtered projection of a list is. */
module Models {
  import Students
  import Lessons

  /** `view` shows entries of a list of length `size`, each once, in list order. */
  predicate IsView(view: seq<nat>, size: nat)
  {
    && (forall i :: 0 <= i < |view| ==> view[i] < size)
    && (forall i, j :: 0 <= i < j < |view| ==> view[i] < view[j])
  }

  datatype Model = Model(
    lessons: seq<Lessons.Lesson>,
    lessonView: seq<nat>,
    students: seq<Students.Student>,
    studentView: seq<nat>)
  {
    predicate Valid()
    {
      IsView(lessonView, |lessons|) && IsView(studentView, |students|)
    }
  }

  /** `getFilteredLessonList`. */
  function FilteredLessons(m: Model): (shown: seq<Lessons.Lesson>)
    requires m.Valid()
    ensures |shown| == |m.lessonView|
    ensures forall i :: 0 <= i < |shown| ==> shown[i] == m.lessons[m.lessonView[i]]
  {
    seq(|m.lessonView|, i requires 0 <= i < |m.lessonView| => m.lessons[m.lessonView[i]])
  }

  /** `getFilteredStudentList`. */
  function FilteredStudents(m: Model): (shown: seq<Students.Student>)
    requires m.Valid()
    ensures |shown| == |m.studentView|
    ensures forall i :: 0 <= i < |shown| ==> shown[i] == m.students[m.studentView[i]]
  {
    seq(|m.studentView|, i requires 0 <= i < |m.studentView| => m.students[m.studentView[i]])
  }

  /** The view of the show-all predicate. */
  function ShowAll(size: nat): (view: seq<nat>)
    ensures IsView(view, size) && |view| == size
    ensures forall i :: 0 <= i < size ==> view[i] == i
  {
    seq(size, i requires 0 <= i < size => i)
  }

  /** `updateFilteredLessonList(PREDICATE_SHOW_ALL_LESSONS)`: the lesson view
      shows every lesson again; nothing else changes. */
  function ShowAllLessons(m: Model): (r: Model)
    requires m.Valid()
    ensures r.Valid()
    ensures FilteredLessons(r) == r.lessons == m.lessons
    ensures r.students == m.students && r.studentView == m.studentView
  {
    m.(lessonView := ShowAll(|m.lessons|))
  }

  /** `setLesson`: the lesson at backing position `at` becomes `edited`;
      every other lesson, both views and the students are unchanged. */
  function SetLesson(m: Model, at: nat, edited: Lessons.Lesson): (r: Model)
    requires m.Valid() && at < |m.lessons|
    ensures r.Valid()
    ensures |r.lessons| == |m.lessons| && r.lessons[at] == edited
    ensures forall j :: 0 <= j < |m.lessons| && j != at ==> r.lessons[j] == m.lessons[j]
    ensures r.lessonView == m.lessonView && r.students == m.students && r.studentView == m.studentView
  {
    m.(lessons := m.lessons[at := edited])
  }
}

/** `AddNoteCommand`: adds a note to the lesson at a displayed lesson index,
    either as a general note or, when a displayed student index is given, as
    a note for that student. Indices are zero-based positions in the filtered
    lists. All validation happens before anything changes, so a failing
    execution hands back the model it was given. */
module AddNoteCommands {
  import opened Outcomes
  import Students
  import Notes
  import Lessons
  import Models
  import Messages

  /** The constructor demands a lesson index and a note; the student index is
      optional (`null` in Java). */
  datatype AddNoteCommand = AddNoteCommand(lessonIndex: nat, studentIndex: Option<nat>, note: string)

  /** A `CommandException` with its message, or an exception the command does
      not catch, coming out of the lesson's notes. */
  datatype CommandError = CommandException(message: string) | Uncaught(cause: Notes.NotesError)

  /** The model after `execute`, and its result message or failure. */
  datatype Execution = Execution(model: Models.Model, outcome: Result<string, CommandError>)

  /** `MESSAGE_ADD_OVERALL_NOTE_SUCCESS`: `"Noted for lesson %1$s: %2$s"`. */
  function OverallMessage(lesson: Lessons.Lesson, note: string): string
  {
    "Noted for lesson " + Lessons.Display(lesson) + ": " + note
  }

  /** `MESSAGE_ADD_STUDENT_NOTE_SUCCESS`: `"Noted for %1$s in lesson %2$s: %3$s"`. */
  function StudentMessage(student: Students.Student, lesson: Lessons.Lesson, note: string): string
  {
    "Noted for " + Students.ToString(student) + " in lesson " + Lessons.Display(lesson) + ": " + note
  }

  /** Writes the changed lesson back and resets the lesson filter to show all. */
  function Commit(m: Models.Model, at: nat, edited: Lessons.Lesson): (r: Models.Model)
    requires m.Valid() && at < |m.lessons|
    ensures r.Valid()
  {
    Models.ShowAllLessons(Models.SetLesson(m, at, edited))
  }

  /** `execute(model)`.
      - A lesson index past the filtered lesson list fails with the lesson
        message whatever the student index is: the lesson is checked first.
      - A student index past the filtered student list fails with the student
        message.
      - A student whose NAME has no note list in the lesson makes the notes
        throw `StudentNotFoundException`, which `execute` does not catch.
      - Every failure leaves the model as it was.
      - On success exactly the lesson shown at the lesson index gains the
        note, every other lesson is unchanged, the students are unchanged,
        and the lesson list shows all lessons again. */
  function Execute(c: AddNoteCommand, m: Models.Model): (r: Execution)
    requires m.Valid()
    ensures r.model.Valid()
    ensures r.outcome.Err? ==> r.model == m
    ensures c.lessonIndex >= |m.lessonView| ==>
      r.outcome == Err(CommandException(Messages.MESSAGE_INVALID_LESSON_DISPLAYED_INDEX))
    ensures c.lessonIndex < |m.lessonView| && c.studentIndex.Some? && c.studentIndex.value >= |m.studentView| ==>
      r.outcome == Err(CommandException(Messages.MESSAGE_INVALID_STUDENT_DISPLAYED_INDEX))
    ensures r.outcome.Ok? ==>
      && c.lessonIndex < |m.lessonView|
      && Models.FilteredLessons(r.model) == r.model.lessons
      && r.model.students == m.students && r.model.studentView == m.studentView
      && |r.model.lessons| == |m.lessons|
      && forall j :: 0 <= j < |m.lessons| && j != m.lessonView[c.lessonIndex] ==> r.model.lessons[j] == m.lessons[j]
    ensures c.lessonIndex < |m.lessonView| && c.studentIndex.None? ==>
      var lesson := Models.FilteredLessons(m)[c.lessonIndex];
      var after := r.model.lessons[m.lessonView[c.lessonIndex]];
      && r.outcome == Ok(OverallMessage(lesson, c.note))
      && after.notes.general == lesson.notes.general + [c.note]
      && after.notes.byStudent == lesson.notes.byStudent
      && after.(notes := lesson.notes) == lesson
    ensures c.lessonIndex < |m.lessonView| && c.studentIndex.Some? && c.studentIndex.value < |m.studentView| ==>
      var lesson := Models.FilteredLessons(m)[c.lessonIndex];
      var student := Models.FilteredStudents(m)[c.studentIndex.value];
      && (r.outcome.Err? <==> student.name !in lesson.notes.byStudent)
      && (r.outcome.Err? ==> r.outcome.error == Uncaught(Notes.StudentNotFound))
      && (r.outcome.Ok? ==>
        var after := r.model.lessons[m.lessonView[c.lessonIndex]];
        && r.outcome.value == StudentMessage(student, lesson, c.note)
        && after.notes.general == lesson.notes.general
        && after.notes.byStudent.Keys == lesson.notes.byStudent.Keys
        && after.notes.byStudent[student.name] == lesson.notes.byStudent[student.name] + [c.note]
        && (forall k :: k in lesson.notes.byStudent && k != student.name ==>
              after.notes.byStudent[k] == lesson.notes.byStudent[k])
        && after.(notes := lesson.notes) == lesson)
  {
    if c.lessonIndex >= |m.lessonView| then
      Execution(m, Err(CommandException(Messages.MESSAGE_INVALID_LESSON_DISPLAYED_INDEX)))
    else
      var at := m.lessonView[c.lessonIndex];
      var lesson := m.lessons[at];
      match c.studentIndex
      case None =>
        var edited := Lessons.AddOverallNotes(lesson, c.note);
        Execution(Commit(m, at, edited), Ok(OverallMessage(edited, c.note)))
      case Some(si) =>
        if si >= |m.studentView| then
          Execution(m, Err(CommandException(Messages.MESSAGE_INVALID_STUDENT_DISPLAYED_INDEX)))
        else
          var student := m.students[m.studentView[si]];
          match Lessons.AddStudentNotes(lesson, c.note, student)
          case Err(e) => Execution(m, Err(Uncaught(e)))
          case Ok(edited) => Execution(Commit(m, at, edited), Ok(StudentMessage(student, edited, c.note)))
  }

  /** Every lesson's notes hold exactly one list per enrolled name. */
  predicate EnrolmentConsistent(m: Models.Model)
  {
    forall j :: 0 <= j < |m.lessons| ==> Lessons.NotesMatchEnrolment(m.lessons[j])
  }

  /** Adding a note never adds or removes a note list, so notes stay keyed by
      exactly the enrolled names. */
  lemma ExecutePreservesEnrolment(c: AddNoteCommand, m: Models.Model)
    requires m.Valid() && EnrolmentConsistent(m)
    ensures EnrolmentConsistent(Execute(c, m).model)
  {
  }

  /** With notes keyed by enrolment, a student note fails exactly when no
      enrolled student has the chosen student's name. */
  lemma StudentNoteFailsIffNameNotEnrolled(c: AddNoteCommand, m: Models.Model)
    requires m.Valid() && EnrolmentConsistent(m)
    requires c.lessonIndex < |m.lessonView| && c.studentIndex.Some? && c.studentIndex.value < |m.studentView|
    ensures var lesson := Models.FilteredLessons(m)[c.lessonIndex];
      var student := Models.FilteredStudents(m)[c.studentIndex.value];
      Execute(c, m).outcome == Err(Uncaught(Notes.StudentNotFound)) <==>
        forall e :: e in lesson.enrolled ==> e.name != student.name
  {
  }

  /** The notes find students by name, not by `Student.equals`: a student who
      is not enrolled (no enrolled student has their matriculation number) but
      shares a name with an enrolled one has the note filed under the enrolled
      student's list. */
  lemma NoteFiledByNameNotIdentity(c: AddNoteCommand, m: Models.Model, enrolled: Students.Student)
    requires m.Valid() && EnrolmentConsistent(m)
    requires c.lessonIndex < |m.lessonView| && c.studentIndex.Some? && c.studentIndex.value < |m.studentView|
    requires var lesson := Models.FilteredLessons(m)[c.lessonIndex];
      var student := Models.FilteredStudents(m)[c.studentIndex.value];
      && enrolled in lesson.enrolled
      && enrolled.name == student.name
      && (forall e :: e in lesson.enrolled ==> !Students.Equals(e, student))
    ensures var lesson := Models.FilteredLessons(m)[c.lessonIndex];
      var r := Execute(c, m);
      && r.outcome.Ok?
      && r.model.lessons[m.lessonView[c.lessonIndex]].notes.byStudent[enrolled.name]
           == lesson.notes.byStudent[enrolled.name] + [c.note]
  {
  }

  /** `AddNoteCommand.equals`: equal lesson indices, equal notes, and student
      indices both absent or both present and equal. */
  function Equals(a: AddNoteCommand, b: AddNoteCommand): (r: bool)
    ensures r <==> a == b
  {
    var studentIndexEquality :=
      match a.studentIndex
      case None => b.studentIndex.None?
      case Some(i) => b.studentIndex.Some? && b.studentIndex.value == i;
    a.lessonIndex == b.lessonIndex && studentIndexEquality && a.note == b.note
  }

  /** Command equality is reflexive and symmetric; a command with a student
      index never equals one without. */
  lemma EqualsProperties(a: AddNoteCommand, b: AddNoteCommand)
    ensures Equals(a, a)
    ensures Equals(a, b) <==> Equals(b, a)
    ensures a.studentIndex.Some? && b.studentIndex.None? ==> !Equals(a, b)
  {
  }
}

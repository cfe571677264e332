/** The part of a lesson the note commands touch. `Lesson` and its variants
    are not part of this model beyond this shape: a description, a valid time
    period, the students enrolled at creation, and the lesson's notes built
    from them. Its `addOverallNotes`, `addStudentNotes` and `toString` are
    taken to delegate to the notes and to show the description. */
module Lessons {
  import opened Outcomes
  import Students
  import Notes
  import TimePeriods

  datatype LessonKind = Studio | Consult | MasteryCheck

  datatype Lesson = Lesson(
    kind: LessonKind,
    desc: string,
    period: TimePeriods.ValidPeriod,
    enrolled: seq<Students.Student>,
    notes: Notes.LessonNotes)

  /** The notes hold exactly one list per enrolled name. */
  predicate NotesMatchEnrolment(l: Lesson)
  {
    l.notes.byStudent.Keys == Students.Names(l.enrolled)
  }

  /** A new lesson starts with empty notes for its enrolled students. */
  function NewLesson(kind: LessonKind, desc: string, period: TimePeriods.ValidPeriod,
                     enrolled: seq<Students.Student>): (l: Lesson)
    ensures NotesMatchEnrolment(l)
    ensures l.notes.general == []
    ensures forall k :: k in l.notes.byStudent ==> l.notes.byStudent[k] == []
  {
    Lesson(kind, desc, period, enrolled, Notes.Create(enrolled))
  }

  /** `addOverallNotes(note)`: a general note for the lesson. */
  function AddOverallNotes(l: Lesson, note: string): Lesson
  {
    l.(notes := Notes.AddNote(l.notes, note))
  }

  /** `addStudentNotes(note, student)`: a note for one student of the lesson,
      which fails as `LessonNotes.addNote(student, note)` does. */
  function AddStudentNotes(l: Lesson, note: string, student: Students.Student): Result<Lesson, Notes.NotesError>
  {
    match Notes.AddStudentNote(l.notes, student, note)
    case Err(e) => Err(e)
    case Ok(notes) => Ok(l.(notes := notes))
  }

  /** `toString`, as shown in command messages. */
  function Display(l: Lesson): string
  {
    l.desc
  }
}

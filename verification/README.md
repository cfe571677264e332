# Lesson notes of JARVIS, in Dafny

JARVIS is a desktop application in which a teaching assistant keeps
students, lessons, grades and free-text notes. This project models the
lesson-notes part of its domain model, the command that adds a note, and the
two value types that command depends on.

- **`LessonNotes`** (module `Notes`, `lesson_notes.dfy`): a lesson's general
  notes in insertion order and one ordered note list per student. The Java
  class keeps the per-student lists in a `TreeMap` ordered by the student's
  name, so membership and lookup go by *name*. The model therefore keys the
  map by the name string. It keeps this apart from `Student.equals`, which
  compares matriculation numbers. The class's exceptions
  (`StudentNotFoundException`, `NoteNotFoundException`, and the
  `IndexOutOfBoundsException` a negative index reaches) become `Result`
  errors. Rendering is modelled down to the string: numbered lines, headers,
  and students in `String.compareTo` order (`SortedNames`).
- **`AddNoteCommand.execute`** (module `AddNoteCommands`): it resolves the
  zero-based lesson and student indices against the model's filtered lists
  (module `Models`). The lesson index is checked first. Each bad index gives
  the fixed message from `Messages`. The command then adds a general note or
  a student note to the chosen lesson, writes the lesson back, and resets
  the lesson filter to show all lessons. A failing execution returns the
  model unchanged. A student whose name has no list in the lesson makes the
  notes throw `StudentNotFoundException`. `execute` does not catch it; the
  model reports it as `Uncaught(StudentNotFound)`.
- **`TimePeriod`** (module `TimePeriods`): an immutable pair of instants
  (whole minutes, as `int`) with `start < end`. It has field-wise `equals`
  and an `Objects.hash`-based `hashCode`.
- **`Student`** (module `Students`): a name, a matriculation number and a
  grade profile. `equals` and `hashCode` go by matriculation number only.
  `toString` is the name, and `NAME_COMPARATOR` compares names. The getters
  are the datatype's destructors. They return the constructor's arguments,
  and no operation changes the two identity fields.
- **Java platform** (module `JavaText`): 32-bit `int` wrap-around,
  `String.hashCode`, `Arrays.hashCode`, `String.compareTo` and
  `Integer.toString`, as far as the classes above use them.

The command's constructor needs a lesson index and a note, while the student
index is optional. In the model this is a matter of types:
`AddNoteCommand(lessonIndex: nat, studentIndex: Option<nat>, note: string)`.

Three consequences of the code are worth knowing:
- Notes are looked up by name. A student who is not enrolled but shares an
  enrolled student's name has the note filed in that student's list
  (`NoteFiledByNameNotIdentity`). Only a name with no list at all gives
  StudentNotFound.
- `deleteNote` only checks `index >= size`. A negative index reaches
  `ArrayList.remove`, which throws `IndexOutOfBoundsException` rather than
  `NoteNotFoundException`.
- `TimePeriod` offers no overlap test and no validity predicate, only the
  constructor's assertion, so the model has neither.

## Model

| member | source | states |
|---|---|---|
| Notes.Create | src/main/java/jarvis/model/LessonNotes.java:22-28 | a new `LessonNotes` has no general notes, and every given student's name is a key mapped to an empty list; there are no other keys |
| Notes.AddNote | src/main/java/jarvis/model/LessonNotes.java:34-36 | the text becomes the last general note, the earlier ones keep their places, and the student lists and keys are unchanged |
| Notes.AddStudentNote | src/main/java/jarvis/model/LessonNotes.java:43-48 | fails with StudentNotFound exactly when no key has the student's name; otherwise only that name's list grows, by the text at its end, and the key set and general notes are unchanged |
| Notes.DeleteNote | src/main/java/jarvis/model/LessonNotes.java:56-61 | an index at or past the end gives NoteNotFound and a negative one IndexOutOfBounds; otherwise it returns the note at the index, and the new list is the old one without that entry, later entries moving down by one |
| Notes.DeleteStudentNote | src/main/java/jarvis/model/LessonNotes.java:70-79 | the student is checked before the index; on success exactly one entry of that student's list is removed and returned, and the general notes and every other list are untouched |
| Notes.AddThenDeleteNote | src/main/java/jarvis/model/LessonNotes.java:34-61 | adding a general note and then deleting at the old length returns the note and restores the original notes |
| Notes.AddThenDeleteStudentNote | src/main/java/jarvis/model/LessonNotes.java:43-79 | the same round trip for a student's notes |
| Notes.GetGeneralNotes | src/main/java/jarvis/model/LessonNotes.java:81-90 | the StringBuilder loop produces the header followed by `"k. note\n"` for k = 1..n in insertion order |
| Notes.RenderAfterAddNote | src/main/java/jarvis/model/LessonNotes.java:81-90 | after adding a general note, the general rendering gains exactly one line, numbered one past the old count, at its end |
| Notes.StudentNotesText | src/main/java/jarvis/model/LessonNotes.java:92-104 | rendering a student's notes fails with StudentNotFound exactly when their name has no list |
| Notes.StudentNoteRenderedForThatStudentOnly | src/main/java/jarvis/model/LessonNotes.java:92-104 | a note added for one student shows as the new last numbered line of that student's rendering and leaves every other student's rendering as it was |
| Notes.SortedNames | src/main/java/jarvis/model/LessonNotes.java:23 | the map's key order lists each name once, strictly ascending by `String.compareTo` |
| Notes.AllNotesHasEveryStudent | src/main/java/jarvis/model/LessonNotes.java:106-116 | the full rendering is the general rendering, the second header, then each student's block; every key's block appears, after the blocks of all names sorting before it |
| Notes.TwoStudentScenario | src/main/java/jarvis/model/LessonNotes.java:106-116 | for students Alice and Benson with one general remark and one remark for Alice, the rendering holds the general remark, then Alice's block with her remark, then Benson's empty block |
| Notes.SetStudent | src/main/java/jarvis/model/LessonNotes.java:118-123 | requires the old name to be present; afterwards the new name maps to the old list with its content unchanged, the old name is gone unless it equals the new one, and other lists are unchanged |
| Notes.SetStudentTransfersOwnership | src/main/java/jarvis/model/LessonNotes.java:118-123 | after a rename to a different name, adding a note under the old identity fails with StudentNotFound and the new identity renders the old notes |
| Notes.Equals | src/main/java/jarvis/model/LessonNotes.java:130-142 | identical notes are equal under the rendering-based `equals`, and notes it calls equal have equal `hashCode`s |
| Notes.EqualsIsEquivalence | src/main/java/jarvis/model/LessonNotes.java:130-147 | for all notes, `equals` is reflexive, symmetric and transitive, and `hashCode` is consistent with it |
| Notes.EqualsIgnoresNoteBoundaries | src/main/java/jarvis/model/LessonNotes.java:130-147 | `equals` and `hashCode` cannot tell the single note "a\n2. b" from the two notes "a" and "b" |
| TimePeriods.NewTimePeriod | src/main/java/jarvis/model/TimePeriod.java:13-25 | construction requires start strictly before end, and the getters return the constructor arguments |
| TimePeriods.Equals | src/main/java/jarvis/model/TimePeriod.java:32-45 | two periods are equal exactly when they agree on start and end |
| TimePeriods.EqualsIsEquivalence | src/main/java/jarvis/model/TimePeriod.java:32-45 | period equality is reflexive, symmetric and transitive |
| TimePeriods.HashCodeFormula | src/main/java/jarvis/model/TimePeriod.java:47-50 | the hash is `31*31 + 31*hash(start) + hash(end)` wrapped to 32 bits, so equal periods hash alike |
| Students.Equals | src/main/java/jarvis/model/Student.java:59-71 | two students are equal exactly when changing one's name and grades into the other's makes them identical, i.e. when their matriculation numbers agree, whatever their names or grades |
| Students.EqualsConsistentWithHashCode | src/main/java/jarvis/model/Student.java:59-76 | student equality is an equivalence, and equal students have equal hash codes |
| Notes.AllNotesShowsStudentBlock | src/main/java/jarvis/model/Student.java:79-81 | a student's `toString` (their full name) is the header of their block in `getAllNotes`: for every student whose name has a list, the full rendering contains the block headed by `toString` holding exactly their notes |
| Students.NameCompareZeroIff | src/main/java/jarvis/model/Student.java:13 | the name comparator returns 0 exactly when the names are equal, and swapping the students negates its result |
| Students.NameCompareCoarserThanEquals | src/main/java/jarvis/model/Student.java:59-71 | two students with the same name and different matriculation numbers compare as 0 yet are not equal |
| Students.UpdateMark | src/main/java/jarvis/model/Student.java:47-49 | recording a mark changes only that assessment's entry in the grade profile; name and matriculation number stay, so the student still equals, hashes and sorts as before |
| JavaText.ComputeStringHash | src/main/java/jarvis/model/Student.java:73-76 | the step-by-step overflowing hash loop over the string's UTF-16 code units computes the documented polynomial `s[0]*31^(n-1) + ... + s[n-1]` wrapped once to 32 bits |
| JavaText.StringHashOfSurrogatePair | src/main/java/jarvis/model/LessonNotes.java:146 | a note character outside the Basic Multilingual Plane is hashed as its two surrogate code units, as Java does (U+1F600 hashes to 1772899) |
| JavaText.CompareToZeroIff | src/main/java/jarvis/model/LessonNotes.java:23 | the name order treats two names as the same key exactly when the strings are equal |
| JavaText.CompareToTransitive | src/main/java/jarvis/model/LessonNotes.java:23 | the name order is transitive, so the sorted key order is well defined |
| JavaText.DecimalRoundTrip | src/main/java/jarvis/model/LessonNotes.java:85 | the rendered note number reads back as the number |
| AddNoteCommands.Execute | src/main/java/jarvis/logic/commands/AddNoteCommand.java:58-82 | the lesson index is checked first, then the student index, each with its fixed message; a student name without a list fails with the uncaught StudentNotFound; any failure returns the model unchanged; on success only the displayed lesson gains the note (general or for the displayed student) with the matching success message, and the lesson filter shows all lessons again |
| AddNoteCommands.ExecutePreservesEnrolment | src/main/java/jarvis/logic/commands/AddNoteCommand.java:72-80 | if every lesson's notes are keyed by exactly its enrolled names before execution, they still are afterwards |
| AddNoteCommands.StudentNoteFailsIffNameNotEnrolled | src/main/java/jarvis/logic/commands/AddNoteCommand.java:67-74 | with notes keyed by enrolment, a student note fails with StudentNotFound exactly when no enrolled student has the chosen student's name |
| AddNoteCommands.NoteFiledByNameNotIdentity | src/main/java/jarvis/logic/commands/AddNoteCommand.java:72-74 | a student not enrolled by matriculation number but sharing an enrolled student's name gets the note filed in that enrolled student's list |
| AddNoteCommands.Equals | src/main/java/jarvis/logic/commands/AddNoteCommand.java:85-105 | two commands are equal exactly when lesson indices and notes are equal and student indices are both absent or both present and equal |
| AddNoteCommands.EqualsProperties | src/main/java/jarvis/logic/commands/AddNoteCommand.java:85-105 | command equality is reflexive and symmetric, and a command with a student index never equals one without |

## Left out

- JSON storage adapters, the command parser, the UI, the rest of
  `ModelManager`, and the message catalogue beyond the two index messages:
  they only translate between text or JSON and the model.
- `Lesson` and its variants (studio, consultation, mastery check), with
  their attendance records, are not part of this model beyond the fields the
  note command touches. `Lesson.addOverallNotes` and
  `Lesson.addStudentNotes` are assumed to delegate to the general and
  per-student `LessonNotes.addNote`. `Lesson.toString` is assumed to show
  the description.
- `ModelManager.setLesson` locates its target with `equals`. The model
  writes the changed lesson back at the backing position of the displayed
  lesson, which is the object the command changed in place.
- GradeProfile internals: a grade profile is modelled as a map from
  assessment to mark, and `updateGrades` is not modelled.
- Students.HashCode: `MatricNum.hashCode` is assumed to be the
  `String.hashCode` of its value.
- TimePeriods.HashCodeFormula: `LocalDateTime.hashCode` is replaced by the
  instant's own value wrapped to an `int`. `TimePeriod.toString`, which
  formats dates with a library formatter, is not modelled.
- JavaText.CompareTo: compares characters by Unicode code point, whereas
  Java compares UTF-16 code units. The two orders agree except between
  characters above U+FFFF and characters from U+E000 to U+FFFF. Hashing
  does use UTF-16 code units.
- TimePeriods.NewTimePeriod: requires `start < end`, as the constructor's
  `assert` does. With assertions disabled, Java would instead build a period
  whose start is not before its end; the model has no such periods.
- Notes.AllNotesShowsStudentBlock: block headers use the map key, the name
  string the comparator uses (`StudentName.toString`). `StudentName` is not
  part of this model, and its `toString` is assumed to return `fullName`,
  which `Student.toString` returns.
- Notes.GetGeneralNotes: note numbers are unbounded; the Java `int`
  counter would overflow only after 2^31 notes.
- Notes.SetStudent: requires the old name to be present, as the Java
  `assert` does. With assertions disabled, Java would instead store a null
  list under the new name.
- `null` arguments and `requireNonNull` checks: the Dafny types exclude them.

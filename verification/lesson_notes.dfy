/** `LessonNotes`: the general notes of a lesson, in insertion order, and
    one ordered list of notes per student of the lesson.

    The Java class keeps the per-student lists in a `TreeMap` whose
    comparator compares student NAMES, so every lookup, insertion and removal
    finds a student's list by name; `Student.equals`, which compares
    matriculation numbers, plays no part. The map here is therefore keyed by
    the name string. */
module Notes {
  import opened Outcomes
  import opened JavaText
  import Students

  /** The unchecked exceptions the Java operations throw. `IndexOutOfBounds`
      is what `ArrayList.remove` throws for a negative index, which the
      `index >= size` guard lets through. */
  datatype NotesError = StudentNotFound | NoteNotFound | IndexOutOfBounds

  datatype LessonNotes = LessonNotes(general: seq<string>, byStudent: map<string, seq<string>>)

  /** What a successful delete leaves behind and the note it returns. */
  datatype Removal = Removal(notes: LessonNotes, removed: string)

  /** The constructor: no general notes and an empty list for every given
      student, one key per distinct name (a later student with an already
      present name replaces that list with a fresh empty one). */
  function Create(students: seq<Students.Student>): (n: LessonNotes)
    ensures n.general == []
    ensures n.byStudent.Keys == Students.Names(students)
    ensures forall k :: k in n.byStudent ==> n.byStudent[k] == []
    decreases |students|
  {
    if |students| == 0 then LessonNotes([], map[])
    else
      var init := students[..|students| - 1];
      var last := students[|students| - 1];
      var n := Create(init);
      assert Students.Names(students) == Students.Names(init) + {last.name} by {
        forall k | k in Students.Names(students)
          ensures k in Students.Names(init) + {last.name}
        {
          var i :| 0 <= i < |students| && students[i].name == k;
          if i < |students| - 1 {
            assert init[i] == students[i];
          }
        }
        forall k | k in Students.Names(init)
          ensures k in Students.Names(students)
        {
          var i :| 0 <= i < |init| && init[i].name == k;
          assert students[i] == init[i];
        }
      }
      n.(byStudent := n.byStudent[last.name := []])
  }

  /** `addNote(notes)`: `text` becomes the last general note; nothing else changes. */
  function AddNote(n: LessonNotes, text: string): (r: LessonNotes)
    ensures |r.general| == |n.general| + 1
    ensures r.general[..|n.general|] == n.general && r.general[|n.general|] == text
    ensures r.byStudent == n.byStudent
  {
    n.(general := n.general + [text])
  }

  /** `addNote(student, notes)`: fails with `StudentNotFound`, changing
      nothing, when no student of that name has a list; otherwise appends
      `text` to that list alone. */
  function AddStudentNote(n: LessonNotes, student: Students.Student, text: string): (r: Result<LessonNotes, NotesError>)
    ensures r.Err? <==> student.name !in n.byStudent
    ensures r.Err? ==> r.error == StudentNotFound
    ensures r.Ok? ==>
      && r.value.general == n.general
      && r.value.byStudent.Keys == n.byStudent.Keys
      && r.value.byStudent[student.name] == n.byStudent[student.name] + [text]
      && forall k :: k in n.byStudent && k != student.name ==> r.value.byStudent[k] == n.byStudent[k]
  {
    if student.name !in n.byStudent then Err(StudentNotFound)
    else Ok(n.(byStudent := n.byStudent[student.name := n.byStudent[student.name] + [text]]))
  }

  /** `xs` without its element at `i`. */
  function RemoveAt(xs: seq<string>, i: nat): (r: seq<string>)
    requires i < |xs|
    ensures |r| == |xs| - 1
    ensures forall j :: 0 <= j < i ==> r[j] == xs[j]
    ensures forall j :: i <= j < |r| ==> r[j] == xs[j + 1]
    ensures multiset(r) + multiset{xs[i]} == multiset(xs)
  {
    assert xs == xs[..i] + [xs[i]] + xs[i + 1..];
    xs[..i] + xs[i + 1..]
  }

  /** `deleteNote(index)`: an index at or past the end fails with
      `NoteNotFound`, a negative one with `IndexOutOfBounds`; otherwise the
      note at `index` is returned and exactly that entry leaves the general
      list, the later ones moving down by one. */
  function DeleteNote(n: LessonNotes, index: int): (r: Result<Removal, NotesError>)
    ensures r.Err? <==> !(0 <= index < |n.general|)
    ensures index >= |n.general| ==> r == Err(NoteNotFound)
    ensures index < 0 ==> r == Err(IndexOutOfBounds)
    ensures r.Ok? ==>
      && r.value.removed == n.general[index]
      && r.value.notes.general == RemoveAt(n.general, index)
      && r.value.notes.byStudent == n.byStudent
  {
    if index >= |n.general| then Err(NoteNotFound)
    else if index < 0 then Err(IndexOutOfBounds)
    else Ok(Removal(n.(general := RemoveAt(n.general, index)), n.general[index]))
  }

  /** `deleteNote(student, index)`: the student is looked up first
      (`StudentNotFound`), the index second (`NoteNotFound`, or
      `IndexOutOfBounds` when negative); on success exactly one entry of that
      student's list is removed and returned, and the general notes and every
      other student's list are untouched. */
  function DeleteStudentNote(n: LessonNotes, student: Students.Student, index: int): (r: Result<Removal, NotesError>)
    ensures student.name !in n.byStudent ==> r == Err(StudentNotFound)
    ensures student.name in n.byStudent ==>
      var xs := n.byStudent[student.name];
      && (r.Err? <==> !(0 <= index < |xs|))
      && (index >= |xs| ==> r == Err(NoteNotFound))
      && (index < 0 ==> r == Err(IndexOutOfBounds))
      && (r.Ok? ==>
        && r.value.removed == xs[index]
        && r.value.notes.general == n.general
        && r.value.notes.byStudent.Keys == n.byStudent.Keys
        && r.value.notes.byStudent[student.name] == RemoveAt(xs, index)
        && forall k :: k in n.byStudent && k != student.name ==> r.value.notes.byStudent[k] == n.byStudent[k])
  {
    if student.name !in n.byStudent then Err(StudentNotFound)
    else
      var xs := n.byStudent[student.name];
      if index >= |xs| then Err(NoteNotFound)
      else if index < 0 then Err(IndexOutOfBounds)
      else Ok(Removal(n.(byStudent := n.byStudent[student.name := RemoveAt(xs, index)]), xs[index]))
  }

  /** Adding a general note and then deleting the note at the old length
      hands the note back and restores the original notes. */
  lemma AddThenDeleteNote(n: LessonNotes, text: string)
    ensures DeleteNote(AddNote(n, text), |n.general|) == Ok(Removal(n, text))
  {
    var added := AddNote(n, text);
    assert RemoveAt(added.general, |n.general|) == n.general;
  }

  /** The same round trip for one student's notes. */
  lemma AddThenDeleteStudentNote(n: LessonNotes, student: Students.Student, text: string)
    requires student.name in n.byStudent
    ensures AddStudentNote(n, student, text).Ok?
    ensures DeleteStudentNote(AddStudentNote(n, student, text).value, student, |n.byStudent[student.name]|)
      == Ok(Removal(n, text))
  {
    var xs := n.byStudent[student.name];
    var added := AddStudentNote(n, student, text).value;
    assert RemoveAt(added.byStudent[student.name], |xs|) == xs;
    assert added.byStudent[student.name := xs] == n.byStudent;
  }

  /** `setStudent(target, edited)`: moves the target's list, unchanged, to
      the edited student's name. The Java code asserts the target is present,
      so callers must guarantee it. */
  function SetStudent(n: LessonNotes, target: Students.Student, edited: Students.Student): (r: LessonNotes)
    requires target.name in n.byStudent
    ensures r.general == n.general
    ensures r.byStudent.Keys == n.byStudent.Keys - {target.name} + {edited.name}
    ensures r.byStudent[edited.name] == n.byStudent[target.name]
    ensures forall k :: k in n.byStudent && k != target.name && k != edited.name ==> r.byStudent[k] == n.byStudent[k]
  {
    var moved := n.byStudent[target.name];
    n.(byStudent := (n.byStudent - {target.name})[edited.name := moved])
  }

  /** After a rename, the old name no longer finds any notes and the new
      name finds the old list. */
  lemma SetStudentTransfersOwnership(n: LessonNotes, target: Students.Student, edited: Students.Student, text: string)
    requires target.name in n.byStudent && target.name != edited.name
    ensures AddStudentNote(SetStudent(n, target, edited), target, text) == Err(StudentNotFound)
    ensures StudentNotesText(SetStudent(n, target, edited), edited) == StudentNotesText(n, target)
  {
  }

  // ---------------------------------------------------------------- rendering

  /** One numbered line: `"k. note\n"`. */
  function Line(k: nat, note: string): string
  {
    DecimalString(k) + ". " + note + "\n"
  }

  /** The notes as numbered lines, the first numbered `first`. */
  function Numbered(notes: seq<string>, first: nat): string
    decreases |notes|
  {
    if |notes| == 0 then ""
    else Line(first, notes[0]) + Numbered(notes[1..], first + 1)
  }

  /** Appending a note appends exactly one line, numbered after the others. */
  lemma {:induction false} NumberedAppend(notes: seq<string>, note: string, first: nat)
    ensures Numbered(notes + [note], first) == Numbered(notes, first) + Line(first + |notes|, note)
    decreases |notes|
  {
    if |notes| == 0 {
      assert Numbered([note], first) == Line(first, note) + Numbered([], first + 1);
    } else {
      assert (notes + [note])[1..] == notes[1..] + [note];
      NumberedAppend(notes[1..], note, first + 1);
    }
  }

  const GENERAL_HEADER: string := "Lesson Notes:\n"
  const STUDENTS_HEADER: string := "\nNotes for individual students:\n"

  /** `getGeneralNotes`: the header, then the general notes numbered from 1. */
  function GeneralNotesText(n: LessonNotes): string
  {
    GENERAL_HEADER + Numbered(n.general, 1)
  }

  /** `getGeneralNotes` as the Java loop builds it, one appended line per note. */
  method GetGeneralNotes(n: LessonNotes) returns (text: string)
    ensures text == GeneralNotesText(n)
  {
    text := GENERAL_HEADER;
    var index := 0;
    while index < |n.general|
      invariant 0 <= index <= |n.general|
      invariant text == GENERAL_HEADER + Numbered(n.general[..index], 1)
    {
      NumberedAppend(n.general[..index], n.general[index], 1);
      assert n.general[..index + 1] == n.general[..index] + [n.general[index]];
      index := index + 1;
      text := text + DecimalString(index) + ". " + n.general[index - 1] + "\n";
    }
    assert n.general[..index] == n.general;
  }

  /** After `addNote(text)` the rendering gains exactly the line
      `"<old count + 1>. text\n"` at its end. */
  lemma RenderAfterAddNote(n: LessonNotes, text: string)
    ensures GeneralNotesText(AddNote(n, text)) == GeneralNotesText(n) + Line(|n.general| + 1, text)
  {
    NumberedAppend(n.general, text, 1);
  }

  /** `getStudentNotes(student)`: that student's notes numbered from 1, or
      `StudentNotFound` for a name with no list. */
  function StudentNotesText(n: LessonNotes, student: Students.Student): (r: Result<string, NotesError>)
    ensures r.Err? <==> student.name !in n.byStudent
    ensures r.Err? ==> r.error == StudentNotFound
  {
    if student.name !in n.byStudent then Err(StudentNotFound)
    else Ok(Numbered(n.byStudent[student.name], 1))
  }

  /** A note added for one student shows in that student's rendering and in
      no other student's. */
  lemma StudentNoteRenderedForThatStudentOnly(n: LessonNotes, a: Students.Student, b: Students.Student, text: string)
    requires a.name in n.byStudent && b.name in n.byStudent && a.name != b.name
    ensures AddStudentNote(n, a, text).Ok?
    ensures StudentNotesText(AddStudentNote(n, a, text).value, a)
      == Ok(Numbered(n.byStudent[a.name], 1) + Line(|n.byStudent[a.name]| + 1, text))
    ensures StudentNotesText(AddStudentNote(n, a, text).value, b) == StudentNotesText(n, b)
  {
    NumberedAppend(n.byStudent[a.name], text, 1);
  }

  // ------------------------------------------------- the name-ordered key set

  /** `m` sorts before every other member of `keys`. */
  predicate IsFirst(m: string, keys: set<string>)
  {
    forall k :: k in keys && k != m ==> Before(m, k)
  }

  lemma BeforeAsymmetric()
    ensures forall a, b :: Before(a, b) ==> !Before(b, a)
  {
    forall a, b | Before(a, b)
      ensures !Before(b, a)
    {
      CompareToAntisymmetric(a, b);
    }
  }

  /** Every non-empty set of names has a first one. */
  lemma {:induction false} FirstExists(keys: set<string>)
    requires keys != {}
    ensures exists m :: m in keys && IsFirst(m, keys)
    decreases |keys|
  {
    var x :| x in keys;
    if keys != {x} {
      var rest := keys - {x};
      FirstExists(rest);
      var y :| y in rest && IsFirst(y, rest);
      BeforeTotal(x, y);
      if Before(x, y) {
        forall k | k in keys && k != x
          ensures Before(x, k)
        {
          if k != y {
            assert k in rest;
            CompareToTransitive(x, y, k);
          }
        }
        assert IsFirst(x, keys);
      } else {
        assert IsFirst(y, keys);
      }
    }
  }

  /** The name that sorts before every other member of `keys`. */
  function FirstOf(keys: set<string>): (m: string)
    requires keys != {}
    ensures m in keys && IsFirst(m, keys)
  {
    FirstExists(keys);
    BeforeAsymmetric();
    var m :| m in keys && IsFirst(m, keys);
    m
  }

  /** The keys of the `TreeMap` in iteration order: each name once, ascending
      by `String.compareTo`. */
  function SortedNames(keys: set<string>): (r: seq<string>)
    ensures |r| == |keys|
    ensures forall k :: k in keys <==> k in r
    ensures forall i, j :: 0 <= i < j < |r| ==> Before(r[i], r[j])
    decreases |keys|
  {
    if keys == {} then []
    else
      var m := FirstOf(keys);
      var rest := SortedNames(keys - {m});
      assert forall j :: 0 <= j < |rest| ==> rest[j] in keys - {m};
      [m] + rest
  }

  /** One student's block in `getAllNotes`: name, colon, numbered notes, blank line. */
  function Section(name: string, notes: seq<string>): string
  {
    name + ":\n" + Numbered(notes, 1) + "\n"
  }

  /** The blocks of the named students, in the given order. */
  function Sections(names: seq<string>, byStudent: map<string, seq<string>>): string
    requires forall i :: 0 <= i < |names| ==> names[i] in byStudent
    decreases |names|
  {
    if |names| == 0 then ""
    else Section(names[0], byStudent[names[0]]) + Sections(names[1..], byStudent)
  }

  /** `getAllNotes` (also `toString`): the general rendering, a second
      header, then every student's block in name order. */
  function AllNotesText(n: LessonNotes): string
  {
    GeneralNotesText(n) + STUDENTS_HEADER + Sections(SortedNames(n.byStudent.Keys), n.byStudent)
  }

  /** `Sections` splits around any position. */
  lemma {:induction false} SectionsSplit(names: seq<string>, byStudent: map<string, seq<string>>, i: nat)
    requires forall j :: 0 <= j < |names| ==> names[j] in byStudent
    requires i < |names|
    ensures Sections(names, byStudent)
      == Sections(names[..i], byStudent) + Section(names[i], byStudent[names[i]]) + Sections(names[i + 1..], byStudent)
    decreases i
  {
    if i > 0 {
      SectionsSplit(names[1..], byStudent, i - 1);
      assert names[1..][..i - 1] == names[..i][1..];
      assert names[1..][i - 1 + 1..] == names[i + 1..];
    }
  }

  lemma ConcatAssociative(g: string, h: string, a: string, b: string, c: string)
    ensures g + h + (a + b + c) == g + h + a + b + c
  {
  }

  /** The full rendering starts with the general rendering, and every student
      with a list has their own block in it, placed after the blocks of all
      names that sort before theirs. */
  lemma AllNotesHasEveryStudent(n: LessonNotes, name: string) returns (i: nat)
    requires name in n.byStudent
    ensures var names := SortedNames(n.byStudent.Keys);
      && i < |names|
      && names[i] == name
      && (forall j :: 0 <= j < i ==> Before(names[j], name))
      && AllNotesText(n) == GeneralNotesText(n) + STUDENTS_HEADER + Sections(names[..i], n.byStudent)
           + Section(name, n.byStudent[name]) + Sections(names[i + 1..], n.byStudent)
  {
    var names := SortedNames(n.byStudent.Keys);
    assert name in names;
    i :| 0 <= i < |names| && names[i] == name;
    SectionsSplit(names, n.byStudent, i);
    assert AllNotesText(n) == GeneralNotesText(n) + STUDENTS_HEADER + Sections(names, n.byStudent);
    ConcatAssociative(GeneralNotesText(n), STUDENTS_HEADER, Sections(names[..i], n.byStudent),
      Section(name, n.byStudent[name]), Sections(names[i + 1..], n.byStudent));
  }

  /** In `getAllNotes` each student's block is headed by the student's
      `toString`: for any student whose name has a list, the full rendering
      is the general part, then the blocks sorting before, then the block
      headed by `Students.ToString(s)` holding their notes, then the rest. */
  lemma AllNotesShowsStudentBlock(n: LessonNotes, s: Students.Student) returns (before: string, after: string)
    requires s.name in n.byStudent
    ensures AllNotesText(n) == GeneralNotesText(n) + STUDENTS_HEADER + before
      + Section(Students.ToString(s), n.byStudent[s.name]) + after
  {
    var i := AllNotesHasEveryStudent(n, s.name);
    var names := SortedNames(n.byStudent.Keys);
    before, after := Sections(names[..i], n.byStudent), Sections(names[i + 1..], n.byStudent);
  }

  /** `LessonNotes.equals`: equal full renderings. Identical notes are
      equal, and equal notes have equal `hashCode`s. */
  function Equals(a: LessonNotes, b: LessonNotes): (r: bool)
    ensures a == b ==> r
    ensures r ==> HashCode(a) == HashCode(b)
  {
    AllNotesText(a) == AllNotesText(b)
  }

  /** `LessonNotes.hashCode`: the hash of the full rendering. */
  function HashCode(n: LessonNotes): Int32
  {
    StringHash(AllNotesText(n))
  }

  /** `equals` is reflexive, symmetric and transitive, and `hashCode` agrees
      with it, for all notes. */
  lemma EqualsIsEquivalence(a: LessonNotes, b: LessonNotes, c: LessonNotes)
    ensures Equals(a, a)
    ensures Equals(a, b) <==> Equals(b, a)
    ensures Equals(a, b) && Equals(b, c) ==> Equals(a, c)
    ensures Equals(a, b) ==> HashCode(a) == HashCode(b)
  {
  }

  /** Equality by rendering is coarser than equality of contents: a single
      note that contains a newline followed by `"2. "` renders exactly like
      two separate notes. */
  lemma EqualsIgnoresNoteBoundaries()
    ensures var a := LessonNotes(["a\n2. b"], map[]);
      var b := LessonNotes(["a", "b"], map[]);
      Equals(a, b) && a != b && HashCode(a) == HashCode(b)
  {
  }

  /** A lesson for Alice and Benson, one general remark and one remark for
      Alice: the full rendering is the general block holding the remark, then
      Alice's block holding her remark, then Benson's empty block. */
  lemma TwoStudentScenario()
    ensures
      var alice := Students.Student("Alice", "A0000001X", Students.GradeProfile(map[]));
      var benson := Students.Student("Benson", "A0000002Y", Students.GradeProfile(map[]));
      var withGeneral := AddNote(Create([alice, benson]), "General remark");
      var r := AddStudentNote(withGeneral, alice, "needs review");
      && r.Ok?
      && AllNotesText(r.value) == GENERAL_HEADER + Line(1, "General remark") + STUDENTS_HEADER
           + Section("Alice", ["needs review"]) + Section("Benson", [])
  {
    TwoStudentScenarioState();
    TwoStudentScenarioText();
  }

  lemma TwoStudentScenarioState()
    ensures
      var alice := Students.Student("Alice", "A0000001X", Students.GradeProfile(map[]));
      var benson := Students.Student("Benson", "A0000002Y", Students.GradeProfile(map[]));
      var r := AddStudentNote(AddNote(Create([alice, benson]), "General remark"), alice, "needs review");
      r == Ok(LessonNotes(["General remark"], map["Alice" := ["needs review"], "Benson" := []]))
  {
    var alice := Students.Student("Alice", "A0000001X", Students.GradeProfile(map[]));
    var benson := Students.Student("Benson", "A0000002Y", Students.GradeProfile(map[]));
    var created := Create([alice, benson]);
    assert created.byStudent.Keys == {"Alice", "Benson"} by {
      var both := [alice, benson];
      assert both[0].name == "Alice" && both[1].name == "Benson";
      forall k | k in Students.Names(both)
        ensures k in {"Alice", "Benson"}
      {
        var i :| 0 <= i < |both| && both[i].name == k;
      }
    }
    var empty := map["Alice" := [], "Benson" := []];
    assert created.byStudent == empty;
    var withGeneral := AddNote(created, "General remark");
    assert withGeneral == LessonNotes(["General remark"], empty);
    var r := AddStudentNote(withGeneral, alice, "needs review");
    assert alice.name in withGeneral.byStudent;
    assert r == Ok(LessonNotes(["General remark"], empty["Alice" := [] + ["needs review"]]));
    assert [] + ["needs review"] == ["needs review"];
    assert empty["Alice" := ["needs review"]] == map["Alice" := ["needs review"], "Benson" := []];
  }

  lemma TwoStudentScenarioText()
    ensures AllNotesText(LessonNotes(["General remark"], map["Alice" := ["needs review"], "Benson" := []]))
      == GENERAL_HEADER + Line(1, "General remark") + STUDENTS_HEADER
           + Section("Alice", ["needs review"]) + Section("Benson", [])
  {
  }
}

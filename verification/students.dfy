/** `Student`: an identity (full name and matriculation number) plus a
    grade profile. Equality and hashing go by matriculation number alone,
    while the name comparator orders by name alone. */
module Students {
  import opened JavaText

  /** An assessment a mark is recorded for. */
  type Assessment = string

  /** The marks recorded per assessment. `GradeProfile` itself is not part
      of this model; it is taken to map each graded assessment to its mark. */
  datatype GradeProfile = GradeProfile(marks: map<Assessment, int>)

  /** `name` is `StudentName.fullName` and `matric` is the value of the
      `MatricNum`; the getters are the datatype's destructors, so they return
      the constructor's arguments, and no operation changes the two identity
      fields. */
  datatype Student = Student(name: string, matric: string, grades: GradeProfile)

  /** `Student.equals`: same matriculation number, whatever the names or grades. */
  function Equals(a: Student, b: Student): (r: bool)
    ensures r <==> a.(name := b.name, grades := b.grades) == b
  {
    a.matric == b.matric
  }

  /** `Student.hashCode`: the hash of the matriculation number (taken to be
      the `String.hashCode` of its value). */
  function HashCode(s: Student): Int32
  {
    StringHash(s.matric)
  }

  /** `equals` is an equivalence and `hashCode` agrees with it. */
  lemma EqualsConsistentWithHashCode(a: Student, b: Student, c: Student)
    ensures Equals(a, a)
    ensures Equals(a, b) <==> Equals(b, a)
    ensures Equals(a, b) && Equals(b, c) ==> Equals(a, c)
    ensures Equals(a, b) ==> HashCode(a) == HashCode(b)
  {
  }

  /** `Student.toString`: the full name. */
  function ToString(s: Student): (r: string)
    ensures r == s.name
  {
    s.name
  }

  /** `NAME_COMPARATOR`: `String.compareTo` on the names. */
  function NameCompare(a: Student, b: Student): int
  {
    CompareTo(ToString(a), ToString(b))
  }

  /** The comparator returns zero exactly when the names agree, whatever the
      matriculation numbers, and is antisymmetric. */
  lemma NameCompareZeroIff(a: Student, b: Student)
    ensures NameCompare(a, b) == 0 <==> a.name == b.name
    ensures NameCompare(b, a) == -NameCompare(a, b)
  {
    CompareToZeroIff(a.name, b.name);
    CompareToAntisymmetric(a.name, b.name);
  }

  /** The comparator and `equals` disagree: two students sharing a name but
      not a matriculation number compare as 0 yet are not equal. */
  lemma NameCompareCoarserThanEquals(a: Student, b: Student)
    requires a.name == b.name && a.matric != b.matric
    ensures NameCompare(a, b) == 0 && !Equals(a, b)
  {
    NameCompareZeroIff(a, b);
  }

  /** `updateMark`: records `marks` for `assessment` in the grade profile;
      the identity is untouched, so the updated student still `equals` the
      old one, hashes alike and sorts in the same place. */
  function UpdateMark(s: Student, assessment: Assessment, marks: int): (r: Student)
    ensures r.name == s.name && r.matric == s.matric
    ensures Equals(r, s) && HashCode(r) == HashCode(s) && NameCompare(r, s) == 0
    ensures assessment in r.grades.marks && r.grades.marks[assessment] == marks
    ensures forall x :: x != assessment ==>
      (x in r.grades.marks <==> x in s.grades.marks) &&
      (x in s.grades.marks ==> r.grades.marks[x] == s.grades.marks[x])
  {
    CompareToZeroIff(s.name, s.name);
    s.(grades := GradeProfile(s.grades.marks[assessment := marks]))
  }

  /** The names of a collection of students: the keys a name-ordered map built
      from them holds. */
  function Names(students: seq<Student>): (names: set<string>)
    ensures forall i :: 0 <= i < |students| ==> students[i].name in names
    ensures forall n :: n in names ==> exists i :: 0 <= i < |students| && students[i].name == n
  {
    set i | 0 <= i < |students| :: students[i].name
  }
}

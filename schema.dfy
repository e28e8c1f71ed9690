/** The relational schema the managers work on (database.py:35-67), as
    in-memory tables. Each table is a sequence of rows in storage order, which
    is the order an unordered scan returns them in. */
module Schema {
  import opened Errors
  import opened Grading
  import opened Seqs

  datatype Status = Active | Inactive | Graduated

  /** A `students` row; `email` is NULL when none was given, and `gpa` is the
      cached weighted average, 0.0 until a grade is recorded. */
  datatype Student = Student(
    id: string,
    name: string,
    email: Option<string>,
    major: string,
    enrollmentYear: int,
    gpa: real,
    status: Status)

  /** A `courses` row. */
  datatype Course = Course(
    id: string,
    name: string,
    semester: string,
    credits: int,
    instructor: string,
    maxCapacity: int)

  /** A `grades` row: one numeric grade of one student in one course, with the
      letter derived from it when it was written. */
  datatype GradeRow = GradeRow(studentId: string, courseId: string, grade: real, letter: Letter)

  datatype Tables = Tables(students: seq<Student>, courses: seq<Course>, grades: seq<GradeRow>)

  /** The (student_id, course_id) pair a grade row is unique on. */
  function PairOf(g: GradeRow): (string, string) {
    (g.studentId, g.courseId)
  }

  function StudentKey(s: Student): string { s.id }

  function CourseKey(c: Course): string { c.id }

  /** The row whose key is `id`, by a scan in storage order: the
      `SELECT ... WHERE id = ?` of both managers. */
  function FindBy<T>(s: seq<T>, key: T -> string, id: string): (r: Option<T>)
    ensures r.Some? ==> r.value in s && key(r.value) == id
    ensures r.None? <==> forall i :: 0 <= i < |s| ==> key(s[i]) != id
  {
    if s == [] then None
    else if key(s[0]) == id then Some(s[0])
    else FindBy(s[1..], key, id)
  }

  /** The student row with the given id. */
  function FindStudent(ss: seq<Student>, id: string): Option<Student> {
    FindBy(ss, StudentKey, id)
  }

  /** The course row with the given id. */
  function FindCourse(cs: seq<Course>, id: string): Option<Course> {
    FindBy(cs, CourseKey, id)
  }

  /** No two students share a (non-NULL) email: the UNIQUE column. */
  predicate UniqueEmails(ss: seq<Student>) {
    forall i, j :: 0 <= i < j < |ss| && ss[i].email.Some? ==> ss[i].email != ss[j].email
  }

  /** Some student already has the given email. */
  predicate EmailTaken(ss: seq<Student>, email: string) {
    exists i :: 0 <= i < |ss| && ss[i].email == Some(email)
  }

  /** Dropping students keeps the emails unique. */
  lemma {:induction false} FilterKeepsUniqueEmails(ss: seq<Student>, p: Student -> bool)
    requires UniqueEmails(ss)
    ensures UniqueEmails(Filter(ss, p))
  {
    if ss != [] {
      var rest := ss[1..];
      assert UniqueEmails(rest) by {
        forall i, j | 0 <= i < j < |rest| && rest[i].email.Some? ensures rest[i].email != rest[j].email {
          assert rest[i] == ss[i + 1] && rest[j] == ss[j + 1];
        }
      }
      FilterKeepsUniqueEmails(rest, p);
      var fr := Filter(rest, p);
      forall j | 0 <= j < |fr| && ss[0].email.Some? ensures ss[0].email != fr[j].email {
        assert fr[j] in rest;
        var k :| 0 <= k < |rest| && rest[k] == fr[j];
        assert ss[k + 1] == fr[j];
      }
      var r := Filter(ss, p);
      if p(ss[0]) {
        assert r == [ss[0]] + fr;
        forall i, j | 0 <= i < j < |r| && r[i].email.Some? ensures r[i].email != r[j].email {
          assert r[j] == fr[j - 1];
          if i > 0 {
            assert r[i] == fr[i - 1];
          }
        }
      } else {
        assert r == fr;
      }
    }
  }

  predicate ValidGradeRow(g: GradeRow) {
    0.0 <= g.grade <= 100.0 && g.letter == CalculateLetter(g.grade)
  }

  /** The constraints on `students`: the primary key, the UNIQUE email and a
      cached GPA on the 0-4 scale. */
  predicate StudentsValid(ss: seq<Student>) {
    && Distinct(ss, StudentKey)
    && UniqueEmails(ss)
    && (forall i :: 0 <= i < |ss| ==> 0.0 <= ss[i].gpa <= 4.0)
  }

  /** The constraints on `courses`: the primary key and the credits CHECK. */
  predicate CoursesValid(cs: seq<Course>) {
    && Distinct(cs, CourseKey)
    && (forall i :: 0 <= i < |cs| ==> 1 <= cs[i].credits <= 6)
  }

  /** The constraints on `grades`: UNIQUE(student_id, course_id), the grade
      CHECK with its derived letter, and both foreign keys. */
  predicate GradesValid(ss: seq<Student>, cs: seq<Course>, gs: seq<GradeRow>) {
    && Distinct(gs, PairOf)
    && (forall i :: 0 <= i < |gs| ==> ValidGradeRow(gs[i]))
    && (forall i :: 0 <= i < |gs| ==>
          FindStudent(ss, gs[i].studentId).Some? && FindCourse(cs, gs[i].courseId).Some?)
  }

  /** The schema's constraints on all three tables. */
  predicate Valid(t: Tables) {
    StudentsValid(t.students) && CoursesValid(t.courses) && GradesValid(t.students, t.courses, t.grades)
  }
}

/** The grade engine and the entity checks of managers.py as functions on
    table values: the input checks of StudentManager.add and
    CourseManager.add, the upsert and GPA recalculation of GradeManager, and
    the deletes of CourseManager and StudentManager. The managers' methods in
    module Managers are proved against these. */
module Engine {
  import opened Errors
  import opened Grading
  import opened Seqs
  import opened Schema

  // ---------- StudentManager.add and CourseManager.add: input checks ----------

  const BadStudentId := "Student ID must be at least 3 alphanumeric characters"
  const MissingStudentName := "Student name is required"
  const BadEmail := "Invalid email format"
  const MissingCourseFields := "Course ID, name, and semester are required"
  const BadCredits := "Credits must be between 1 and 6"
  const BadGrade := "Invalid grade value"
  const StudentIdTaken := "UNIQUE constraint failed: students.id"
  const StudentEmailTaken := "UNIQUE constraint failed: students.email"
  const CourseIdTaken := "UNIQUE constraint failed: courses.id"

  predicate IsAlnumChar(c: char) {
    'a' <= c <= 'z' || 'A' <= c <= 'Z' || '0' <= c <= '9'
  }

  /** Python's `str.isalnum()`: non-empty and alphanumeric throughout. */
  predicate IsAlnum(s: string) {
    |s| > 0 && forall i :: 0 <= i < |s| ==> IsAlnumChar(s[i])
  }

  /** The characters Python's `str.isspace()` accepts. */
  predicate IsSpace(c: char) {
    || '\t' <= c <= '\r'
    || '\U{1C}' <= c <= ' '
    || c == '\U{85}' || c == '\U{A0}' || c == '\U{1680}'
    || '\U{2000}' <= c <= '\U{200A}'
    || c == '\U{2028}' || c == '\U{2029}' || c == '\U{202F}' || c == '\U{205F}' || c == '\U{3000}'
  }

  /** `s.strip()` is empty. */
  predicate IsBlank(s: string) {
    forall i :: 0 <= i < |s| ==> IsSpace(s[i])
  }

  predicate ValidStudentId(sid: string) {
    |sid| >= 3 && IsAlnum(sid)
  }

  /** The checks StudentManager.add makes before it inserts, in its order.
      `emailMatches` is the email pattern test, which is not modelled. */
  function CheckStudent(sid: string, name: string, email: string, emailMatches: string -> bool): (r: Outcome)
    ensures r == Ok <==> ValidStudentId(sid) && !IsBlank(name) && (email == "" || emailMatches(email))
    ensures !ValidStudentId(sid) ==> r == Fail(Invalid(BadStudentId))
    ensures ValidStudentId(sid) && IsBlank(name) ==> r == Fail(Invalid(MissingStudentName))
    ensures ValidStudentId(sid) && !IsBlank(name) && email != "" && !emailMatches(email) ==>
              r == Fail(Invalid(BadEmail))
  {
    if |sid| < 3 || !IsAlnum(sid) then Fail(Invalid(BadStudentId))
    else if IsBlank(name) then Fail(Invalid(MissingStudentName))
    else if email != "" && !emailMatches(email) then Fail(Invalid(BadEmail))
    else Ok
  }

  /** The checks CourseManager.add makes before it inserts, in its order. */
  function CheckCourse(cid: string, name: string, semester: string, credits: int): (r: Outcome)
    ensures r == Ok <==> cid != "" && name != "" && semester != "" && 1 <= credits <= 6
    ensures (cid == "" || name == "" || semester == "") ==> r == Fail(Invalid(MissingCourseFields))
    ensures cid != "" && name != "" && semester != "" && !(1 <= credits <= 6) ==>
              r == Fail(Invalid(BadCredits))
  {
    if cid == "" || name == "" || semester == "" then Fail(Invalid(MissingCourseFields))
    else if !(1 <= credits <= 6) then Fail(Invalid(BadCredits))
    else Ok
  }

  /** Appending a student whose id is new, whose email, if any, is unused,
      and whose GPA is on the 0-4 scale keeps every constraint. */
  lemma AppendStudentKeepsValid(t: Tables, s: Student)
    requires Valid(t) && FindStudent(t.students, s.id).None?
    requires s.email.None? || !EmailTaken(t.students, s.email.value)
    requires 0.0 <= s.gpa <= 4.0
    ensures Valid(t.(students := t.students + [s]))
  {
    var ss := t.students + [s];
    assert forall i :: 0 <= i < |t.students| ==> ss[i] == t.students[i];
    assert StudentsValid(ss);
    forall k | 0 <= k < |t.grades| ensures FindStudent(ss, t.grades[k].studentId).Some? {
      var old_s := FindStudent(t.students, t.grades[k].studentId).value;
      var m :| 0 <= m < |t.students| && t.students[m] == old_s;
      assert ss[m] == old_s;
    }
  }

  /** Appending a course whose id is new and whose credits are in 1..6 keeps
      every constraint. */
  lemma AppendCourseKeepsValid(t: Tables, c: Course)
    requires Valid(t) && FindCourse(t.courses, c.id).None?
    requires 1 <= c.credits <= 6
    ensures Valid(t.(courses := t.courses + [c]))
  {
    var cs := t.courses + [c];
    assert forall i :: 0 <= i < |t.courses| ==> cs[i] == t.courses[i];
    assert CoursesValid(cs);
    forall k | 0 <= k < |t.grades| ensures FindCourse(cs, t.grades[k].courseId).Some? {
      var old_c := FindCourse(t.courses, t.grades[k].courseId).value;
      var m :| 0 <= m < |t.courses| && t.courses[m] == old_c;
      assert cs[m] == old_c;
    }
  }

  // ---------- GradeManager.add: the upsert ----------

  /** Keeps the rows whose pair differs from that of `row`. */
  function OtherPair(row: GradeRow): GradeRow -> bool {
    (g: GradeRow) => PairOf(g) != PairOf(row)
  }

  function SamePair(row: GradeRow): GradeRow -> bool {
    (g: GradeRow) => PairOf(g) == PairOf(row)
  }

  /** INSERT OR REPLACE on UNIQUE(student_id, course_id): a row already stored
      for the pair is deleted, and `row` is inserted as the newest row. */
  function Upsert(gs: seq<GradeRow>, row: GradeRow): seq<GradeRow> {
    Filter(gs, OtherPair(row)) + [row]
  }

  /** After the upsert the pair has exactly one row, the new one. */
  lemma UpsertLeavesOneRow(gs: seq<GradeRow>, row: GradeRow)
    ensures var r := Upsert(gs, row);
      && r[|r| - 1] == row
      && forall i :: 0 <= i < |r| ==> (PairOf(r[i]) == PairOf(row) <==> i == |r| - 1)
  {
    var r := Upsert(gs, row);
    forall i | 0 <= i < |r| - 1 ensures PairOf(r[i]) != PairOf(row) {
      assert r[i] in Filter(gs, OtherPair(row));
    }
  }

  /** The rows of every other pair are kept, in the same order. */
  lemma UpsertKeepsOtherRows(gs: seq<GradeRow>, row: GradeRow)
    ensures Filter(Upsert(gs, row), OtherPair(row)) == Filter(gs, OtherPair(row))
  {
    FilterConcat(Filter(gs, OtherPair(row)), [row], OtherPair(row));
    FilterTwice(gs, OtherPair(row));
    assert Filter([row], OtherPair(row)) == [] by {
      assert [row][1..] == [];
    }
  }

  predicate HasPair(gs: seq<GradeRow>, row: GradeRow) {
    exists i :: 0 <= i < |gs| && PairOf(gs[i]) == PairOf(row)
  }

  /** With pairs unique, a pair has one row if it has any. */
  lemma {:induction false} PairRowCount(gs: seq<GradeRow>, row: GradeRow)
    requires Distinct(gs, PairOf)
    ensures |Filter(gs, SamePair(row))| == if HasPair(gs, row) then 1 else 0
  {
    if gs != [] {
      var rest := gs[1..];
      assert Distinct(rest, PairOf);
      if PairOf(gs[0]) == PairOf(row) {
        forall i | 0 <= i < |rest| ensures !SamePair(row)(rest[i]) {
          assert rest[i] == gs[i + 1];
        }
        FilterNone(rest, SamePair(row));
      } else {
        PairRowCount(rest, row);
        if HasPair(gs, row) {
          var i :| 0 <= i < |gs| && PairOf(gs[i]) == PairOf(row);
          assert rest[i - 1] == gs[i];
        }
      }
    }
  }

  /** Re-recording a grade replaces the stored one: with pairs unique, the
      table grows by one row only when the pair had no grade yet. */
  lemma UpsertSize(gs: seq<GradeRow>, row: GradeRow)
    requires Distinct(gs, PairOf)
    ensures |Upsert(gs, row)| == if HasPair(gs, row) then |gs| else |gs| + 1
  {
    FilterSplit(gs, OtherPair(row), SamePair(row));
    PairRowCount(gs, row);
  }

  // ---------- GradeManager.update_student_gpa ----------

  /** One row of the join of a student's grades with their courses' credits. */
  datatype CreditRow = CreditRow(grade: real, credits: int)

  /** SELECT g.grade, c.credits FROM grades g JOIN courses c ON c.id = g.course_id
      WHERE g.student_id = sid, in storage order. */
  function CreditRows(cs: seq<Course>, gs: seq<GradeRow>, sid: string): seq<CreditRow> {
    if gs == [] then []
    else
      var rest := CreditRows(cs, gs[1..], sid);
      if gs[0].studentId != sid then rest
      else match FindCourse(cs, gs[0].courseId)
        case None => rest
        case Some(c) => [CreditRow(gs[0].grade, c.credits)] + rest
  }

  function Points(r: CreditRow): real {
    GradeToGpaPoints(r.grade) * r.credits as real
  }

  function Credits(r: CreditRow): real {
    r.credits as real
  }

  function PointsSum(rows: seq<CreditRow>): real {
    SumOf(rows, Points)
  }

  function CreditSum(rows: seq<CreditRow>): real {
    SumOf(rows, Credits)
  }

  /** The credit-weighted average of the rows' grade points. */
  function WeightedGpa(rows: seq<CreditRow>): real
    requires CreditSum(rows) > 0.0
  {
    PointsSum(rows) / CreditSum(rows)
  }

  predicate ValidCreditRows(rows: seq<CreditRow>) {
    forall i :: 0 <= i < |rows| ==> 1 <= rows[i].credits <= 6 && 0.0 <= rows[i].grade <= 100.0
  }

  predicate PositiveCredits(rows: seq<CreditRow>) {
    forall i :: 0 <= i < |rows| ==> rows[i].credits >= 1
  }

  lemma {:induction false} SumsBounded(rows: seq<CreditRow>)
    requires PositiveCredits(rows)
    ensures 0.0 <= PointsSum(rows) <= 4.0 * CreditSum(rows)
    ensures rows != [] ==> CreditSum(rows) >= 1.0
  {
    if rows != [] {
      var init := rows[..|rows| - 1];
      assert PositiveCredits(init);
      SumsBounded(init);
    }
  }

  /** With positive credits the average is defined and lies on the 0-4 scale. */
  lemma WeightedGpaInRange(rows: seq<CreditRow>)
    requires rows != [] && PositiveCredits(rows)
    ensures CreditSum(rows) > 0.0
    ensures 0.0 <= WeightedGpa(rows) <= 4.0
  {
    SumsBounded(rows);
    var p, c := PointsSum(rows), CreditSum(rows);
    assert p / c <= 4.0 by {
      assert p <= 4.0 * c;
    }
  }

  /** The average does not depend on the order the join returns rows in. */
  lemma WeightedGpaIgnoresOrder(a: seq<CreditRow>, b: seq<CreditRow>)
    requires multiset(a) == multiset(b) && CreditSum(a) > 0.0
    ensures CreditSum(b) > 0.0 && WeightedGpa(a) == WeightedGpa(b)
  {
    SumOfPermutation(a, b, Points);
    SumOfPermutation(a, b, Credits);
  }

  /** When every grade earns the same points, that is the average. */
  lemma {:induction false} UniformPoints(rows: seq<CreditRow>, p: real)
    requires forall i :: 0 <= i < |rows| ==> GradeToGpaPoints(rows[i].grade) == p
    ensures PointsSum(rows) == p * CreditSum(rows)
  {
    if rows != [] {
      UniformPoints(rows[..|rows| - 1], p);
    }
  }

  lemma WeightedGpaUniform(rows: seq<CreditRow>, p: real)
    requires CreditSum(rows) > 0.0
    requires forall i :: 0 <= i < |rows| ==> GradeToGpaPoints(rows[i].grade) == p
    ensures WeightedGpa(rows) == p
  {
    UniformPoints(rows, p);
  }

  /** An A in a 3-credit course and a C in a 4-credit course average 20/7,
      stored as 2.86. */
  lemma WeightedGpaExample()
    ensures var rows := [CreditRow(95.0, 3), CreditRow(75.0, 4)];
      CreditSum(rows) == 7.0 && WeightedGpa(rows) == 20.0 / 7.0 &&
      RoundHalfEven2(WeightedGpa(rows)) == 2.86
  {
    var rows := [CreditRow(95.0, 3), CreditRow(75.0, 4)];
    assert rows[..1] == [CreditRow(95.0, 3)] && rows[..1][..0] == [];
    assert SumOf([CreditRow(95.0, 3)], Credits) == SumOf([], Credits) + Credits(CreditRow(95.0, 3));
    assert SumOf([CreditRow(95.0, 3)], Points) == SumOf([], Points) + Points(CreditRow(95.0, 3));
    assert CreditSum(rows[..1]) == 3.0 && PointsSum(rows[..1]) == 12.0;
    assert CreditSum(rows) == 7.0 && PointsSum(rows) == 20.0;
    assert (20.0 / 7.0 * 100.0).Floor == 285;
  }

  /** UPDATE students SET gpa = ? WHERE id = ?. */
  function SetGpa(ss: seq<Student>, sid: string, gpa: real): (r: seq<Student>)
    ensures |r| == |ss|
  {
    seq(|ss|, i requires 0 <= i < |ss| => if ss[i].id == sid then ss[i].(gpa := gpa) else ss[i])
  }

  /** update_student_gpa: with no joined rows the stored GPA is left as it is;
      otherwise it becomes the weighted average rounded to two places. */
  function Recalculate(t: Tables, sid: string): Tables {
    var rows := CreditRows(t.courses, t.grades, sid);
    if rows == [] || CreditSum(rows) <= 0.0 then t
    else t.(students := SetGpa(t.students, sid, RoundHalfEven2(WeightedGpa(rows))))
  }

  /** The join only sees valid courses and valid grades. */
  lemma {:induction false} CreditRowsValid(cs: seq<Course>, gs: seq<GradeRow>, sid: string)
    requires forall i :: 0 <= i < |cs| ==> 1 <= cs[i].credits <= 6
    requires forall i :: 0 <= i < |gs| ==> ValidGradeRow(gs[i])
    ensures ValidCreditRows(CreditRows(cs, gs, sid))
  {
    if gs != [] {
      CreditRowsValid(cs, gs[1..], sid);
      var rest := CreditRows(cs, gs[1..], sid);
      if gs[0].studentId == sid && FindCourse(cs, gs[0].courseId).Some? {
        var c := FindCourse(cs, gs[0].courseId).value;
        assert c in cs;
        assert ValidGradeRow(gs[0]);
        assert CreditRows(cs, gs, sid) == [CreditRow(gs[0].grade, c.credits)] + rest;
      } else {
        assert CreditRows(cs, gs, sid) == rest;
      }
    }
  }

  /** Under the foreign keys the join drops nothing: one row per grade of the
      student. */
  lemma {:induction false} CreditRowsCount(cs: seq<Course>, gs: seq<GradeRow>, sid: string)
    requires forall i :: 0 <= i < |gs| ==> FindCourse(cs, gs[i].courseId).Some?
    ensures |CreditRows(cs, gs, sid)| == |Filter(gs, OfStudent(sid))|
  {
    if gs != [] {
      CreditRowsCount(cs, gs[1..], sid);
    }
  }

  function OfStudent(sid: string): GradeRow -> bool {
    (g: GradeRow) => g.studentId == sid
  }

  function OfCourse(cid: string): GradeRow -> bool {
    (g: GradeRow) => g.courseId == cid
  }

  /** Recalculation writes one student's gpa field and nothing else. */
  lemma RecalculateOnlyThatStudent(t: Tables, sid: string)
    ensures var r := Recalculate(t, sid);
      && r.courses == t.courses && r.grades == t.grades
      && |r.students| == |t.students|
      && (forall i :: 0 <= i < |t.students| && t.students[i].id != sid ==> r.students[i] == t.students[i])
      && (forall i :: 0 <= i < |t.students| ==> r.students[i] == t.students[i].(gpa := r.students[i].gpa))
  {
  }

  /** The join has no row for a student without grade rows. */
  lemma {:induction false} CreditRowsWithoutGrades(cs: seq<Course>, gs: seq<GradeRow>, sid: string)
    requires forall i :: 0 <= i < |gs| ==> gs[i].studentId != sid
    ensures CreditRows(cs, gs, sid) == []
  {
    if gs != [] {
      CreditRowsWithoutGrades(cs, gs[1..], sid);
    }
  }

  /** A student without grades keeps the stored GPA, whatever else the
      tables hold. */
  lemma RecalculateWithoutGrades(t: Tables, sid: string)
    requires forall i :: 0 <= i < |t.grades| ==> t.grades[i].studentId != sid
    ensures Recalculate(t, sid) == t
  {
    CreditRowsWithoutGrades(t.courses, t.grades, sid);
  }

  /** With grades, the student's GPA becomes the rounded weighted average of
      the grades, which lies on the 0-4 scale. */
  lemma RecalculateSetsGpa(t: Tables, sid: string, i: nat)
    requires Valid(t) && i < |t.students| && t.students[i].id == sid
    requires exists j :: 0 <= j < |t.grades| && t.grades[j].studentId == sid
    ensures var rows := CreditRows(t.courses, t.grades, sid);
      && rows != [] && CreditSum(rows) > 0.0
      && Recalculate(t, sid).students[i].gpa == RoundHalfEven2(WeightedGpa(rows))
      && 0.0 <= Recalculate(t, sid).students[i].gpa <= 4.0
      && -0.005 <= Recalculate(t, sid).students[i].gpa - WeightedGpa(rows) <= 0.005
  {
    var rows := CreditRows(t.courses, t.grades, sid);
    var j :| 0 <= j < |t.grades| && t.grades[j].studentId == sid;
    assert t.grades[j] in Filter(t.grades, OfStudent(sid));
    CreditRowsCount(t.courses, t.grades, sid);
    CreditRowsValid(t.courses, t.grades, sid);
    assert PositiveCredits(rows);
    WeightedGpaInRange(rows);
    var g := RoundHalfEven2(WeightedGpa(rows));
    RoundedGpaInRange(WeightedGpa(rows));
    assert Recalculate(t, sid).students == SetGpa(t.students, sid, g);
    assert SetGpa(t.students, sid, g)[i] == t.students[i].(gpa := g);
  }

  /** Recalculating twice in a row stores the same value as once. */
  lemma RecalculateIdempotent(t: Tables, sid: string)
    ensures Recalculate(Recalculate(t, sid), sid) == Recalculate(t, sid)
  {
    var rows := CreditRows(t.courses, t.grades, sid);
    if rows != [] && CreditSum(rows) > 0.0 {
      var g := RoundHalfEven2(WeightedGpa(rows));
      assert SetGpa(SetGpa(t.students, sid, g), sid, g) == SetGpa(t.students, sid, g);
    }
  }

  /** Writing a GPA on the 0-4 scale keeps the tables valid. */
  lemma SetGpaKeepsValid(t: Tables, sid: string, g: real)
    requires Valid(t) && 0.0 <= g <= 4.0
    ensures Valid(t.(students := SetGpa(t.students, sid, g)))
  {
    var ss := SetGpa(t.students, sid, g);
    assert forall i :: 0 <= i < |ss| ==> ss[i].id == t.students[i].id && ss[i].email == t.students[i].email;
    forall k | 0 <= k < |t.grades|
      ensures FindStudent(ss, t.grades[k].studentId).Some?
    {
      var s := FindStudent(t.students, t.grades[k].studentId).value;
      var m :| 0 <= m < |t.students| && t.students[m] == s;
      assert ss[m].id == s.id;
    }
  }

  lemma RecalculateKeepsValid(t: Tables, sid: string)
    requires Valid(t)
    ensures Valid(Recalculate(t, sid))
  {
    var rows := CreditRows(t.courses, t.grades, sid);
    if rows != [] && CreditSum(rows) > 0.0 {
      CreditRowsValid(t.courses, t.grades, sid);
      WeightedGpaInRange(rows);
      RoundedGpaInRange(WeightedGpa(rows));
      SetGpaKeepsValid(t, sid, RoundHalfEven2(WeightedGpa(rows)));
    }
  }

  // ---------- GradeManager.add ----------

  /** The row recorded for a grade, with its derived letter. */
  function NewGradeRow(sid: string, cid: string, grade: real): GradeRow {
    GradeRow(sid, cid, grade, CalculateLetter(grade))
  }

  /** GradeManager.add: reject a grade outside [0, 100]; otherwise upsert the
      row for (sid, cid) and recalculate that student's GPA. */
  function RecordGrade(t: Tables, sid: string, cid: string, grade: real): (r: Result<Tables>)
    ensures r.Failure? <==> grade < 0.0 || 100.0 < grade
    ensures r.Failure? ==> r.error == Invalid(BadGrade)
  {
    if !(0.0 <= grade <= 100.0) then Failure(Invalid(BadGrade))
    else Success(Recalculate(t.(grades := Upsert(t.grades, NewGradeRow(sid, cid, grade))), sid))
  }

  lemma UpsertKeepsValid(t: Tables, row: GradeRow)
    requires Valid(t) && ValidGradeRow(row)
    requires FindStudent(t.students, row.studentId).Some? && FindCourse(t.courses, row.courseId).Some?
    ensures Valid(t.(grades := Upsert(t.grades, row)))
  {
    var gs := Upsert(t.grades, row);
    UpsertKeepsDistinct(t.grades, row);
    forall i | 0 <= i < |gs|
      ensures ValidGradeRow(gs[i])
      ensures FindStudent(t.students, gs[i].studentId).Some? && FindCourse(t.courses, gs[i].courseId).Some?
    {
      assert gs[i] in gs;
      if gs[i] != row {
        var k :| 0 <= k < |t.grades| && t.grades[k] == gs[i];
      }
    }
    assert GradesValid(t.students, t.courses, gs);
  }

  /** The upsert keeps (student, course) unique, and its rows are the old
      rows and the new one. */
  lemma UpsertKeepsDistinct(gs: seq<GradeRow>, row: GradeRow)
    requires Distinct(gs, PairOf)
    ensures Distinct(Upsert(gs, row), PairOf)
    ensures forall g :: g in Upsert(gs, row) ==> g in gs || g == row
  {
    var kept := Filter(gs, OtherPair(row));
    var r := Upsert(gs, row);
    assert r == kept + [row];
    FilterKeepsDistinct(gs, OtherPair(row), PairOf);
    forall i, j | 0 <= i < j < |r| ensures PairOf(r[i]) != PairOf(r[j]) {
      assert r[i] == kept[i];
      if j == |kept| {
        assert kept[i] in kept;
      } else {
        assert r[j] == kept[j];
      }
    }
  }

  /** After recording, the pair (sid, cid) has exactly one row, holding the
      new grade and its letter, and every other pair's rows are as before. */
  lemma RecordGradeStoresOneRow(t: Tables, sid: string, cid: string, grade: real)
    requires 0.0 <= grade <= 100.0
    ensures RecordGrade(t, sid, cid, grade).Success?
    ensures var r := RecordGrade(t, sid, cid, grade).value;
      var row := GradeRow(sid, cid, grade, CalculateLetter(grade));
      && r.grades[|r.grades| - 1] == row
      && (forall i :: 0 <= i < |r.grades| ==> (PairOf(r.grades[i]) == (sid, cid) <==> i == |r.grades| - 1))
      && Filter(r.grades, OtherPair(row)) == Filter(t.grades, OtherPair(row))
      && r.courses == t.courses
  {
    var row := NewGradeRow(sid, cid, grade);
    UpsertLeavesOneRow(t.grades, row);
    UpsertKeepsOtherRows(t.grades, row);
    RecalculateOnlyThatStudent(t.(grades := Upsert(t.grades, row)), sid);
  }

  lemma RecordGradeKeepsValid(t: Tables, sid: string, cid: string, grade: real)
    requires Valid(t) && 0.0 <= grade <= 100.0
    requires FindStudent(t.students, sid).Some? && FindCourse(t.courses, cid).Some?
    ensures RecordGrade(t, sid, cid, grade).Success?
    ensures Valid(RecordGrade(t, sid, cid, grade).value)
  {
    var t' := t.(grades := Upsert(t.grades, NewGradeRow(sid, cid, grade)));
    UpsertKeepsValid(t, NewGradeRow(sid, cid, grade));
    RecalculateKeepsValid(t', sid);
  }

  /** After recording, the student's GPA is the rounded weighted average over
      the student's grades as they now stand, so it reflects the latest grade
      for the pair only. */
  lemma RecordGradeSetsGpa(t: Tables, sid: string, cid: string, grade: real, i: nat)
    requires Valid(t) && 0.0 <= grade <= 100.0
    requires i < |t.students| && t.students[i].id == sid && FindCourse(t.courses, cid).Some?
    ensures RecordGrade(t, sid, cid, grade).Success?
    ensures var r := RecordGrade(t, sid, cid, grade).value;
      var rows := CreditRows(r.courses, r.grades, sid);
      && rows != [] && CreditSum(rows) > 0.0
      && r.students[i].gpa == RoundHalfEven2(WeightedGpa(rows))
      && 0.0 <= r.students[i].gpa <= 4.0
  {
    var row := NewGradeRow(sid, cid, grade);
    var t' := t.(grades := Upsert(t.grades, row));
    assert FindStudent(t.students, sid).Some?;
    UpsertKeepsValid(t, row);
    assert t'.grades[|t'.grades| - 1] == row;
    RecalculateSetsGpa(t', sid, i);
    RecalculateOnlyThatStudent(t', sid);
  }

  // ---------- CourseManager.delete and StudentManager.delete ----------

  function OtherCourse(cid: string): Course -> bool {
    (c: Course) => c.id != cid
  }

  function NotOfCourse(cid: string): GradeRow -> bool {
    (g: GradeRow) => g.courseId != cid
  }

  function OtherStudent(sid: string): Student -> bool {
    (s: Student) => s.id != sid
  }

  function NotOfStudent(sid: string): GradeRow -> bool {
    (g: GradeRow) => g.studentId != sid
  }

  /** DELETE FROM courses WHERE id = cid, with ON DELETE CASCADE removing the
      course's grades. Cached GPAs are not recalculated. */
  function CascadeDeleteCourse(t: Tables, cid: string): Tables {
    Tables(t.students, Filter(t.courses, OtherCourse(cid)), Filter(t.grades, NotOfCourse(cid)))
  }

  /** DELETE FROM students WHERE id = sid, with ON DELETE CASCADE removing the
      student's grades. */
  function CascadeDeleteStudent(t: Tables, sid: string): Tables {
    Tables(Filter(t.students, OtherStudent(sid)), t.courses, Filter(t.grades, NotOfStudent(sid)))
  }

  /** The course delete as it runs on a connection that never enabled
      foreign-key enforcement: only the course row goes. */
  function DeleteCourseWithoutForeignKeys(t: Tables, cid: string): Tables {
    t.(courses := Filter(t.courses, OtherCourse(cid)))
  }

  /** The student delete on the same connection: only the student row goes. */
  function DeleteStudentWithoutForeignKeys(t: Tables, sid: string): Tables {
    t.(students := Filter(t.students, OtherStudent(sid)))
  }

  /** The course is gone, so are all of its grades and nothing else, and the
      cached GPAs stay as they were. */
  lemma CascadeDeleteCourseEffect(t: Tables, cid: string)
    ensures var r := CascadeDeleteCourse(t, cid);
      && FindCourse(r.courses, cid).None?
      && (forall i :: 0 <= i < |r.grades| ==> r.grades[i].courseId != cid)
      && (forall g :: g in r.grades <==> g in t.grades && g.courseId != cid)
      && (forall c :: c in r.courses <==> c in t.courses && c.id != cid)
      && r.students == t.students
  {
    var r := CascadeDeleteCourse(t, cid);
    forall i | 0 <= i < |r.grades| ensures r.grades[i].courseId != cid {
      assert r.grades[i] in r.grades;
    }
    forall i | 0 <= i < |r.courses| ensures r.courses[i].id != cid {
      assert r.courses[i] in r.courses;
    }
  }

  lemma CascadeDeleteCourseKeepsValid(t: Tables, cid: string)
    requires Valid(t)
    ensures Valid(CascadeDeleteCourse(t, cid))
  {
    var r := CascadeDeleteCourse(t, cid);
    FilterKeepsDistinct(t.courses, OtherCourse(cid), CourseKey);
    FilterKeepsDistinct(t.grades, NotOfCourse(cid), PairOf);
    forall k | 0 <= k < |r.courses| ensures 1 <= r.courses[k].credits <= 6 {
      assert r.courses[k] in r.courses;
    }
    assert CoursesValid(r.courses);
    forall k | 0 <= k < |r.grades|
      ensures ValidGradeRow(r.grades[k])
      ensures FindStudent(r.students, r.grades[k].studentId).Some?
      ensures FindCourse(r.courses, r.grades[k].courseId).Some?
    {
      var g := r.grades[k];
      assert g in r.grades;
      var j :| 0 <= j < |t.grades| && t.grades[j] == g;
      FindCourseAfterDelete(t.courses, cid, g.courseId);
    }
    assert GradesValid(r.students, r.courses, r.grades);
  }

  lemma CascadeDeleteStudentEffect(t: Tables, sid: string)
    ensures var r := CascadeDeleteStudent(t, sid);
      && FindStudent(r.students, sid).None?
      && (forall i :: 0 <= i < |r.grades| ==> r.grades[i].studentId != sid)
      && (forall g :: g in r.grades <==> g in t.grades && g.studentId != sid)
      && (forall s :: s in r.students <==> s in t.students && s.id != sid)
      && r.courses == t.courses
  {
    var r := CascadeDeleteStudent(t, sid);
    forall i | 0 <= i < |r.grades| ensures r.grades[i].studentId != sid {
      assert r.grades[i] in r.grades;
    }
    forall i | 0 <= i < |r.students| ensures r.students[i].id != sid {
      assert r.students[i] in r.students;
    }
  }

  lemma CascadeDeleteStudentKeepsValid(t: Tables, sid: string)
    requires Valid(t)
    ensures Valid(CascadeDeleteStudent(t, sid))
  {
    var r := CascadeDeleteStudent(t, sid);
    FilterKeepsDistinct(t.students, OtherStudent(sid), StudentKey);
    FilterKeepsDistinct(t.grades, NotOfStudent(sid), PairOf);
    FilterKeepsUniqueEmails(t.students, OtherStudent(sid));
    forall k | 0 <= k < |r.grades|
      ensures ValidGradeRow(r.grades[k])
      ensures FindStudent(r.students, r.grades[k].studentId).Some?
      ensures FindCourse(r.courses, r.grades[k].courseId).Some?
    {
      var g := r.grades[k];
      assert g in r.grades;
      var j :| 0 <= j < |t.grades| && t.grades[j] == g;
      FindStudentAfterDelete(t.students, sid, g.studentId);
    }
    assert GradesValid(r.students, r.courses, r.grades);
    forall k | 0 <= k < |r.students| ensures 0.0 <= r.students[k].gpa <= 4.0 {
      assert r.students[k] in r.students;
    }
    assert StudentsValid(r.students);
  }

  /** Dropping other courses does not change which course an id finds. */
  lemma {:induction false} FindCourseAfterDelete(cs: seq<Course>, cid: string, id: string)
    requires id != cid
    ensures FindCourse(Filter(cs, OtherCourse(cid)), id) == FindCourse(cs, id)
  {
    if cs != [] {
      FindCourseAfterDelete(cs[1..], cid, id);
      var rest := Filter(cs[1..], OtherCourse(cid));
      if cs[0].id == cid {
        assert Filter(cs, OtherCourse(cid)) == rest;
      } else {
        assert Filter(cs, OtherCourse(cid)) == [cs[0]] + rest;
        assert ([cs[0]] + rest)[1..] == rest;
      }
    }
  }

  /** Dropping other students does not change which student an id finds. */
  lemma {:induction false} FindStudentAfterDelete(ss: seq<Student>, sid: string, id: string)
    requires id != sid
    ensures FindStudent(Filter(ss, OtherStudent(sid)), id) == FindStudent(ss, id)
  {
    if ss != [] {
      FindStudentAfterDelete(ss[1..], sid, id);
      var rest := Filter(ss[1..], OtherStudent(sid));
      if ss[0].id == sid {
        assert Filter(ss, OtherStudent(sid)) == rest;
      } else {
        assert Filter(ss, OtherStudent(sid)) == [ss[0]] + rest;
        assert ([ss[0]] + rest)[1..] == rest;
      }
    }
  }

  /** After a course is deleted with its grades, recalculating a student's
      GPA weighs exactly the grades the student has left. */
  lemma {:induction false} CreditRowsAfterDelete(cs: seq<Course>, gs: seq<GradeRow>, cid: string, sid: string)
    ensures CreditRows(Filter(cs, OtherCourse(cid)), Filter(gs, NotOfCourse(cid)), sid)
            == CreditRows(cs, Filter(gs, NotOfCourse(cid)), sid)
  {
    if gs != [] {
      CreditRowsAfterDelete(cs, gs[1..], cid, sid);
      var rest := Filter(gs[1..], NotOfCourse(cid));
      if gs[0].courseId != cid {
        FindCourseAfterDelete(cs, cid, gs[0].courseId);
        assert Filter(gs, NotOfCourse(cid)) == [gs[0]] + rest;
        assert ([gs[0]] + rest)[1..] == rest;
      } else {
        assert Filter(gs, NotOfCourse(cid)) == rest;
      }
    }
  }

  // ---------- Worked cases ----------

  const Ada := Student("S001", "Ada", None, "CS", 2024, 0.0, Active)
  const Algebra := Course("C101", "Algebra", "Fall", 3, "", 30)

  /** A first grade of 55 for (S001, C101) is stored with an F, and the GPA
      becomes 0.0. */
  lemma FirstGradeStored()
    ensures RecordGrade(Tables([Ada], [Algebra], []), "S001", "C101", 55.0)
            == Success(Tables([Ada], [Algebra], [GradeRow("S001", "C101", 55.0, F)]))
  {
    var row1 := GradeRow("S001", "C101", 55.0, F);
    assert Upsert([], row1) == [row1];
    assert CreditRows([Algebra], [row1], "S001") == [CreditRow(55.0, 3)] by {
      assert [row1][1..] == [];
    }
    SumOfSingle(CreditRow(55.0, 3), Credits);
    SumOfSingle(CreditRow(55.0, 3), Points);
    assert RoundHalfEven2(0.0) == 0.0;
    assert SetGpa([Ada], "S001", 0.0) == [Ada];
  }

  /** Recording 91 over that 55 leaves one row, 91 with an A, and a GPA that
      reflects only the latest grade. */
  lemma ReRecordingOverwrites()
    ensures RecordGrade(Tables([Ada], [Algebra], [GradeRow("S001", "C101", 55.0, F)]), "S001", "C101", 91.0)
            == Success(Tables([Ada.(gpa := 4.0)], [Algebra], [GradeRow("S001", "C101", 91.0, A)]))
  {
    var row1 := GradeRow("S001", "C101", 55.0, F);
    var row2 := GradeRow("S001", "C101", 91.0, A);
    assert Filter([row1], OtherPair(row2)) == [] by { assert [row1][1..] == []; }
    assert Upsert([row1], row2) == [row2];
    assert CreditRows([Algebra], [row2], "S001") == [CreditRow(91.0, 3)] by {
      assert [row2][1..] == [];
    }
    SumOfSingle(CreditRow(91.0, 3), Credits);
    SumOfSingle(CreditRow(91.0, 3), Points);
    assert (4.0 * 100.0).Floor == 400;
    assert RoundHalfEven2(4.0) == 4.0;
    assert SetGpa([Ada], "S001", 4.0) == [Ada.(gpa := 4.0)];
  }

  /** The store of the worked cases: Ada with an A in Algebra. */
  const GradedStore := Tables([Ada.(gpa := 4.0)], [Algebra], [GradeRow("S001", "C101", 91.0, A)])

  lemma GradedStoreIsValid()
    ensures Valid(GradedStore)
  {
    assert ValidGradeRow(GradedStore.grades[0]);
  }

  /** Without foreign-key enforcement, deleting a course leaves its grades
      behind, pointing at a course that no longer exists; with the cascade the
      tables stay valid. */
  lemma ForeignKeysOffLeaveOrphans()
    ensures Valid(GradedStore)
    ensures DeleteCourseWithoutForeignKeys(GradedStore, "C101").courses == []
    ensures DeleteCourseWithoutForeignKeys(GradedStore, "C101").grades == GradedStore.grades
    ensures !Valid(DeleteCourseWithoutForeignKeys(GradedStore, "C101"))
    ensures Valid(CascadeDeleteCourse(GradedStore, "C101"))
    ensures CascadeDeleteCourse(GradedStore, "C101").grades == []
  {
    GradedStoreIsValid();
    assert Filter(GradedStore.courses, OtherCourse("C101")) == [] by { assert GradedStore.courses[1..] == []; }
    assert Filter(GradedStore.grades, NotOfCourse("C101")) == [] by { assert GradedStore.grades[1..] == []; }
    assert FindCourse([], "C101").None?;
    CascadeDeleteCourseKeepsValid(GradedStore, "C101");
  }

  /** Without foreign-key enforcement, deleting a student leaves the
      student's grades behind, pointing at a student who no longer exists;
      with the cascade the tables stay valid. */
  lemma StudentForeignKeysOffLeaveOrphans()
    ensures Valid(GradedStore)
    ensures DeleteStudentWithoutForeignKeys(GradedStore, "S001").students == []
    ensures DeleteStudentWithoutForeignKeys(GradedStore, "S001").grades == GradedStore.grades
    ensures !Valid(DeleteStudentWithoutForeignKeys(GradedStore, "S001"))
    ensures Valid(CascadeDeleteStudent(GradedStore, "S001"))
    ensures CascadeDeleteStudent(GradedStore, "S001").grades == []
  {
    GradedStoreIsValid();
    assert Filter(GradedStore.students, OtherStudent("S001")) == [] by { assert GradedStore.students[1..] == []; }
    assert Filter(GradedStore.grades, NotOfStudent("S001")) == [] by { assert GradedStore.grades[1..] == []; }
    assert FindStudent([], "S001").None?;
    CascadeDeleteStudentKeepsValid(GradedStore, "S001");
  }
}

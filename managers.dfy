/** The managers of managers.py acting on one shared store. Every method that
    changes the tables keeps the schema's constraints. The deletes, recording
    a grade and the GPA update are proved to leave the tables in the state the
    matching transition of module Engine describes; the two inserts state the
    appended row in their own postconditions. */
module Managers {
  import opened Errors
  import opened Grading
  import opened Seqs
  import opened Schema
  import opened Engine

  /** The store (database.py): the students, courses and grades tables. */
  class Database {
    var students: seq<Student>
    var courses: seq<Course>
    var grades: seq<GradeRow>

    function State(): Tables
      reads this
    {
      Tables(students, courses, grades)
    }

    predicate Valid()
      reads this
    {
      Schema.Valid(State())
    }

    /** A freshly initialised store: every table empty. */
    constructor ()
      ensures Valid() && State() == Tables([], [], [])
    {
      students, courses, grades := [], [], [];
    }

    /** StudentManager.add: check the id, the name and the email, then insert
        the student with GPA 0.0 and status active. The insert fails when the
        id, or a given email, is already taken. */
    method AddStudent(sid: string, name: string, email: string, major: string, year: int,
                      emailMatches: string -> bool)
      returns (res: Outcome)
      requires Valid()
      modifies this
      ensures Valid()
      ensures courses == old(courses) && grades == old(grades)
      ensures CheckStudent(sid, name, email, emailMatches).Fail? ==>
                res == CheckStudent(sid, name, email, emailMatches) && students == old(students)
      ensures CheckStudent(sid, name, email, emailMatches) == Ok && FindStudent(old(students), sid).Some? ==>
                res == Fail(Conflict(StudentIdTaken)) && students == old(students)
      ensures CheckStudent(sid, name, email, emailMatches) == Ok && FindStudent(old(students), sid).None? &&
              email != "" && EmailTaken(old(students), email) ==>
                res == Fail(Conflict(StudentEmailTaken)) && students == old(students)
      ensures res == Ok <==>
                CheckStudent(sid, name, email, emailMatches) == Ok && FindStudent(old(students), sid).None? &&
                !(email != "" && EmailTaken(old(students), email))
      ensures res == Ok ==>
                students == old(students) +
                  [Student(sid, name, if email == "" then None else Some(email), major, year, 0.0, Active)]
    {
      res := CheckStudent(sid, name, email, emailMatches);
      if res.Fail? {
        return;
      }
      if FindStudent(students, sid).Some? {
        res := Fail(Conflict(StudentIdTaken));
        return;
      }
      if email != "" && EmailTaken(students, email) {
        res := Fail(Conflict(StudentEmailTaken));
        return;
      }
      var s := Student(sid, name, if email == "" then None else Some(email), major, year, 0.0, Active);
      AppendStudentKeepsValid(State(), s);
      students := students + [s];
    }

    /** CourseManager.add: check the required fields and the credits, then
        insert the course with capacity 30. The insert fails when the id is
        already taken. */
    method AddCourse(cid: string, name: string, semester: string, credits: int, instructor: string)
      returns (res: Outcome)
      requires Valid()
      modifies this
      ensures Valid()
      ensures students == old(students) && grades == old(grades)
      ensures CheckCourse(cid, name, semester, credits).Fail? ==>
                res == CheckCourse(cid, name, semester, credits) && courses == old(courses)
      ensures CheckCourse(cid, name, semester, credits) == Ok && FindCourse(old(courses), cid).Some? ==>
                res == Fail(Conflict(CourseIdTaken)) && courses == old(courses)
      ensures res == Ok <==> CheckCourse(cid, name, semester, credits) == Ok && FindCourse(old(courses), cid).None?
      ensures res == Ok ==> courses == old(courses) + [Course(cid, name, semester, credits, instructor, 30)]
    {
      res := CheckCourse(cid, name, semester, credits);
      if res.Fail? {
        return;
      }
      if FindCourse(courses, cid).Some? {
        res := Fail(Conflict(CourseIdTaken));
        return;
      }
      var c := Course(cid, name, semester, credits, instructor, 30);
      AppendCourseKeepsValid(State(), c);
      courses := courses + [c];
    }

    /** CourseManager.delete: a missing course is reported; otherwise the
        course and, through the cascade, its grades are deleted, and its name
        is returned. GPAs are not recalculated. */
    method DeleteCourse(cid: string) returns (res: Result<string>)
      requires Valid()
      modifies this
      ensures Valid()
      ensures res.Failure? <==> FindCourse(old(courses), cid).None?
      ensures res.Failure? ==> res.error == NotFound("Course " + cid + " not found") && unchanged(this)
      ensures res.Success? ==>
                res.value == FindCourse(old(courses), cid).value.name &&
                State() == CascadeDeleteCourse(old(State()), cid)
    {
      var found := FindCourse(courses, cid);
      if found.None? {
        return Failure(NotFound("Course " + cid + " not found"));
      }
      CascadeDeleteCourseKeepsValid(State(), cid);
      courses := Filter(courses, OtherCourse(cid));
      grades := Filter(grades, NotOfCourse(cid));
      res := Success(found.value.name);
    }

    /** StudentManager.delete: a missing student is reported; otherwise the
        student and, through the cascade, their grades are deleted, and the
        name is returned. */
    method DeleteStudent(sid: string) returns (res: Result<string>)
      requires Valid()
      modifies this
      ensures Valid()
      ensures res.Failure? <==> FindStudent(old(students), sid).None?
      ensures res.Failure? ==> res.error == NotFound("Student " + sid + " not found") && unchanged(this)
      ensures res.Success? ==>
                res.value == FindStudent(old(students), sid).value.name &&
                State() == CascadeDeleteStudent(old(State()), sid)
    {
      var found := FindStudent(students, sid);
      if found.None? {
        return Failure(NotFound("Student " + sid + " not found"));
      }
      CascadeDeleteStudentKeepsValid(State(), sid);
      students := Filter(students, OtherStudent(sid));
      grades := Filter(grades, NotOfStudent(sid));
      res := Success(found.value.name);
    }

    /** GradeManager.add. The caller has checked that the student and the
        course exist, as the grade form does before it calls this. A grade
        outside [0, 100] is rejected and nothing changes; otherwise the row
        for the pair is upserted and the student's GPA recalculated. */
    method AddGrade(sid: string, cid: string, grade: real) returns (res: Outcome)
      requires Valid()
      requires FindStudent(students, sid).Some? && FindCourse(courses, cid).Some?
      modifies this
      ensures Valid()
      ensures !(0.0 <= grade <= 100.0) ==> res == Fail(Invalid(BadGrade)) && unchanged(this)
      ensures 0.0 <= grade <= 100.0 ==>
                res == Ok && RecordGrade(old(State()), sid, cid, grade).Success? &&
                State() == RecordGrade(old(State()), sid, cid, grade).value
    {
      if !(0.0 <= grade <= 100.0) {
        return Fail(Invalid(BadGrade));
      }
      var letter := CalculateLetter(grade);
      UpsertKeepsValid(State(), GradeRow(sid, cid, grade, letter));
      grades := Upsert(grades, GradeRow(sid, cid, grade, letter));
      UpdateStudentGpa(sid);
      res := Ok;
    }

    /** GradeManager.update_student_gpa: total the grade points times credits
        and the credits over the student's grades, then store the rounded
        quotient; a student with no grades keeps the stored GPA. */
    method UpdateStudentGpa(sid: string)
      requires Valid()
      modifies this
      ensures Valid()
      ensures State() == Recalculate(old(State()), sid)
    {
      ghost var before := State();
      RecalculateKeepsValid(before, sid);
      var rows := CreditRows(courses, grades, sid);
      if rows == [] {
        assert Recalculate(before, sid) == before;
        return;
      }
      var totalPoints, totalCredits := 0.0, 0;
      for i := 0 to |rows|
        invariant State() == before
        invariant totalPoints == PointsSum(rows[..i])
        invariant totalCredits as real == CreditSum(rows[..i])
      {
        SumStep(rows, i);
        totalPoints := totalPoints + GradeToGpaPoints(rows[i].grade) * rows[i].credits as real;
        totalCredits := totalCredits + rows[i].credits;
      }
      assert rows[..|rows|] == rows;
      if totalCredits > 0 {
        var gpa := totalPoints / totalCredits as real;
        assert gpa == WeightedGpa(rows);
        students := SetGpa(students, sid, RoundHalfEven2(gpa));
        assert State() == before.(students := SetGpa(before.students, sid, RoundHalfEven2(WeightedGpa(rows))));
      } else {
        assert Recalculate(before, sid) == before;
      }
    }
  }

  /** One more row adds its points and its credits to the running sums. */
  lemma SumStep(rows: seq<CreditRow>, i: nat)
    requires i < |rows|
    ensures PointsSum(rows[..i + 1]) == PointsSum(rows[..i]) + GradeToGpaPoints(rows[i].grade) * rows[i].credits as real
    ensures CreditSum(rows[..i + 1]) == CreditSum(rows[..i]) + rows[i].credits as real
  {
    assert rows[..i + 1][..i] == rows[..i];
  }
}

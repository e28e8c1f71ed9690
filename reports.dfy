/** The read-only reports of managers.py (GradeManager.get_failing_students
    and the Analytics queries) as functions of the tables. Rows come out in the
    order the query's ORDER BY gives; rows that tie keep their storage order. */
module Reports {
  import opened Errors
  import opened Grading
  import opened Seqs
  import opened Schema
  import opened Collation
  import opened Engine

  /* ---------------- Failing students ---------------- */

  /** One row of the failing-students report. */
  datatype FailingRow = FailingRow(
    studentName: string,
    studentId: string,
    email: Option<string>,
    courseName: string,
    grade: real,
    letter: Letter)

  /** The report row a grade row yields: present when the grade is below 60
      and both inner joins find their row (each join is on a primary key, so
      it finds at most one). */
  function FailingRowOf(t: Tables, g: GradeRow): Option<FailingRow> {
    var s := FindStudent(t.students, g.studentId);
    var c := FindCourse(t.courses, g.courseId);
    if g.grade < 60.0 && s.Some? && c.Some? then
      Some(FailingRow(s.value.name, s.value.id, s.value.email, c.value.name, g.grade, g.letter))
    else None
  }

  /** The joined and filtered rows in the order of `gs`. */
  function FailingJoin(t: Tables, gs: seq<GradeRow>): (r: seq<FailingRow>)
    ensures |r| <= |gs|
  {
    if gs == [] then []
    else
      (if FailingRowOf(t, gs[0]).Some? then [FailingRowOf(t, gs[0]).value] else [])
      + FailingJoin(t, gs[1..])
  }

  /** ORDER BY s.name, c.name. */
  function FailingBefore(a: FailingRow, b: FailingRow): bool {
    PairLe(a.studentName, a.courseName, b.studentName, b.courseName)
  }

  function FailingStudents(t: Tables): seq<FailingRow> {
    SortBy(FailingJoin(t, t.grades), FailingBefore)
  }

  lemma FailingBeforeIsOrder()
    ensures Total(FailingBefore) && Transitive(FailingBefore)
  {
    forall a: FailingRow, b: FailingRow ensures FailingBefore(a, b) || FailingBefore(b, a) {
      PairLeTotal(a.studentName, a.courseName, b.studentName, b.courseName);
    }
    forall a: FailingRow, b: FailingRow, c: FailingRow | FailingBefore(a, b) && FailingBefore(b, c)
      ensures FailingBefore(a, c)
    {
      PairLeTransitive(a.studentName, a.courseName, b.studentName, b.courseName, c.studentName, c.courseName);
    }
  }

  /** The report is ordered by student name, then course name. */
  lemma FailingStudentsOrdered(t: Tables)
    ensures forall i, j :: 0 <= i < j < |FailingStudents(t)| ==>
              PairLe(FailingStudents(t)[i].studentName, FailingStudents(t)[i].courseName,
                     FailingStudents(t)[j].studentName, FailingStudents(t)[j].courseName)
  {
    FailingBeforeIsOrder();
    SortBySorted(FailingJoin(t, t.grades), FailingBefore);
    SortedPairwise(FailingStudents(t), FailingBefore);
  }

  lemma {:induction false} FailingJoinHas(t: Tables, gs: seq<GradeRow>, g: GradeRow)
    requires g in gs && FailingRowOf(t, g).Some?
    ensures FailingRowOf(t, g).value in FailingJoin(t, gs)
  {
    if gs[0] != g {
      FailingJoinHas(t, gs[1..], g);
    }
  }

  lemma {:induction false} FailingJoinFrom(t: Tables, gs: seq<GradeRow>, f: FailingRow)
    requires f in FailingJoin(t, gs)
    ensures exists g :: g in gs && FailingRowOf(t, g) == Some(f)
  {
    if !(FailingRowOf(t, gs[0]).Some? && f == FailingRowOf(t, gs[0]).value) {
      FailingJoinFrom(t, gs[1..], f);
      var g :| g in gs[1..] && FailingRowOf(t, g) == Some(f);
      assert g in gs;
    }
  }

  /** A row is in the report exactly when some grade row below 60 yields it. */
  lemma FailingStudentsMembers(t: Tables, f: FailingRow)
    ensures f in FailingStudents(t) <==> exists g :: g in t.grades && FailingRowOf(t, g) == Some(f)
  {
    assert f in FailingStudents(t) <==> f in FailingJoin(t, t.grades) by {
      assert multiset(FailingStudents(t)) == multiset(FailingJoin(t, t.grades));
      assert f in FailingStudents(t) <==> f in multiset(FailingStudents(t));
      assert f in FailingJoin(t, t.grades) <==> f in multiset(FailingJoin(t, t.grades));
    }
    if f in FailingJoin(t, t.grades) {
      FailingJoinFrom(t, t.grades, f);
    }
    if g :| g in t.grades && FailingRowOf(t, g) == Some(f) {
      FailingJoinHas(t, t.grades, g);
    }
  }

  function IsFailing(g: GradeRow): bool {
    g.grade < 60.0
  }

  /** A valid grade row that joins yields a report row exactly when it is
      below 60, and that row is an F. */
  lemma FailingRowOfValid(t: Tables, g: GradeRow)
    requires ValidGradeRow(g)
    requires FindStudent(t.students, g.studentId).Some? && FindCourse(t.courses, g.courseId).Some?
    ensures FailingRowOf(t, g).Some? <==> IsFailing(g)
    ensures FailingRowOf(t, g).Some? ==> FailingRowOf(t, g).value.letter == F && 0.0 <= FailingRowOf(t, g).value.grade < 60.0
  {
  }

  /** On a store that keeps its constraints every grade below 60 appears once,
      with the letter F. */
  lemma {:induction false} FailingJoinValid(t: Tables, gs: seq<GradeRow>)
    requires forall i :: 0 <= i < |gs| ==>
               && ValidGradeRow(gs[i])
               && FindStudent(t.students, gs[i].studentId).Some?
               && FindCourse(t.courses, gs[i].courseId).Some?
    ensures |FailingJoin(t, gs)| == |Filter(gs, IsFailing)|
    ensures forall i :: 0 <= i < |FailingJoin(t, gs)| ==>
              FailingJoin(t, gs)[i].letter == F && 0.0 <= FailingJoin(t, gs)[i].grade < 60.0
  {
    if gs != [] {
      FailingJoinValid(t, gs[1..]);
      FailingRowOfValid(t, gs[0]);
      var head: seq<FailingRow> := if FailingRowOf(t, gs[0]).Some? then [FailingRowOf(t, gs[0]).value] else [];
      assert FailingJoin(t, gs) == head + FailingJoin(t, gs[1..]);
      assert |head| == (if IsFailing(gs[0]) then 1 else 0);
    }
    forall i | 0 <= i < |FailingJoin(t, gs)|
      ensures FailingJoin(t, gs)[i].letter == F && 0.0 <= FailingJoin(t, gs)[i].grade < 60.0
    {
      var f := FailingJoin(t, gs)[i];
      FailingJoinFrom(t, gs, f);
      var g :| g in gs && FailingRowOf(t, g) == Some(f);
      var k :| 0 <= k < |gs| && gs[k] == g;
      FailingRowOfValid(t, g);
    }
  }

  lemma FailingStudentsValid(t: Tables)
    requires Valid(t)
    ensures |FailingStudents(t)| == |Filter(t.grades, IsFailing)|
    ensures forall f :: f in FailingStudents(t) ==> f.letter == F && 0.0 <= f.grade < 60.0
  {
    FailingJoinValid(t, t.grades);
    var j := FailingJoin(t, t.grades);
    assert |multiset(FailingStudents(t))| == |multiset(j)|;
    forall f | f in FailingStudents(t) ensures f.letter == F && 0.0 <= f.grade < 60.0 {
      assert f in multiset(j);
      var i :| 0 <= i < |j| && j[i] == f;
    }
  }

  /** The grade rows that yield report row `f`. */
  function YieldsFailing(t: Tables, f: FailingRow): GradeRow -> bool {
    (g: GradeRow) => FailingRowOf(t, g) == Some(f)
  }

  lemma {:induction false} FailingJoinMultiplicity(t: Tables, gs: seq<GradeRow>, f: FailingRow)
    ensures multiset(FailingJoin(t, gs))[f] == |Filter(gs, YieldsFailing(t, f))|
  {
    if gs != [] {
      FailingJoinMultiplicity(t, gs[1..], f);
      var head := if FailingRowOf(t, gs[0]).Some? then [FailingRowOf(t, gs[0]).value] else [];
      assert FailingJoin(t, gs) == head + FailingJoin(t, gs[1..]);
      assert multiset(head)[f] == if YieldsFailing(t, f)(gs[0]) then 1 else 0;
    }
  }

  /** Each report row occurs exactly as many times as there are grade rows
      that yield it: the sort neither drops nor repeats a row. */
  lemma FailingStudentsMultiplicity(t: Tables, f: FailingRow)
    ensures multiset(FailingStudents(t))[f] == |Filter(t.grades, YieldsFailing(t, f))|
  {
    FailingJoinMultiplicity(t, t.grades, f);
  }

  /* ---------------- GPA rankings ---------------- */

  /** One row of the GPA rankings: the student, the cached GPA and the number
      of grade rows recorded for them. */
  datatype RankRow = RankRow(name: string, id: string, gpa: real, courses: nat)

  /** The correlated COUNT(*) over `grades`. It has no join, so a grade row
      whose course no longer exists is still counted. */
  function CourseCount(gs: seq<GradeRow>, sid: string): nat {
    |Filter(gs, OfStudent(sid))|
  }

  function RankRowOf(t: Tables, s: Student): RankRow {
    RankRow(s.name, s.id, s.gpa, CourseCount(t.grades, s.id))
  }

  function HasGpa(s: Student): bool {
    s.gpa > 0.0
  }

  /** WHERE gpa > 0, in storage order. */
  function Ranked(t: Tables, ss: seq<Student>): (r: seq<RankRow>)
    ensures |r| == |Filter(ss, HasGpa)|
  {
    if ss == [] then []
    else (if HasGpa(ss[0]) then [RankRowOf(t, ss[0])] else []) + Ranked(t, ss[1..])
  }

  /** ORDER BY gpa DESC. */
  function GpaBefore(a: RankRow, b: RankRow): bool {
    a.gpa >= b.gpa
  }

  function GpaRankings(t: Tables): seq<RankRow> {
    SortBy(Ranked(t, t.students), GpaBefore)
  }

  /** The rankings run from the highest GPA down. */
  lemma GpaRankingsOrdered(t: Tables)
    ensures forall i, j :: 0 <= i < j < |GpaRankings(t)| ==> GpaRankings(t)[i].gpa >= GpaRankings(t)[j].gpa
  {
    assert Total(GpaBefore) && Transitive(GpaBefore);
    SortBySorted(Ranked(t, t.students), GpaBefore);
    SortedPairwise(GpaRankings(t), GpaBefore);
  }

  lemma {:induction false} RankedHas(t: Tables, ss: seq<Student>, s: Student)
    requires s in ss && s.gpa > 0.0
    ensures RankRowOf(t, s) in Ranked(t, ss)
  {
    if ss[0] != s {
      RankedHas(t, ss[1..], s);
    }
  }

  lemma {:induction false} RankedFrom(t: Tables, ss: seq<Student>, x: RankRow)
    requires x in Ranked(t, ss)
    ensures exists s :: s in ss && s.gpa > 0.0 && x == RankRowOf(t, s)
  {
    if !(HasGpa(ss[0]) && x == RankRowOf(t, ss[0])) {
      RankedFrom(t, ss[1..], x);
      var s :| s in ss[1..] && s.gpa > 0.0 && x == RankRowOf(t, s);
      assert s in ss;
    }
  }

  /** The rankings list exactly the students with a positive GPA, each once
      per row of the table, with their grade-row count. */
  lemma GpaRankingsMembers(t: Tables, x: RankRow)
    ensures x in GpaRankings(t) <==> exists s :: s in t.students && s.gpa > 0.0 && x == RankRowOf(t, s)
    ensures |GpaRankings(t)| == |Filter(t.students, HasGpa)|
  {
    var r := Ranked(t, t.students);
    assert multiset(GpaRankings(t)) == multiset(r);
    assert x in GpaRankings(t) <==> x in multiset(GpaRankings(t));
    assert x in r <==> x in multiset(r);
    assert |multiset(GpaRankings(t))| == |multiset(r)|;
    if x in r {
      RankedFrom(t, t.students, x);
    }
    if s :| s in t.students && s.gpa > 0.0 && x == RankRowOf(t, s) {
      RankedHas(t, t.students, s);
    }
  }

  /* ---------------- Academic status ---------------- */

  datatype Standing = DeansList | GoodStanding | Warning | Probation

  /** The standing band a GPA falls in. */
  function StandingOf(gpa: real): (s: Standing)
    ensures s == DeansList <==> 3.5 <= gpa
    ensures s == GoodStanding <==> 2.0 <= gpa < 3.5
    ensures s == Warning <==> 1.0 <= gpa < 2.0
    ensures s == Probation <==> gpa < 1.0
  {
    if gpa >= 3.5 then DeansList
    else if gpa >= 2.0 then GoodStanding
    else if gpa >= 1.0 then Warning
    else Probation
  }

  /** How far down the bands a standing is, 0 being the best. */
  function Severity(s: Standing): nat {
    match s
    case DeansList => 0
    case GoodStanding => 1
    case Warning => 2
    case Probation => 3
  }

  function Label(s: Standing): string {
    match s
    case DeansList => "Dean's List"
    case GoodStanding => "Good Standing"
    case Warning => "Warning"
    case Probation => "Academic Probation"
  }

  /** A higher GPA never lands in a worse band. */
  lemma StandingMonotone(g1: real, g2: real)
    requires g1 <= g2
    ensures Severity(StandingOf(g2)) <= Severity(StandingOf(g1))
  {
  }

  /** Each standing has its own label. */
  lemma LabelsDistinct(s1: Standing, s2: Standing)
    ensures Label(s1) == Label(s2) <==> s1 == s2
  {
    if s1 != s2 {
      assert Label(s1)[0] != Label(s2)[0] || |Label(s1)| != |Label(s2)|;
    }
  }

  /** A ranking row with its standing appended. */
  datatype StatusRow = StatusRow(name: string, id: string, gpa: real, courses: nat, status: string)

  function StatusOf(r: RankRow): StatusRow {
    StatusRow(r.name, r.id, r.gpa, r.courses, Label(StandingOf(r.gpa)))
  }

  /** Analytics.get_academic_status: the rankings, in their order, each row
      labelled with its standing band. */
  method AcademicStatus(t: Tables) returns (results: seq<StatusRow>)
    ensures |results| == |GpaRankings(t)|
    ensures forall i :: 0 <= i < |results| ==> results[i] == StatusOf(GpaRankings(t)[i])
  {
    results := [];
    var rankings := GpaRankings(t);
    for i := 0 to |rankings|
      invariant |results| == i
      invariant forall k :: 0 <= k < i ==> results[k] == StatusOf(rankings[k])
    {
      var r := rankings[i];
      var status;
      if r.gpa >= 3.5 {
        status := "Dean's List";
      } else if r.gpa >= 2.0 {
        status := "Good Standing";
      } else if r.gpa >= 1.0 {
        status := "Warning";
      } else {
        status := "Academic Probation";
      }
      results := results + [StatusRow(r.name, r.id, r.gpa, r.courses, status)];
    }
  }

  /** Students on probation in the report have a GPA strictly between 0 and
      1: a GPA of 0.0 is filtered out before the bands apply. */
  lemma ProbationExcludesZero(t: Tables, i: nat)
    requires i < |GpaRankings(t)|
    requires StatusOf(GpaRankings(t)[i]).status == "Academic Probation"
    ensures 0.0 < GpaRankings(t)[i].gpa < 1.0
  {
    var x := GpaRankings(t)[i];
    GpaRankingsMembers(t, x);
    LabelsDistinct(StandingOf(x.gpa), Probation);
  }

  /* ---------------- Course statistics ---------------- */

  /** One row of the course statistics. */
  datatype CourseStat = CourseStat(
    courseName: string,
    semester: string,
    enrolled: nat,
    avgGrade: real,
    minGrade: real,
    maxGrade: real)

  function GradeOf(g: GradeRow): real {
    g.grade
  }

  function StudentIdOf(g: GradeRow): string {
    g.studentId
  }

  /** MIN(g.grade). */
  function MinGrade(rows: seq<GradeRow>): (m: real)
    requires rows != []
    ensures exists i :: 0 <= i < |rows| && rows[i].grade == m
    ensures forall i :: 0 <= i < |rows| ==> m <= rows[i].grade
  {
    if |rows| == 1 then rows[0].grade
    else
      var rest := MinGrade(rows[1..]);
      assert forall i :: 1 <= i < |rows| ==> rows[i] == rows[1..][i - 1];
      if rows[0].grade <= rest then rows[0].grade else rest
  }

  /** MAX(g.grade). */
  function MaxGrade(rows: seq<GradeRow>): (m: real)
    requires rows != []
    ensures exists i :: 0 <= i < |rows| && rows[i].grade == m
    ensures forall i :: 0 <= i < |rows| ==> rows[i].grade <= m
  {
    if |rows| == 1 then rows[0].grade
    else
      var rest := MaxGrade(rows[1..]);
      assert forall i :: 1 <= i < |rows| ==> rows[i] == rows[1..][i - 1];
      if rows[0].grade >= rest then rows[0].grade else rest
  }

  /** AVG(g.grade), exactly. */
  function Mean(rows: seq<GradeRow>): real
    requires rows != []
  {
    SumOf(rows, GradeOf) / |rows| as real
  }

  /** The student ids among `rows`: COUNT(DISTINCT g.student_id) is its size. */
  function StudentIds(rows: seq<GradeRow>): (r: set<string>)
    ensures forall i :: 0 <= i < |rows| ==> rows[i].studentId in r
    ensures forall x :: x in r ==> exists i :: 0 <= i < |rows| && rows[i].studentId == x
  {
    if rows == [] then {}
    else
      assert forall i :: 1 <= i < |rows| ==> rows[i] == rows[1..][i - 1];
      {rows[0].studentId} + StudentIds(rows[1..])
  }

  /** The statistics row of course `c` over its grade rows. */
  function StatOf(c: Course, rows: seq<GradeRow>): CourseStat
    requires rows != []
  {
    CourseStat(c.name, c.semester, |StudentIds(rows)|, RoundHalfAway2(Mean(rows)), MinGrade(rows), MaxGrade(rows))
  }

  /** True when course `c` has at least one grade row in `gs`. */
  predicate Graded(gs: seq<GradeRow>, c: Course) {
    Filter(gs, OfCourse(c.id)) != []
  }

  /** The predicate selecting the courses that have grade rows in `gs`. */
  function GradedIn(gs: seq<GradeRow>): Course -> bool {
    (c: Course) => Graded(gs, c)
  }

  /** GROUP BY c.id over the join: one row per course that has grade rows. */
  function Groups(cs: seq<Course>, gs: seq<GradeRow>): (r: seq<CourseStat>)
    ensures |r| == |Filter(cs, GradedIn(gs))|
  {
    if cs == [] then []
    else
      var rows := Filter(gs, OfCourse(cs[0].id));
      assert GradedIn(gs)(cs[0]) == (rows != []);
      assert |Filter(cs, GradedIn(gs))| == (if rows != [] then 1 else 0) + |Filter(cs[1..], GradedIn(gs))|;
      (if rows != [] then [StatOf(cs[0], rows)] else []) + Groups(cs[1..], gs)
  }

  /** ORDER BY avg_grade DESC. */
  function AvgBefore(a: CourseStat, b: CourseStat): bool {
    a.avgGrade >= b.avgGrade
  }

  function CourseStatistics(t: Tables): seq<CourseStat> {
    SortBy(Groups(t.courses, t.grades), AvgBefore)
  }

  /** The statistics run from the highest rounded average down. */
  lemma CourseStatisticsOrdered(t: Tables)
    ensures forall i, j :: 0 <= i < j < |CourseStatistics(t)| ==>
              CourseStatistics(t)[i].avgGrade >= CourseStatistics(t)[j].avgGrade
  {
    assert Total(AvgBefore) && Transitive(AvgBefore);
    SortBySorted(Groups(t.courses, t.grades), AvgBefore);
    SortedPairwise(CourseStatistics(t), AvgBefore);
  }

  /** There is exactly one statistics row per course with grade rows. */
  lemma CourseStatisticsCount(t: Tables)
    ensures |CourseStatistics(t)| == |Filter(t.courses, GradedIn(t.grades))|
  {
    var r := Groups(t.courses, t.grades);
    assert |multiset(CourseStatistics(t))| == |multiset(r)|;
  }

  /** The courses whose statistics row is `x`. */
  function YieldsStat(gs: seq<GradeRow>, x: CourseStat): Course -> bool {
    (c: Course) => Graded(gs, c) && StatOf(c, Filter(gs, OfCourse(c.id))) == x
  }

  lemma {:induction false} GroupsMultiplicity(cs: seq<Course>, gs: seq<GradeRow>, x: CourseStat)
    ensures multiset(Groups(cs, gs))[x] == |Filter(cs, YieldsStat(gs, x))|
  {
    if cs != [] {
      GroupsMultiplicity(cs[1..], gs, x);
      var rows := Filter(gs, OfCourse(cs[0].id));
      var head := if rows != [] then [StatOf(cs[0], rows)] else [];
      assert Groups(cs, gs) == head + Groups(cs[1..], gs);
      assert multiset(head)[x] == if YieldsStat(gs, x)(cs[0]) then 1 else 0;
    }
  }

  /** Each statistics row occurs exactly as many times as there are courses
      with grade rows that yield it. */
  lemma CourseStatisticsMultiplicity(t: Tables, x: CourseStat)
    ensures multiset(CourseStatistics(t))[x] == |Filter(t.courses, YieldsStat(t.grades, x))|
  {
    GroupsMultiplicity(t.courses, t.grades, x);
  }

  lemma {:induction false} GroupsHas(cs: seq<Course>, gs: seq<GradeRow>, c: Course)
    requires c in cs && Graded(gs, c)
    ensures StatOf(c, Filter(gs, OfCourse(c.id))) in Groups(cs, gs)
  {
    if cs[0] != c {
      GroupsHas(cs[1..], gs, c);
    }
  }

  lemma {:induction false} GroupsFrom(cs: seq<Course>, gs: seq<GradeRow>, x: CourseStat)
    requires x in Groups(cs, gs)
    ensures exists c :: c in cs && Graded(gs, c) && x == StatOf(c, Filter(gs, OfCourse(c.id)))
  {
    var rows := Filter(gs, OfCourse(cs[0].id));
    if !(rows != [] && x == StatOf(cs[0], rows)) {
      GroupsFrom(cs[1..], gs, x);
      var c :| c in cs[1..] && Graded(gs, c) && x == StatOf(c, Filter(gs, OfCourse(c.id)));
      assert c in cs;
    }
  }

  /** A course appears in the statistics exactly when it has a grade row;
      grade rows of courses that no longer exist are dropped by the join. */
  lemma CourseStatisticsMembers(t: Tables, x: CourseStat)
    ensures x in CourseStatistics(t) <==>
              exists c :: c in t.courses && Graded(t.grades, c) && x == StatOf(c, Filter(t.grades, OfCourse(c.id)))
  {
    var r := Groups(t.courses, t.grades);
    assert multiset(CourseStatistics(t)) == multiset(r);
    assert x in CourseStatistics(t) <==> x in multiset(CourseStatistics(t));
    assert x in r <==> x in multiset(r);
    if x in r {
      GroupsFrom(t.courses, t.grades, x);
    }
    if c :| c in t.courses && Graded(t.grades, c) && x == StatOf(c, Filter(t.grades, OfCourse(c.id))) {
      GroupsHas(t.courses, t.grades, c);
    }
  }

  lemma {:induction false} SumBetween(rows: seq<GradeRow>, lo: real, hi: real)
    requires forall i :: 0 <= i < |rows| ==> lo <= rows[i].grade <= hi
    ensures |rows| as real * lo <= SumOf(rows, GradeOf) <= |rows| as real * hi
  {
    if rows != [] {
      SumBetween(rows[..|rows| - 1], lo, hi);
    }
  }

  /** Distinct student ids give one id per row. */
  lemma {:induction false} StudentIdsCount(rows: seq<GradeRow>)
    requires Distinct(rows, StudentIdOf)
    ensures |StudentIds(rows)| == |rows|
  {
    if rows != [] {
      var rest := rows[1..];
      assert Distinct(rest, StudentIdOf) by {
        forall i, j | 0 <= i < j < |rest| ensures StudentIdOf(rest[i]) != StudentIdOf(rest[j]) {
          assert rest[i] == rows[i + 1] && rest[j] == rows[j + 1];
        }
      }
      StudentIdsCount(rest);
      forall i | 0 <= i < |rest| ensures rest[i].studentId != rows[0].studentId {
        assert rest[i] == rows[i + 1];
      }
      assert rows[0].studentId !in StudentIds(rest);
    }
  }

  /** Within one course no student id repeats, since (student, course) is unique. */
  lemma CourseRowsDistinctStudents(gs: seq<GradeRow>, cid: string)
    requires Distinct(gs, PairOf)
    ensures Distinct(Filter(gs, OfCourse(cid)), StudentIdOf)
  {
    var rows := Filter(gs, OfCourse(cid));
    FilterKeepsDistinct(gs, OfCourse(cid), PairOf);
    forall i, j | 0 <= i < j < |rows| ensures StudentIdOf(rows[i]) != StudentIdOf(rows[j]) {
      assert rows[i] in rows && rows[j] in rows;
      assert rows[i].courseId == cid == rows[j].courseId;
      assert PairOf(rows[i]) != PairOf(rows[j]);
    }
  }

  /** The exact average lies between the lowest and the highest grade. */
  lemma MeanBetween(rows: seq<GradeRow>)
    requires rows != []
    ensures MinGrade(rows) <= Mean(rows) <= MaxGrade(rows)
  {
    MeanWithin(rows, MinGrade(rows), MaxGrade(rows));
  }

  /** Grades within bounds average within them. */
  lemma MeanWithin(rows: seq<GradeRow>, lo: real, hi: real)
    requires rows != []
    requires forall i :: 0 <= i < |rows| ==> lo <= rows[i].grade <= hi
    ensures lo <= Mean(rows) <= hi
  {
    SumBetween(rows, lo, hi);
    QuotientBetween(SumOf(rows, GradeOf), |rows| as real, lo, hi);
  }

  lemma QuotientBetween(s: real, n: real, lo: real, hi: real)
    requires n > 0.0 && n * lo <= s <= n * hi
    ensures lo <= s / n <= hi
  {
    var q := s / n;
    assert q * n == s;
    assert (q - lo) * n >= 0.0;
    assert (hi - q) * n >= 0.0;
  }

  lemma CourseRowsInRange(t: Tables, cid: string)
    requires Valid(t)
    ensures forall g :: g in Filter(t.grades, OfCourse(cid)) ==> 0.0 <= g.grade <= 100.0
  {
    forall g | g in Filter(t.grades, OfCourse(cid)) ensures 0.0 <= g.grade <= 100.0 {
      var k :| 0 <= k < |t.grades| && t.grades[k] == g;
      assert ValidGradeRow(t.grades[k]);
    }
  }

  /** On a store that keeps its constraints, a course's statistics count each
      of its grade rows as one enrolled student, bracket the exact average by
      the lowest and highest grade, and keep every figure on the 0-100 scale;
      the reported average is the exact one rounded to two decimals. */
  lemma StatOfValid(t: Tables, c: Course)
    requires Valid(t) && Graded(t.grades, c)
    ensures StatOf(c, Filter(t.grades, OfCourse(c.id))).enrolled == |Filter(t.grades, OfCourse(c.id))|
    ensures 0.0 <= MinGrade(Filter(t.grades, OfCourse(c.id))) <= Mean(Filter(t.grades, OfCourse(c.id)))
    ensures Mean(Filter(t.grades, OfCourse(c.id))) <= MaxGrade(Filter(t.grades, OfCourse(c.id))) <= 100.0
    ensures 0.0 <= StatOf(c, Filter(t.grades, OfCourse(c.id))).avgGrade <= 100.0
    ensures -0.005 <= StatOf(c, Filter(t.grades, OfCourse(c.id))).avgGrade - Mean(Filter(t.grades, OfCourse(c.id))) <= 0.005
  {
    var rows := Filter(t.grades, OfCourse(c.id));
    CourseRowsDistinctStudents(t.grades, c.id);
    StudentIdsCount(rows);
    CourseRowsInRange(t, c.id);
    MeanBetween(rows);
    var lo, hi := MinGrade(rows), MaxGrade(rows);
    assert rows[0] in rows;
    assert 0.0 <= lo && hi <= 100.0;
    NearestHundredthStaysWithin(Mean(rows), RoundHalfAway2(Mean(rows)), 0.0, 100.0);
  }

  /** With foreign keys off, the grade row of a deleted course still counts
      towards the student's course total in the rankings, though no course
      row backs it any more. */
  lemma OrphanStillRanked()
    ensures DeleteCourseWithoutForeignKeys(GradedStore, "C101").courses == []
    ensures GpaRankings(DeleteCourseWithoutForeignKeys(GradedStore, "C101")) == [RankRow("Ada", "S001", 4.0, 1)]
  {
    var t := DeleteCourseWithoutForeignKeys(GradedStore, "C101");
    assert Filter([Algebra], OtherCourse("C101")) == [] by { assert [Algebra][1..] == []; }
    var g := GradeRow("S001", "C101", 91.0, A);
    assert Filter([g], OfStudent("S001")) == [g] by { assert [g][1..] == []; }
    var s := Ada.(gpa := 4.0);
    assert Ranked(t, [s]) == [RankRow("Ada", "S001", 4.0, 1)] by { assert [s][1..] == []; }
  }
}

# Academic records: grade engine and analytics

This project models the grade and analytics core of a small academic records
application. Students, courses and grades are stored in three SQLite tables.
The manager classes validate and insert students and courses, and delete them.
They record a grade for a (student, course) pair, which replaces any earlier
grade, and then recompute that student's cached credit-weighted GPA. They also
produce read-only reports: failing grades, GPA rankings, academic standing and
per-course statistics.

Layout:

- `errors.dfy`, module `Errors`: `Option`, `Result`, `Outcome` and the three
  error kinds the managers raise. `Invalid` is a rejected input, `NotFound` is
  a missing row and `Conflict` is a UNIQUE constraint violation.
- `grading.dfy`, module `Grading`: the threshold ladder (letter and GPA
  points) and the two 2-decimal roundings. Python's `round` rounds half to
  even. SQLite's `ROUND` rounds half away from zero.
- `seqs.dfy`, module `Seqs`: filters, sums and a stable insertion sort. These
  give SQL `WHERE`, `SUM` and `ORDER BY` their meaning over rows kept in
  storage order.
- `collation.dfy`, module `Collation`: SQLite's BINARY text order, and the
  two-column order used by `ORDER BY s.name, c.name`.
- `schema.dfy`, module `Schema`: the rows of `students`, `courses` and
  `grades`, and `Valid`. `Valid` holds the schema's keys, UNIQUE columns,
  CHECK ranges and foreign keys, plus the derived letter and the 0-4 GPA.
- `engine.dfy`, module `Engine`: the input checks of `StudentManager.add` and
  `CourseManager.add`, the upsert, the GPA recalculation, recording a grade,
  the deletes, and the lemmas about them.
- `managers.dfy`, module `Managers`: class `Database`. Its fields are the
  three tables, and its methods are the state-changing manager operations.
  Each method keeps `Valid`. `DeleteCourse`, `DeleteStudent`, `AddGrade` and
  `UpdateStudentGpa` are proved to produce the state the matching `Engine`
  function describes. `AddStudent` and `AddCourse` state the appended row
  directly in their postconditions. `UpdateStudentGpa` keeps the source's
  accumulator loop.
- `reports.dfy`, module `Reports`: the failing-students, rankings,
  academic-status and course-statistics reports as functions of the tables.
  `AcademicStatus` is a method because the source builds its result with an
  append loop.

Grades and GPAs are exact `real`s. Tables are sequences in storage order, so
an `ORDER BY` with ties has a definite answer: rows that tie keep their
storage order.

## Model

| member | source | states |
|---|---|---|
| Grading.CalculateLetter | managers.py:124-129 | the letter is A exactly when the grade is at least 90, B on [80, 90), C on [70, 80), D on [60, 70), and F below 60 |
| Grading.GradeToGpaPoints | managers.py:132-137 | the points always lie in [0, 4] |
| Grading.PointsAgreeWithLetter | managers.py:124-137 | the points of a grade are those of its letter: A 4, B 3, C 2, D 1, F 0 |
| Grading.PointsMonotone | managers.py:132-137 | a higher grade never earns fewer points, or a letter worth fewer points |
| Grading.Boundaries | managers.py:124-129 | 90, 80, 70 and 60 take the higher letter; 89.99, 79.99, 69.99 and 59.99 take the lower one |
| Grading.LadderAgrees | managers.py:124-137 | one table of (threshold, letter, points) rungs, read top-down, gives both the letter and the points of every grade |
| Grading.RoundHalfEven2 | managers.py:177 | `round(gpa, 2)` lands on a multiple of 0.01 within 0.005 of the input, and breaks a tie to an even number of hundredths |
| Grading.RoundHalfAway2 | managers.py:221 | `ROUND(avg, 2)` lands on a multiple of 0.01 within 0.005 of the input, and breaks a tie away from zero |
| Grading.RoundedGpaInRange | managers.py:176-177 | rounding a GPA on the 0-4 scale keeps it on that scale |
| Grading.HalfEvenTies | managers.py:177 | 0.125 rounds to 0.12 and 0.375 to 0.38 in Python, but 0.125 rounds to 0.13 in SQLite |
| Schema.FindBy | managers.py:47-49 | the lookup by id finds a row with that id, and finds none exactly when no row has it; `FindStudent` and the course lookup at managers.py:102-104 (`FindCourse`) are this scan on the two tables |
| Schema.FilterKeepsUniqueEmails | database.py:39 | removing students never creates two equal emails |
| Engine.CheckStudent | managers.py:20-26 | a student is accepted exactly when the id has 3 or more alphanumeric characters, the name is not blank, and any given email matches the pattern; each failure gives its own message, checked in that order |
| Engine.CheckCourse | managers.py:88-92 | a course is accepted exactly when id, name and semester are non-empty and credits are in 1..6, with the source's two messages |
| Engine.AppendStudentKeepsValid | managers.py:28-31 | inserting a student with a new id, an unused email (or none) and a GPA in [0, 4] keeps every constraint |
| Engine.AppendCourseKeepsValid | managers.py:94-97 | inserting a course with a new id and credits in 1..6 keeps every constraint |
| Engine.UpsertLeavesOneRow | managers.py:149-152 | after INSERT OR REPLACE, the new row is the only row for its pair |
| Engine.UpsertKeepsOtherRows | managers.py:149-152 | rows of every other pair are kept, in order |
| Engine.PairRowCount | database.py:66 | under UNIQUE(student_id, course_id) a pair has exactly 0 or 1 rows |
| Engine.UpsertSize | managers.py:149-152 | replacing adds no row; a new pair adds exactly one |
| Engine.SumsBounded | managers.py:169-173 | with points in [0, 4] and positive credits, the weighted points lie between 0 and 4 times the credits |
| Engine.WeightedGpaInRange | managers.py:175-176 | the unrounded weighted average lies in [0, 4] |
| Engine.WeightedGpaIgnoresOrder | managers.py:159-173 | the weighted average does not depend on the order the join returns rows in |
| Engine.WeightedGpaUniform | managers.py:169-176 | if every grade earns the same points, the GPA is those points whatever the credits |
| Engine.WeightedGpaExample | managers.py:169-177 | an A in a 3-credit course and a C in a 4-credit course give 20/7, stored as 2.86 |
| Engine.CreditRowsValid | managers.py:159-164 | the grades-courses join yields grades in [0, 100] and credits in 1..6 |
| Engine.CreditRowsCount | managers.py:159-164 | when every grade's course exists, the join yields one row per grade of the student |
| Engine.RecalculateOnlyThatStudent | managers.py:177 | recalculation changes only the gpa field of the students whose id is sid |
| Engine.RecalculateWithoutGrades | managers.py:166-167 | a student without grades keeps the stored GPA, on any store, including one with orphan grade rows |
| Engine.RecalculateSetsGpa | managers.py:158-177 | with grades, the GPA becomes the weighted average rounded to two places, lies in [0, 4] and is within 0.005 of the exact average |
| Engine.RecalculateIdempotent | managers.py:158-177 | recalculating twice stores the same as once |
| Engine.SetGpaKeepsValid | managers.py:177 | writing a GPA on the 0-4 scale keeps every constraint |
| Engine.RecalculateKeepsValid | managers.py:158-177 | recalculation keeps every constraint |
| Engine.RecordGrade | managers.py:141-146 | recording fails exactly when the grade is outside [0, 100], with "Invalid grade value" |
| Engine.UpsertKeepsValid | managers.py:149-152 | upserting a valid row whose student and course exist keeps every constraint |
| Engine.UpsertKeepsDistinct | database.py:66 | the upsert keeps (student_id, course_id) unique, and adds no row other than the new one |
| Engine.RecordGradeStoresOneRow | managers.py:148-152 | after recording, the pair has exactly one row holding the grade and its letter; every other pair's rows and the courses are unchanged |
| Engine.RecordGradeKeepsValid | managers.py:140-154 | recording a grade for an existing student and course keeps every constraint |
| Engine.RecordGradeSetsGpa | managers.py:148-154 | after recording, the student's GPA is the rounded weighted average over the grades as they now stand |
| Engine.CascadeDeleteCourseEffect | managers.py:107 | the course is gone, so are exactly its grades, other courses and grades remain, and the students (GPAs included) are untouched |
| Engine.CascadeDeleteCourseKeepsValid | managers.py:101-107 | a course delete with the cascade keeps every constraint |
| Engine.CascadeDeleteStudentEffect | managers.py:52 | the student is gone, so are exactly their grades, other rows remain |
| Engine.CascadeDeleteStudentKeepsValid | managers.py:46-54 | a student delete with the cascade keeps every constraint |
| Engine.FindStudentAfterDelete | managers.py:52 | deleting one student does not change what the lookup finds for any other id |
| Engine.FindCourseAfterDelete | managers.py:107 | deleting one course does not change what the lookup finds for any other id |
| Engine.CreditRowsAfterDelete | managers.py:107 | after a course delete, a recalculation weighs exactly the student's grades in the remaining courses |
| Engine.FirstGradeStored | managers.py:148-154 | a first grade of 55 for a student in a 3-credit course is stored as one row with an F, and the GPA becomes 0.0 |
| Engine.ReRecordingOverwrites | managers.py:148-154 | recording 91 over that 55 leaves a single row, 91 with an A, and the GPA becomes 4.0; nothing else changes |
| Engine.CreditRowsWithoutGrades | managers.py:159-164 | the join yields no row for a student who has no grade rows |
| Engine.ForeignKeysOffLeaveOrphans | database.py:65 | without foreign-key enforcement a course delete keeps its grades and breaks referential integrity; with the cascade the tables stay valid |
| Engine.StudentForeignKeysOffLeaveOrphans | database.py:64 | without foreign-key enforcement a student delete keeps the student's grades and breaks referential integrity; with the cascade the tables stay valid |
| Managers.Database.constructor | database.py:35-67 | a fresh store has three empty tables, which satisfy the constraints |
| Managers.Database.AddStudent | managers.py:20-31 | the checks, then the id and email conflicts, decide the outcome; on success the student is appended with email NULL for an empty one, GPA 0.0 and status active; nothing else changes, and the constraints hold |
| Managers.Database.AddCourse | managers.py:88-97 | the checks, then the id conflict, decide the outcome; on success the course is appended with capacity 30; nothing else changes, and the constraints hold |
| Managers.Database.DeleteCourse | managers.py:101-109 | an unknown id gives "Course <id> not found" and changes nothing; otherwise the course's name is returned and the cascade delete is applied |
| Managers.Database.DeleteStudent | managers.py:46-54 | an unknown id gives "Student <id> not found" and changes nothing; otherwise the name is returned and the cascade delete is applied |
| Managers.Database.AddGrade | managers.py:140-154 | an out-of-range grade gives "Invalid grade value" and changes nothing; otherwise the store becomes the `RecordGrade` state, and the constraints hold |
| Managers.Database.UpdateStudentGpa | managers.py:158-177 | the accumulator loop stores exactly the `Recalculate` state, and the constraints hold |
| Reports.FailingStudentsOrdered | managers.py:187 | the failing report is ordered by student name, then course name, in SQLite's text order |
| Reports.FailingStudentsMembers | managers.py:180-188 | a row is in the failing report exactly when a grade below 60 whose student and course exist yields it |
| Reports.FailingStudentsMultiplicity | managers.py:180-188 | each report row occurs exactly as many times as there are grade rows that yield it |
| Reports.FailingRowOfValid | managers.py:182-186 | a valid grade row whose student and course exist yields a row exactly when it is below 60, and that row is an F with grade in [0, 60) |
| Reports.FailingJoinValid | managers.py:182-186 | when every grade is valid and joins, the join has one row per grade below 60, each with letter F and grade in [0, 60) |
| Reports.FailingStudentsValid | managers.py:180-188 | on a valid store the report has one row per grade below 60, each with letter F |
| Reports.Ranked | managers.py:197 | the filtered rows number exactly the students with gpa > 0 |
| Reports.GpaRankingsOrdered | managers.py:198 | the rankings run from the highest GPA down |
| Reports.GpaRankingsMembers | managers.py:192-199 | a row is in the rankings exactly when some student with gpa > 0 yields it, with their grade-row count; there is one row per such student |
| Reports.StandingOf | managers.py:206-213 | Dean's List at 3.5 and above, Good Standing on [2.0, 3.5), Warning on [1.0, 2.0), Academic Probation below 1.0 |
| Reports.StandingMonotone | managers.py:206-213 | a higher GPA never lands in a worse band |
| Reports.LabelsDistinct | managers.py:207-213 | the four labels differ |
| Reports.AcademicStatus | managers.py:202-215 | the result has the rankings' rows in the rankings' order, each with its band's label |
| Reports.ProbationExcludesZero | managers.py:197-213 | a student on probation in the report has a GPA strictly between 0 and 1 |
| Reports.OrphanStillRanked | managers.py:195 | with foreign keys off, the grade of a deleted course still counts toward the student's course total |
| Reports.MinGrade | managers.py:222 | the minimum is one of the grades and no grade is below it |
| Reports.MaxGrade | managers.py:223 | the maximum is one of the grades and no grade is above it |
| Reports.StudentIds | managers.py:220 | the set holds exactly the student ids of the rows |
| Reports.StudentIdsCount | managers.py:220 | with no repeated student id, the distinct count equals the row count |
| Reports.CourseRowsDistinctStudents | database.py:66 | within one course no student id repeats |
| Reports.Groups | managers.py:224-226 | the grouping yields exactly as many rows as there are courses with at least one grade row |
| Reports.CourseStatisticsCount | managers.py:218-228 | the statistics report has exactly one row per course with at least one grade row |
| Reports.CourseStatisticsMultiplicity | managers.py:218-228 | each statistics row occurs exactly as many times as there are courses with grade rows that yield it |
| Reports.CourseStatisticsOrdered | managers.py:227 | the statistics run from the highest rounded average down |
| Reports.CourseStatisticsMembers | managers.py:224-226 | a statistics row exists exactly for each course with at least one grade; courses without grades are absent |
| Reports.MeanBetween | managers.py:221-223 | the average lies between the minimum and the maximum |
| Reports.MeanWithin | managers.py:221 | grades within a range have an average within that range |
| Reports.StatOfValid | managers.py:218-228 | on a valid store, enrolled equals the course's row count, min <= avg <= max within [0, 100], and the reported average is within 0.005 of the exact one and stays in [0, 100] |

## Left out

- ActivityLog is not modelled. It only appends audit rows that nothing in this core reads.
- ImportExport is not modelled, because it is CSV file I/O.
- `StudentManager.update`, `search`, `get_all`, `get_transcript` and the two `delete_all` operations are not modelled. They are plain UPDATE, SELECT and DELETE statements outside this core.
- The bulk GPA reset in the user interface is not modelled, and neither are the login and password hashing in auth.py.
- The email pattern of `validate_email` is regular-expression matching. `CheckStudent` and `AddStudent` take it as the parameter `emailMatches`.
- `isalnum` is modelled on ASCII letters and digits only. Python also accepts other Unicode letters and digits.
- Grades and GPAs are exact reals, not IEEE doubles. The roundings are stated on exact values, so a double that sits just off a tie may round the other way.
- `float(grade)` on text, NaN and infinities are not modelled. Grades reach the model as numbers.
- `graded_at` timestamps, autoincrement ids and `max_capacity` enforcement are not modelled. The core never reads them; capacity is stored as 30 and never checked.
- Managers.Database.AddGrade requires that the student and the course exist. The grade form checks both before it calls `GradeManager.add` (app_window.py:477-482). Without foreign keys, the database would otherwise accept an orphan row.
- Managers.Database.AddStudent reports the id conflict before the email conflict. SQLite does not document the order in which it reports two UNIQUE violations.
- Rows that tie under an ORDER BY keep storage order in the model. SQLite leaves the order of ties unspecified.
- Each manager operation runs as one step. In the source, writing the grade, recalculating the GPA and logging are separate statements that can fail part-way.
- Managers.Database.DeleteCourse and Managers.Database.DeleteStudent apply the cascade the schema declares. The as-written behaviour, where the grades stay behind, is under "## Findings".
- Cached GPAs are not recalculated after a delete, as in the source.

## Findings

| source | as written | input that shows it | evidently intended | confidence | as-written member | corrected member |
|---|---|---|---|---|---|---|
| database.py:65 | The grades table declares `ON DELETE CASCADE` to courses. Connections come from a plain `sqlite3.connect` (database.py:9-10), and nothing runs `PRAGMA foreign_keys = ON`. SQLite does not enforce foreign keys by default, so deleting a course leaves its grade rows behind. Those rows still count toward the rankings' course total. | a store holding student S001, course C101 and one grade for (S001, C101); then delete course C101 | the grade rows of a deleted course are deleted with it | likely; not executed | Engine.ForeignKeysOffLeaveOrphans | Engine.CascadeDeleteCourseKeepsValid |
| database.py:64 | The grades table declares `ON DELETE CASCADE` to students, with the same connection setup. Deleting a student leaves the student's grade rows behind, pointing at a student who no longer exists. | the same store; then delete student S001 | the grade rows of a deleted student are deleted with them | likely; not executed | Engine.StudentForeignKeysOffLeaveOrphans | Engine.CascadeDeleteStudentKeepsValid |

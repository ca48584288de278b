/**
 * How marks become letters and credits: the percentage band table of the
 * teacher menu, the insert-or-overwrite of a grade
 * row, and the transcript's credit totals.
 */
module Grading {
  import opened Wrappers
  import opened Numeric
  import opened Records
  import opened Queries
  import opened Database

  // ---------------------------------------------------------------- letters

  /**
   * `(double)marks / totalMarks * 100 >= k`, by cross-multiplication. With
   * zero total marks the quotient is NaN and no comparison holds.
   */
  predicate Reaches(marks: int, total: int, percent: int)
  {
    total > 0 && 100 * marks >= percent * total
  }

  /** The letter chain of `enterGrades`, for marks already checked to lie in 0..total. */
  function LetterGrade(marks: int, total: int): string
    requires 0 <= marks <= total
  {
    if Reaches(marks, total, 90) then "A+"
    else if Reaches(marks, total, 85) then "A"
    else if Reaches(marks, total, 80) then "A-"
    else if Reaches(marks, total, 75) then "B+"
    else if Reaches(marks, total, 70) then "B"
    else if Reaches(marks, total, 65) then "B-"
    else if Reaches(marks, total, 60) then "C+"
    else if Reaches(marks, total, 55) then "C"
    else if Reaches(marks, total, 50) then "C-"
    else "F"
  }

  /** The band table: lower percentage bound and letter, highest band first. */
  const Bands: seq<(int, string)> :=
    [(90, "A+"), (85, "A"), (80, "A-"), (75, "B+"), (70, "B"), (65, "B-"), (60, "C+"), (55, "C"), (50, "C-")]

  /** Reference reading of the table: the letter of the first band reached, else "F". */
  function FirstBand(bands: seq<(int, string)>, marks: int, total: int): string
  {
    if bands == [] then "F"
    else if Reaches(marks, total, bands[0].0) then bands[0].1
    else FirstBand(bands[1..], marks, total)
  }

  /** The if-chain is the first-match reading of the band table. */
  lemma LetterGradeIsFirstBand(marks: int, total: int)
    requires 0 <= marks <= total
    ensures LetterGrade(marks, total) == FirstBand(Bands, marks, total)
  {
    assert FirstBand(Bands[9..], marks, total) == "F";
    assert Bands[8..][1..] == Bands[9..];
    assert FirstBand(Bands[8..], marks, total) ==
      if Reaches(marks, total, 50) then "C-" else FirstBand(Bands[9..], marks, total);
    assert Bands[7..][1..] == Bands[8..];
    assert FirstBand(Bands[7..], marks, total) ==
      if Reaches(marks, total, 55) then "C" else FirstBand(Bands[8..], marks, total);
    assert Bands[6..][1..] == Bands[7..];
    assert FirstBand(Bands[6..], marks, total) ==
      if Reaches(marks, total, 60) then "C+" else FirstBand(Bands[7..], marks, total);
    assert Bands[5..][1..] == Bands[6..];
    assert FirstBand(Bands[5..], marks, total) ==
      if Reaches(marks, total, 65) then "B-" else FirstBand(Bands[6..], marks, total);
    assert Bands[4..][1..] == Bands[5..];
    assert FirstBand(Bands[4..], marks, total) ==
      if Reaches(marks, total, 70) then "B" else FirstBand(Bands[5..], marks, total);
    assert Bands[3..][1..] == Bands[4..];
    assert FirstBand(Bands[3..], marks, total) ==
      if Reaches(marks, total, 75) then "B+" else FirstBand(Bands[4..], marks, total);
    assert Bands[2..][1..] == Bands[3..];
    assert FirstBand(Bands[2..], marks, total) ==
      if Reaches(marks, total, 80) then "A-" else FirstBand(Bands[3..], marks, total);
    assert Bands[1..][1..] == Bands[2..];
    assert FirstBand(Bands[1..], marks, total) ==
      if Reaches(marks, total, 85) then "A" else FirstBand(Bands[2..], marks, total);
    assert Bands[0..][1..] == Bands[1..];
    assert FirstBand(Bands[0..], marks, total) ==
      if Reaches(marks, total, 90) then "A+" else FirstBand(Bands[1..], marks, total);
    assert Bands[0..] == Bands;
  }

  /** Position of a letter in the table, 10 for "A+" down to 1 for "F"; 0 for anything else. */
  function Rank(letter: string): (r: nat)
    ensures r <= 10
    ensures letter == "F" <==> r == 1
  {
    if letter == "A+" then 10 else if letter == "A" then 9 else if letter == "A-" then 8
    else if letter == "B+" then 7 else if letter == "B" then 6 else if letter == "B-" then 5
    else if letter == "C+" then 4 else if letter == "C" then 3 else if letter == "C-" then 2
    else if letter == "F" then 1 else 0
  }

  /** More marks on the same exam never give a lower letter. */
  lemma LetterGradeMonotone(m1: int, m2: int, total: int)
    requires 0 <= m1 <= m2 <= total
    ensures Rank(LetterGrade(m1, total)) <= Rank(LetterGrade(m2, total))
  {
  }

  /** The letter is one of the table's, and "F" exactly below fifty percent. */
  lemma LetterGradeRange(marks: int, total: int)
    requires 0 <= marks <= total
    ensures Rank(LetterGrade(marks, total)) >= 1
    ensures LetterGrade(marks, total) == "F" <==> !Reaches(marks, total, 50)
  {
  }

  lemma LetterGradeExamples()
    ensures LetterGrade(100, 100) == "A+" && LetterGrade(90, 100) == "A+" && LetterGrade(89, 100) == "A"
    ensures LetterGrade(85, 100) == "A" && LetterGrade(59, 100) == "C" && LetterGrade(49, 100) == "F"
    ensures LetterGrade(0, 0) == "F" && LetterGrade(15, 20) == "B+"
  {
  }

  // ----------------------------------------------------------------- upsert

  function GradeKey(g: Grade): (string, string) { (g.studentId, g.examId) }

  /**
   * The grade table after a successful `enterGrades`: the first row for the
   * (student, exam) pair gets the new marks, letter and comments, or a new
   * row is appended when there is none.
   */
  function UpsertGrade(gs: seq<Grade>, studentId: string, examId: string, marks: Int32, letter: string,
                       comments: string): seq<Grade>
  {
    match FirstIndex(gs, GradeKey, (studentId, examId))
    case Some(i) => gs[i := gs[i].(marksObtained := marks, letterGrade := letter, comments := comments)]
    case None => gs + [Grade(studentId, examId, marks, letter, comments)]
  }

  /**
   * After the upsert the first row for the pair carries the values entered;
   * the table grows by exactly one row when the pair was absent and keeps
   * its length otherwise; the overwrite happens at the old first index, and
   * every other row, later rows for the same pair included, keeps its place.
   */
  lemma UpsertGradeEffect(gs: seq<Grade>, studentId: string, examId: string, marks: Int32, letter: string,
                          comments: string)
    ensures var r := UpsertGrade(gs, studentId, examId, marks, letter, comments);
      var i := FirstIndex(r, GradeKey, (studentId, examId));
      i.Some? && r[i.value] == Grade(studentId, examId, marks, letter, comments)
    ensures var r := UpsertGrade(gs, studentId, examId, marks, letter, comments);
      |r| == if FirstIndex(gs, GradeKey, (studentId, examId)).Some? then |gs| else |gs| + 1
    ensures var r := UpsertGrade(gs, studentId, examId, marks, letter, comments);
      forall j :: 0 <= j < |gs| && Some(j) != FirstIndex(gs, GradeKey, (studentId, examId)) ==> r[j] == gs[j]
    ensures var r := UpsertGrade(gs, studentId, examId, marks, letter, comments);
      FirstIndex(gs, GradeKey, (studentId, examId)).Some? ==>
        FirstIndex(r, GradeKey, (studentId, examId)) == FirstIndex(gs, GradeKey, (studentId, examId))
  {
    var key := (studentId, examId);
    var r := UpsertGrade(gs, studentId, examId, marks, letter, comments);
    match FirstIndex(gs, GradeKey, key)
    case Some(i) =>
      assert GradeKey(r[i]) == key;
      assert forall j :: 0 <= j < i ==> r[j] == gs[j];
    case None =>
      FirstIndexAppend(gs, GradeKey, key, Grade(studentId, examId, marks, letter, comments));
  }

  /** Entering a grade twice for the same pair leaves what the second entry alone would. */
  lemma UpsertGradeTwice(gs: seq<Grade>, studentId: string, examId: string, m1: Int32, l1: string,
                         c1: string, m2: Int32, l2: string, c2: string)
    ensures UpsertGrade(UpsertGrade(gs, studentId, examId, m1, l1, c1), studentId, examId, m2, l2, c2)
         == UpsertGrade(gs, studentId, examId, m2, l2, c2)
  {
    var key := (studentId, examId);
    var once := UpsertGrade(gs, studentId, examId, m1, l1, c1);
    match FirstIndex(gs, GradeKey, key)
    case Some(i) =>
      assert FirstIndex(once, GradeKey, key) == Some(i) by {
        assert GradeKey(once[i]) == key;
        assert forall j :: 0 <= j < i ==> once[j] == gs[j];
      }
    case None =>
      FirstIndexAppend(gs, GradeKey, key, Grade(studentId, examId, m1, l1, c1));
      var n := |gs|;
      assert UpsertGrade(once, studentId, examId, m2, l2, c2)[n] == Grade(studentId, examId, m2, l2, c2);
  }

  /** A table with one row per (student, exam) pair keeps that property. */
  lemma UpsertGradeKeepsUnique(gs: seq<Grade>, studentId: string, examId: string, marks: Int32,
                               letter: string, comments: string)
    requires UniqueKeys(gs, GradeKey)
    ensures UniqueKeys(UpsertGrade(gs, studentId, examId, marks, letter, comments), GradeKey)
  {
    var key := (studentId, examId);
    match FirstIndex(gs, GradeKey, key)
    case Some(i) =>
      UpdateKeepsUnique(gs, GradeKey, i, gs[i].(marksObtained := marks, letterGrade := letter, comments := comments));
    case None =>
      AppendFreshKeepsUnique(gs, GradeKey, Grade(studentId, examId, marks, letter, comments));
  }

  // ------------------------------------------------------------- transcript

  /** The credits of the first course with this id, if any (`findCourse`). */
  function CourseCredits(courses: seq<Course>, courseId: string): Option<int>
  {
    match FirstIndex(courses, CourseIdOf, courseId)
    case Some(i) => Some(courses[i].credits as int)
    case None => None
  }

  /** A row counts as earned when its grade is non-empty and not "F". */
  predicate Passed(e: Enrollment)
  {
    e.grade != "F" && e.grade != ""
  }

  /** Sum of the credits of the rows whose course exists ("Total Credits Attempted"). */
  function Attempted(es: seq<Enrollment>, courses: seq<Course>): int
  {
    if es == [] then 0
    else
      var last := es[|es| - 1];
      Attempted(es[..|es| - 1], courses) +
        match CourseCredits(courses, last.courseId) case Some(c) => c case None => 0
  }

  /** The same sum restricted to passed rows ("Total Credits Earned"). */
  function Earned(es: seq<Enrollment>, courses: seq<Course>): int
  {
    if es == [] then 0
    else
      var last := es[|es| - 1];
      Earned(es[..|es| - 1], courses) +
        match CourseCredits(courses, last.courseId)
        case Some(c) => if Passed(last) then c else 0
        case None => 0
  }

  /** One more enrollment row adds its course's credits, and to the earned sum only when passed. */
  lemma TotalsStep(es: seq<Enrollment>, courses: seq<Course>, i: nat)
    requires i < |es|
    ensures Attempted(es[..i + 1], courses) ==
      Attempted(es[..i], courses) + match CourseCredits(courses, es[i].courseId) case Some(c) => c case None => 0
    ensures Earned(es[..i + 1], courses) ==
      Earned(es[..i], courses) + match CourseCredits(courses, es[i].courseId)
                                 case Some(c) => (if Passed(es[i]) then c else 0)
                                 case None => 0
  {
    assert es[..i + 1][..i] == es[..i];
  }

  predicate NonNegativeCredits(courses: seq<Course>)
  {
    forall i :: 0 <= i < |courses| ==> courses[i].credits >= 0
  }

  /** With non-negative credits, nothing is earned that was not attempted. */
  lemma {:induction false} EarnedAtMostAttempted(es: seq<Enrollment>, courses: seq<Course>)
    requires NonNegativeCredits(courses)
    ensures 0 <= Earned(es, courses) <= Attempted(es, courses)
  {
    if es != [] {
      EarnedAtMostAttempted(es[..|es| - 1], courses);
    }
  }

  /** When every row is passed, the two totals agree. */
  lemma {:induction false} AllPassedEarnsAll(es: seq<Enrollment>, courses: seq<Course>)
    requires forall i :: 0 <= i < |es| ==> Passed(es[i])
    ensures Earned(es, courses) == Attempted(es, courses)
  {
    if es != [] {
      AllPassedEarnsAll(es[..|es| - 1], courses);
    }
  }

  lemma TranscriptExample()
    ensures var courses := [Course("CS101", "Intro", "TCH001", "", "", 3, "", 30),
                            Course("CS102", "Data", "TCH001", "", "", 4, "", 30)];
      var es := [Enrollment("STU001", "CS101", "B", "enrolled"), Enrollment("STU001", "CS102", "F", "enrolled"),
                 Enrollment("STU001", "CS999", "A", "enrolled")];
      Attempted(es, courses) == 7 && Earned(es, courses) == 3
  {
    var courses := [Course("CS101", "Intro", "TCH001", "", "", 3, "", 30),
                    Course("CS102", "Data", "TCH001", "", "", 4, "", 30)];
    var es := [Enrollment("STU001", "CS101", "B", "enrolled"), Enrollment("STU001", "CS102", "F", "enrolled"),
               Enrollment("STU001", "CS999", "A", "enrolled")];
    assert CourseCredits(courses, "CS101") == Some(3);
    assert CourseCredits(courses, "CS102") == Some(4);
    assert CourseCredits(courses, "CS999") == None;
    assert es[..2][..1] == es[..1] && es[..1][..0] == [] && es[..3] == es;
    assert Attempted(es[..1], courses) == 3 && Earned(es[..1], courses) == 3;
    assert Attempted(es[..2], courses) == 7 && Earned(es[..2], courses) == 3;
  }
}

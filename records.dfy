/**
 * The eight record types of the system and their line codecs. Every
 * `ToCsv` joins the fields in schema order with ','; every `FromCsv` splits
 * the line the way the `getline` loop does and keeps the record only when at
 * least as many tokens come back as the type has fields, ignoring any
 * further tokens; otherwise it yields the default-constructed record.
 * Integer fields are written with `std::to_string` and read with
 * `std::stoi`; a line whose integer token `std::stoi` rejects is excluded by
 * precondition (the program would stop with an uncaught exception).
 */
module Records {
  import opened Wrappers
  import opened Numeric
  import opened Csv

  // ---------------------------------------------------------------- Department

  datatype Department = Department(deptId: string, deptName: string, headOfDept: string, description: string)
  {
    function Fields(): seq<string> { [deptId, deptName, headOfDept, description] }

    function ToCsv(): string { Join(Fields()) }

    /** The record survives a write and a read: no comma in a field, a non-empty last field. */
    predicate Storable() { NoCommas(Fields()) && description != "" }

    static function FromCsv(line: string): (d: Department)
      ensures |Tokens(line)| < 4 ==> d == EmptyDepartment
      ensures |Tokens(line)| >= 4 ==> d.Fields() == Tokens(line)[..4]
    {
      var t := Tokens(line);
      if |t| >= 4 then Department(t[0], t[1], t[2], t[3]) else EmptyDepartment
    }
  }

  const EmptyDepartment := Department("", "", "", "")

  lemma DepartmentRoundTrip(d: Department)
    requires d.Storable()
    ensures Department.FromCsv(d.ToCsv()) == d
  {
    TokensOfJoin(d.Fields());
  }

  lemma DepartmentIgnoresExtra(line: string, extra: string)
    requires |Tokens(line)| >= 4
    ensures Department.FromCsv(line + [Comma] + extra) == Department.FromCsv(line)
  {
    TokensPrefix(line, extra);
  }

  // ------------------------------------------------------------------ Semester

  datatype Semester = Semester(semesterId: string, semesterName: string, startDate: string, endDate: string,
                               status: string)
  {
    function Fields(): seq<string> { [semesterId, semesterName, startDate, endDate, status] }

    function ToCsv(): string { Join(Fields()) }

    predicate Storable() { NoCommas(Fields()) && status != "" }

    static function FromCsv(line: string): (s: Semester)
      ensures |Tokens(line)| < 5 ==> s == EmptySemester
      ensures |Tokens(line)| >= 5 ==> s.Fields() == Tokens(line)[..5]
    {
      var t := Tokens(line);
      if |t| >= 5 then Semester(t[0], t[1], t[2], t[3], t[4]) else EmptySemester
    }
  }

  const EmptySemester := Semester("", "", "", "", "")

  lemma SemesterRoundTrip(s: Semester)
    requires s.Storable()
    ensures Semester.FromCsv(s.ToCsv()) == s
  {
    TokensOfJoin(s.Fields());
  }

  lemma SemesterIgnoresExtra(line: string, extra: string)
    requires |Tokens(line)| >= 5
    ensures Semester.FromCsv(line + [Comma] + extra) == Semester.FromCsv(line)
  {
    TokensPrefix(line, extra);
  }

  // -------------------------------------------------------------------- Course

  datatype Course = Course(courseId: string, courseName: string, teacherId: string, departmentId: string,
                           semesterId: string, credits: Int32, schedule: string, maxStudents: Int32)
  {
    function Fields(): seq<string>
    {
      [courseId, courseName, teacherId, departmentId, semesterId, IntToString(credits), schedule,
       IntToString(maxStudents)]
    }

    function ToCsv(): string { Join(Fields()) }

    /** The last field is a number, so it is never empty. */
    predicate Storable() { NoCommas(Fields()) }

    /** `std::stoi` accepts both integer tokens, if the line has enough tokens to be read at all. */
    static predicate NumbersParse(line: string)
    {
      var t := Tokens(line);
      |t| >= 8 ==> Stoi(t[5]).Some? && Stoi(t[7]).Some?
    }

    static function FromCsv(line: string): (c: Course)
      requires Course.NumbersParse(line)
      ensures |Tokens(line)| < 8 ==> c == EmptyCourse
      ensures |Tokens(line)| >= 8 ==>
        var t := Tokens(line);
        c.courseId == t[0] && c.courseName == t[1] && c.teacherId == t[2] && c.departmentId == t[3] &&
        c.semesterId == t[4] && Stoi(t[5]) == Some(c.credits) && c.schedule == t[6] &&
        Stoi(t[7]) == Some(c.maxStudents)
    {
      var t := Tokens(line);
      if |t| >= 8 then
        Course(t[0], t[1], t[2], t[3], t[4], Stoi(t[5]).value, t[6], Stoi(t[7]).value)
      else EmptyCourse
    }
  }

  /** `Course()`: the constructor is defaulted, so `return Course();` value-initialises and both integers are 0. */
  const EmptyCourse := Course("", "", "", "", "", 0, "", 0)

  lemma CourseRoundTrip(c: Course)
    requires c.Storable()
    ensures Course.NumbersParse(c.ToCsv()) && Course.FromCsv(c.ToCsv()) == c
  {
    TokensOfJoin(c.Fields());
    StoiOfIntToString(c.credits);
    StoiOfIntToString(c.maxStudents);
  }

  lemma CourseIgnoresExtra(line: string, extra: string)
    requires Course.NumbersParse(line) && |Tokens(line)| >= 8
    ensures Course.NumbersParse(line + [Comma] + extra)
    ensures Course.FromCsv(line + [Comma] + extra) == Course.FromCsv(line)
  {
    TokensPrefix(line, extra);
  }

  // ---------------------------------------------------------------------- Exam

  datatype Exam = Exam(examId: string, courseId: string, examName: string, examDate: string, examTime: string,
                       examType: string, totalMarks: Int32)
  {
    function Fields(): seq<string>
    {
      [examId, courseId, examName, examDate, examTime, examType, IntToString(totalMarks)]
    }

    function ToCsv(): string { Join(Fields()) }

    predicate Storable() { NoCommas(Fields()) }

    static predicate NumbersParse(line: string)
    {
      var t := Tokens(line);
      |t| >= 7 ==> Stoi(t[6]).Some?
    }

    static function FromCsv(line: string): (e: Exam)
      requires Exam.NumbersParse(line)
      ensures |Tokens(line)| < 7 ==> e == EmptyExam
      ensures |Tokens(line)| >= 7 ==>
        var t := Tokens(line);
        e.examId == t[0] && e.courseId == t[1] && e.examName == t[2] && e.examDate == t[3] &&
        e.examTime == t[4] && e.examType == t[5] && Stoi(t[6]) == Some(e.totalMarks)
    {
      var t := Tokens(line);
      if |t| >= 7 then Exam(t[0], t[1], t[2], t[3], t[4], t[5], Stoi(t[6]).value) else EmptyExam
    }
  }

  /** `Exam()`: value-initialised through the defaulted constructor, so `totalMarks` is 0. */
  const EmptyExam := Exam("", "", "", "", "", "", 0)

  lemma ExamRoundTrip(e: Exam)
    requires e.Storable()
    ensures Exam.NumbersParse(e.ToCsv()) && Exam.FromCsv(e.ToCsv()) == e
  {
    TokensOfJoin(e.Fields());
    StoiOfIntToString(e.totalMarks);
  }

  lemma ExamIgnoresExtra(line: string, extra: string)
    requires Exam.NumbersParse(line) && |Tokens(line)| >= 7
    ensures Exam.NumbersParse(line + [Comma] + extra)
    ensures Exam.FromCsv(line + [Comma] + extra) == Exam.FromCsv(line)
  {
    TokensPrefix(line, extra);
  }

  // --------------------------------------------------------------------- Grade

  datatype Grade = Grade(studentId: string, examId: string, marksObtained: Int32, letterGrade: string,
                         comments: string)
  {
    function Fields(): seq<string>
    {
      [studentId, examId, IntToString(marksObtained), letterGrade, comments]
    }

    function ToCsv(): string { Join(Fields()) }

    predicate Storable() { NoCommas(Fields()) && comments != "" }

    static predicate NumbersParse(line: string)
    {
      var t := Tokens(line);
      |t| >= 5 ==> Stoi(t[2]).Some?
    }

    static function FromCsv(line: string): (g: Grade)
      requires Grade.NumbersParse(line)
      ensures |Tokens(line)| < 5 ==> g == EmptyGrade
      ensures |Tokens(line)| >= 5 ==>
        var t := Tokens(line);
        g.studentId == t[0] && g.examId == t[1] && Stoi(t[2]) == Some(g.marksObtained) &&
        g.letterGrade == t[3] && g.comments == t[4]
    {
      var t := Tokens(line);
      if |t| >= 5 then Grade(t[0], t[1], Stoi(t[2]).value, t[3], t[4]) else EmptyGrade
    }
  }

  /** `Grade()`: value-initialised through the defaulted constructor, so `marksObtained` is 0. */
  const EmptyGrade := Grade("", "", 0, "", "")

  lemma GradeRoundTrip(g: Grade)
    requires g.Storable()
    ensures Grade.NumbersParse(g.ToCsv()) && Grade.FromCsv(g.ToCsv()) == g
  {
    TokensOfJoin(g.Fields());
    StoiOfIntToString(g.marksObtained);
  }

  /**
   * Comments are optional when a grade is entered, but a grade written with
   * empty comments reads back as the default record: its line ends in ',',
   * which yields only four tokens.
   */
  lemma GradeEmptyCommentsLost(g: Grade)
    requires NoCommas(g.Fields()) && g.comments == ""
    ensures Grade.NumbersParse(g.ToCsv()) && Grade.FromCsv(g.ToCsv()) == EmptyGrade
  {
    TokensDropEmptyLast(g.Fields());
  }

  /**
   * A reading of grade lines that keeps a trailing empty field: the split
   * on ',' without the final drop that `getline` makes.
   */
  predicate GradeNumbersParseKeepingEmpty(line: string)
  {
    var t := SplitOn(line);
    |t| >= 5 ==> Stoi(t[2]).Some?
  }

  function GradeFromCsvKeepingEmpty(line: string): (g: Grade)
    requires GradeNumbersParseKeepingEmpty(line)
    ensures |SplitOn(line)| < 5 ==> g == EmptyGrade
    ensures |SplitOn(line)| >= 5 ==>
      var t := SplitOn(line);
      g.studentId == t[0] && g.examId == t[1] && Stoi(t[2]) == Some(g.marksObtained) &&
      g.letterGrade == t[3] && g.comments == t[4]
  {
    var t := SplitOn(line);
    if |t| >= 5 then Grade(t[0], t[1], Stoi(t[2]).value, t[3], t[4]) else EmptyGrade
  }

  /** With that reading every comma-free grade survives, empty comments included. */
  lemma GradeRoundTripKeepingEmpty(g: Grade)
    requires NoCommas(g.Fields())
    ensures GradeNumbersParseKeepingEmpty(g.ToCsv()) && GradeFromCsvKeepingEmpty(g.ToCsv()) == g
  {
    SplitOnJoin(g.Fields());
    StoiOfIntToString(g.marksObtained);
  }

  lemma GradeIgnoresExtra(line: string, extra: string)
    requires Grade.NumbersParse(line) && |Tokens(line)| >= 5
    ensures Grade.NumbersParse(line + [Comma] + extra)
    ensures Grade.FromCsv(line + [Comma] + extra) == Grade.FromCsv(line)
  {
    TokensPrefix(line, extra);
  }

  // ---------------------------------------------------------------------- User

  datatype User = User(id: string, username: string, passwordHash: string, role: string, name: string,
                       email: string, phone: string, address: string, departmentId: string,
                       dateJoined: string)
  {
    function Fields(): seq<string>
    {
      [id, username, passwordHash, role, name, email, phone, address, departmentId, dateJoined]
    }

    function ToCsv(): string { Join(Fields()) }

    predicate Storable() { NoCommas(Fields()) && dateJoined != "" }

    static function FromCsv(line: string): (u: User)
      ensures |Tokens(line)| < 10 ==> u == EmptyUser
      ensures |Tokens(line)| >= 10 ==> u.Fields() == Tokens(line)[..10]
    {
      var t := Tokens(line);
      if |t| >= 10 then User(t[0], t[1], t[2], t[3], t[4], t[5], t[6], t[7], t[8], t[9]) else EmptyUser
    }
  }

  const EmptyUser := User("", "", "", "", "", "", "", "", "", "")

  lemma UserRoundTrip(u: User)
    requires u.Storable()
    ensures User.FromCsv(u.ToCsv()) == u
  {
    TokensOfJoin(u.Fields());
  }

  lemma UserIgnoresExtra(line: string, extra: string)
    requires |Tokens(line)| >= 10
    ensures User.FromCsv(line + [Comma] + extra) == User.FromCsv(line)
  {
    TokensPrefix(line, extra);
  }

  /** The salt `SimpleHash` appends before hashing. */
  const Salt := "UMS_SALT_2025"

  /**
   * `SimpleHash::hash`: the decimal text of `std::hash` of the salted input.
   * `std::hash` is implementation-defined, so it is a parameter.
   */
  function SimpleHash(stdHash: string -> nat, input: string): string
  {
    NatToDigits(stdHash(input + Salt))
  }

  /** Two passwords hash alike exactly when `std::hash` agrees on them salted. */
  lemma SimpleHashMatches(stdHash: string -> nat, p: string, q: string)
    ensures SimpleHash(stdHash, p) == SimpleHash(stdHash, q) <==> stdHash(p + Salt) == stdHash(q + Salt)
  {
    NatToDigitsInjective(stdHash(p + Salt), stdHash(q + Salt));
  }

  /**
   * The `User` constructor: stores the hash of the password and the decimal
   * text of the creation time `now` (`std::time(0)`, passed in).
   */
  function NewUser(stdHash: string -> nat, now: int, id: string, username: string, password: string,
                   role: string, name: string, email: string, phone: string, address: string,
                   deptId: string): User
  {
    User(id, username, SimpleHash(stdHash, password), role, name, email, phone, address, deptId, IntToString(now))
  }

  /**
   * A user the program creates reloads intact when the text typed for it
   * has no comma: the stored hash and join date are digits (and '-'), and
   * the join date is never empty.
   */
  lemma NewUserRoundTrip(stdHash: string -> nat, now: int, id: string, username: string, password: string,
                         role: string, name: string, email: string, phone: string, address: string,
                         deptId: string)
    requires NoCommas([id, username, role, name, email, phone, address, deptId])
    ensures var u := NewUser(stdHash, now, id, username, password, role, name, email, phone, address, deptId);
      User.FromCsv(u.ToCsv()) == u
  {
    var u := NewUser(stdHash, now, id, username, password, role, name, email, phone, address, deptId);
    var typed := [id, username, role, name, email, phone, address, deptId];
    assert NoComma(u.passwordHash) by {
      assert AllDigits(u.passwordHash);
    }
    assert NoComma(u.dateJoined) by {
      assert forall k :: 0 <= k < |u.dateJoined| ==> IsDigit(u.dateJoined[k]) || u.dateJoined[k] == '-';
    }
    assert NoCommas(u.Fields()) by {
      assert u.Fields()[0] == typed[0] && u.Fields()[1] == typed[1];
      assert forall i :: 3 <= i < 9 ==> u.Fields()[i] == typed[i - 1];
    }
    UserRoundTrip(u);
  }

  // ---------------------------------------------------------------- Enrollment

  datatype Enrollment = Enrollment(studentId: string, courseId: string, grade: string, status: string)
  {
    function Fields(): seq<string> { [studentId, courseId, grade, status] }

    function ToCsv(): string { Join(Fields()) }

    predicate Storable() { NoCommas(Fields()) && status != "" }

    static function FromCsv(line: string): (e: Enrollment)
      ensures |Tokens(line)| < 4 ==> e == EmptyEnrollment
      ensures |Tokens(line)| >= 4 ==> e.Fields() == Tokens(line)[..4]
    {
      var t := Tokens(line);
      if |t| >= 4 then Enrollment(t[0], t[1], t[2], t[3]) else EmptyEnrollment
    }
  }

  const EmptyEnrollment := Enrollment("", "", "", "")

  lemma EnrollmentRoundTrip(e: Enrollment)
    requires e.Storable()
    ensures Enrollment.FromCsv(e.ToCsv()) == e
  {
    TokensOfJoin(e.Fields());
  }

  lemma EnrollmentIgnoresExtra(line: string, extra: string)
    requires |Tokens(line)| >= 4
    ensures Enrollment.FromCsv(line + [Comma] + extra) == Enrollment.FromCsv(line)
  {
    TokensPrefix(line, extra);
  }

  // ---------------------------------------------------------------- Attendance

  datatype Attendance = Attendance(studentId: string, courseId: string, date: string, status: string)
  {
    function Fields(): seq<string> { [studentId, courseId, date, status] }

    function ToCsv(): string { Join(Fields()) }

    predicate Storable() { NoCommas(Fields()) && status != "" }

    static function FromCsv(line: string): (a: Attendance)
      ensures |Tokens(line)| < 4 ==> a == EmptyAttendance
      ensures |Tokens(line)| >= 4 ==> a.Fields() == Tokens(line)[..4]
    {
      var t := Tokens(line);
      if |t| >= 4 then Attendance(t[0], t[1], t[2], t[3]) else EmptyAttendance
    }
  }

  const EmptyAttendance := Attendance("", "", "", "")

  lemma AttendanceRoundTrip(a: Attendance)
    requires a.Storable()
    ensures Attendance.FromCsv(a.ToCsv()) == a
  {
    TokensOfJoin(a.Fields());
  }

  lemma AttendanceIgnoresExtra(line: string, extra: string)
    requires |Tokens(line)| >= 4
    ensures Attendance.FromCsv(line + [Comma] + extra) == Attendance.FromCsv(line)
  {
    TokensPrefix(line, extra);
  }
}

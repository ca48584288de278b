/**
 * `DatabaseManager`: the eight in-memory collections, the lookups and
 * queries over them, id generation, and the rule that a store without users
 * receives the built-in administrator.
 */
module Database {
  import opened Wrappers
  import opened Numeric
  import opened Records
  import opened Queries

  // The keys the collections are searched by.
  function UsernameOf(u: User): string { u.username }
  function UserIdOf(u: User): string { u.id }
  function RoleOf(u: User): string { u.role }
  function DeptIdOf(d: Department): string { d.deptId }
  function SemesterIdOf(s: Semester): string { s.semesterId }
  function CourseIdOf(c: Course): string { c.courseId }
  function TeacherOf(c: Course): string { c.teacherId }
  function ExamIdOf(e: Exam): string { e.examId }
  function ExamCourseOf(e: Exam): string { e.courseId }
  function EnrollmentStudentOf(e: Enrollment): string { e.studentId }
  function GradeStudentOf(g: Grade): string { g.studentId }

  predicate IsEnrolledRow(e: Enrollment, studentId: string, courseId: string)
  {
    e.studentId == studentId && e.courseId == courseId && e.status == "enrolled"
  }

  /** The `std::any_of` of `isStudentEnrolled`. */
  function AnyEnrolled(es: seq<Enrollment>, studentId: string, courseId: string): (b: bool)
    ensures b <==> exists i :: 0 <= i < |es| && IsEnrolledRow(es[i], studentId, courseId)
  {
    if es == [] then false
    else if IsEnrolledRow(es[0], studentId, courseId) then true
    else
      var rest := AnyEnrolled(es[1..], studentId, courseId);
      assert forall i :: 1 <= i < |es| ==> es[i] == es[1..][i - 1];
      rest
  }

  /** No student holds two "enrolled" rows for the same course. */
  predicate AtMostOneEnrolled(es: seq<Enrollment>)
  {
    forall i, j :: 0 <= i < j < |es| && es[i].status == "enrolled" ==>
      !IsEnrolledRow(es[j], es[i].studentId, es[i].courseId)
  }

  /** Appending an "enrolled" row for a pair that has none keeps at most one per pair. */
  lemma EnrollKeepsAtMostOne(es: seq<Enrollment>, studentId: string, courseId: string)
    requires AtMostOneEnrolled(es) && !AnyEnrolled(es, studentId, courseId)
    ensures AtMostOneEnrolled(es + [Enrollment(studentId, courseId, "", "enrolled")])
    ensures AnyEnrolled(es + [Enrollment(studentId, courseId, "", "enrolled")], studentId, courseId)
  {
    var t := es + [Enrollment(studentId, courseId, "", "enrolled")];
    assert IsEnrolledRow(t[|es|], studentId, courseId);
    forall i, j | 0 <= i < j < |t| && t[i].status == "enrolled"
      ensures !IsEnrolledRow(t[j], t[i].studentId, t[i].courseId)
    {
      assert t[i] == es[i];
      if j < |es| {
        assert t[j] == es[j];
      }
    }
  }

  // ------------------------------------------------------------ id generation

  /** The number `std::stoi` reads after `prefix`, if `id` is longer than and starts with `prefix`. */
  function SuffixNumber(prefix: string, id: string): Option<Int32>
  {
    if |id| > |prefix| && id[..|prefix|] == prefix then Stoi(id[|prefix|..]) else None
  }

  /** The largest suffix number among `ids`, at least 0 (`maxNum`). */
  function MaxSuffix(prefix: string, ids: seq<string>): (m: nat)
    ensures m <= IntMax
  {
    if ids == [] then 0
    else
      var m := MaxSuffix(prefix, ids[..|ids| - 1]);
      match SuffixNumber(prefix, ids[|ids| - 1])
      case Some(n) => if n > m then n else m
      case None => m
  }

  /** MaxSuffix is the maximum: it bounds every suffix number and is 0 or one of them. */
  lemma {:induction false} MaxSuffixIsMaximum(prefix: string, ids: seq<string>)
    ensures forall id :: id in ids && SuffixNumber(prefix, id).Some? ==>
      SuffixNumber(prefix, id).value <= MaxSuffix(prefix, ids)
    ensures MaxSuffix(prefix, ids) == 0 ||
      exists id :: id in ids && SuffixNumber(prefix, id) == Some(MaxSuffix(prefix, ids) as Int32)
  {
    if ids != [] {
      var init := ids[..|ids| - 1];
      MaxSuffixIsMaximum(prefix, init);
      assert ids == init + [ids[|ids| - 1]];
    }
  }

  /** The result depends only on which ids occur, not on their order or repetition. */
  lemma MaxSuffixOrderIndependent(prefix: string, a: seq<string>, b: seq<string>)
    requires forall id :: id in a <==> id in b
    ensures MaxSuffix(prefix, a) == MaxSuffix(prefix, b)
  {
    MaxSuffixIsMaximum(prefix, a);
    MaxSuffixIsMaximum(prefix, b);
  }

  function NextNumber(prefix: string, ids: seq<string>): nat
  {
    MaxSuffix(prefix, ids) + 1
  }

  /** `n` left-padded with '0' to three digits. */
  function PadTo3(n: nat): (s: string)
    requires 1 <= n <= 999
  {
    NatToDigitsLength(n);
    Zeros(3 - |NatToDigits(n)|) + NatToDigits(n)
  }

  /**
   * What `generateNextId` returns. Defined only while the next number has
   * at most three digits: beyond that `3 - length` wraps around as a
   * `size_t` and the `std::string` constructor throws.
   */
  function NextId(prefix: string, ids: seq<string>): string
    requires NextNumber(prefix, ids) <= 999
  {
    prefix + PadTo3(NextNumber(prefix, ids))
  }

  /** The generated id is the prefix, then three digits that read back as the next number. */
  lemma NextIdShape(prefix: string, ids: seq<string>)
    requires NextNumber(prefix, ids) <= 999
    ensures |NextId(prefix, ids)| == |prefix| + 3 && NextId(prefix, ids)[..|prefix|] == prefix
    ensures SuffixNumber(prefix, NextId(prefix, ids)) == Some(NextNumber(prefix, ids))
    ensures AllDigits(NextId(prefix, ids)[|prefix|..])
    ensures DigitsValue(NextId(prefix, ids)[|prefix|..]) == NextNumber(prefix, ids)
  {
    var n := NextNumber(prefix, ids);
    var id := NextId(prefix, ids);
    NatToDigitsLength(n);
    var k := 3 - |NatToDigits(n)|;
    assert id[|prefix|..] == Zeros(k) + NatToDigits(n);
    StoiOfPadded(k, n);
    DigitsValueLeadingZeros(k, NatToDigits(n));
    DigitsValueOfNat(n);
  }

  /** Three decimal digits are fixed by their value: the suffix is the zero-padded number and nothing else. */
  lemma ThreeDigitsByValue(s: string, t: string)
    requires |s| == 3 && |t| == 3 && AllDigits(s) && AllDigits(t) && DigitsValue(s) == DigitsValue(t)
    ensures s == t
  {
    assert s[..2][..1] == s[..1] && t[..2][..1] == t[..1];
    assert s[..1][..0] == [] && t[..1][..0] == [];
    var a, b := DigitsValue(s[..2]), DigitsValue(t[..2]);
    assert a * 10 + DigitValue(s[2]) == b * 10 + DigitValue(t[2]);
    assert s[2] == t[2];
    assert DigitsValue(s[..1]) * 10 + DigitValue(s[1]) == DigitsValue(t[..1]) * 10 + DigitValue(t[1]);
    assert s[1] == t[1] && s[0] == t[0];
  }

  /** The generated id is not among the existing ones. */
  lemma NextIdFresh(prefix: string, ids: seq<string>)
    requires NextNumber(prefix, ids) <= 999
    ensures NextId(prefix, ids) !in ids
  {
    NextIdShape(prefix, ids);
    MaxSuffixIsMaximum(prefix, ids);
  }

  /** Adding the generated id makes the next one a number higher. */
  lemma NextIdAdvances(prefix: string, ids: seq<string>)
    requires NextNumber(prefix, ids) <= 999
    ensures NextNumber(prefix, ids + [NextId(prefix, ids)]) == NextNumber(prefix, ids) + 1
  {
    NextIdShape(prefix, ids);
    var ids' := ids + [NextId(prefix, ids)];
    assert ids'[..|ids'| - 1] == ids;
  }

  lemma SuffixNumberOfPadded(prefix: string, k: nat, n: nat)
    requires n <= IntMax
    ensures SuffixNumber(prefix, prefix + (Zeros(k) + NatToDigits(n))) == Some(n)
  {
    var id := prefix + (Zeros(k) + NatToDigits(n));
    assert id[..|prefix|] == prefix && id[|prefix|..] == Zeros(k) + NatToDigits(n);
    StoiOfPadded(k, n);
  }

  lemma ZerosTwo() ensures Zeros(2) == "00"
  {
    assert Zeros(1) == Zeros(0) + ['0'];
  }

  lemma SmallDigits() ensures NatToDigits(1) == "1" && NatToDigits(3) == "3" && NatToDigits(4) == "4"
  {
    assert DigitChar(1) == '1';
  }

  lemma PaddedExamples()
    ensures SuffixNumber("STU", "STU001") == Some(1) && SuffixNumber("STU", "STU003") == Some(3)
  {
    ZerosTwo();
    SmallDigits();
    assert "STU" + (Zeros(2) + NatToDigits(1)) == "STU001";
    assert "STU" + (Zeros(2) + NatToDigits(3)) == "STU003";
    SuffixNumberOfPadded("STU", 2, 1);
    SuffixNumberOfPadded("STU", 2, 3);
  }

  lemma MaxSuffixExample()
    ensures MaxSuffix("STU", ["STU001", "STU003"]) == 3 && MaxSuffix("STU", ["STU003", "STU001"]) == 3
  {
    var a, b := ["STU001", "STU003"], ["STU003", "STU001"];
    PaddedExamples();
    assert a[..1] == ["STU001"] && b[..1] == ["STU003"];
  }

  lemma NextIdExample()
    ensures NextNumber("STU", ["STU001", "STU003"]) == 4 && NextNumber("STU", ["STU003", "STU001"]) == 4
    ensures NextId("STU", ["STU001", "STU003"]) == "STU004"
    ensures NextId("STU", ["STU003", "STU001"]) == "STU004"
  {
    MaxSuffixExample();
    SmallDigits();
    ZerosTwo();
    assert PadTo3(4) == "004";
  }

  // -------------------------------------------------------- login and bootstrap

  /** The built-in administrator created when no user is loaded. */
  function DefaultAdmin(stdHash: string -> nat, now: int): User
  {
    NewUser(stdHash, now, "admin001", "admin", "admin123", "admin", "System Administrator",
            "admin@university.edu", "", "", "")
  }

  /** The users after loading: the loaded ones, or the administrator alone when there are none. */
  function WithDefaultAdmin(loaded: seq<User>, stdHash: string -> nat, now: int): (r: seq<User>)
    ensures r != []
    ensures loaded != [] ==> r == loaded
    ensures loaded == [] ==> |r| == 1 && r[0].id == "admin001" && r[0].username == "admin" && r[0].role == "admin"
  {
    if loaded == [] then [DefaultAdmin(stdHash, now)] else loaded
  }

  /**
   * The login check: the first user with this username, provided the hash
   * of the password given matches the stored one.
   */
  function Authenticate(users: seq<User>, stdHash: string -> nat, username: string, password: string)
    : (r: Option<nat>)
    ensures r.Some? ==> r.value < |users| && users[r.value].username == username
    ensures r.Some? ==> users[r.value].passwordHash == SimpleHash(stdHash, password)
    ensures r.Some? ==> forall j :: 0 <= j < r.value ==> users[j].username != username
    ensures r.None? ==> forall i ::
      (0 <= i < |users| && users[i].username == username &&
       forall j :: 0 <= j < i ==> users[j].username != username) ==>
      users[i].passwordHash != SimpleHash(stdHash, password)
  {
    match FirstIndex(users, UsernameOf, username)
    case Some(i) => if users[i].passwordHash == SimpleHash(stdHash, password) then Some(i) else None
    case None => None
  }

  /** On a first run the administrator can log in with the built-in credentials. */
  lemma AdminCanLogIn(stdHash: string -> nat, now: int)
    ensures Authenticate(WithDefaultAdmin([], stdHash, now), stdHash, "admin", "admin123") == Some(0)
  {
  }

  /**
   * In any user table, the first user with a username, created with password
   * `p0`, logs in exactly with the passwords whose salted `std::hash` equals
   * that of `p0`; no other user can be reached under that username.
   */
  lemma LogInExactlyOnHash(users: seq<User>, stdHash: string -> nat, username: string, p0: string,
                           attempt: string, i: nat)
    requires i < |users| && users[i].username == username && users[i].passwordHash == SimpleHash(stdHash, p0)
    requires forall j :: 0 <= j < i ==> users[j].username != username
    ensures Authenticate(users, stdHash, username, attempt) ==
      if stdHash(attempt + Salt) == stdHash(p0 + Salt) then Some(i) else None
  {
    var f := FirstIndex(users, UsernameOf, username);
    assert f == Some(i) by {
      assert UsernameOf(users[i]) == username;
    }
    SimpleHashMatches(stdHash, attempt, p0);
  }

  /**
   * A user appended under a fresh username logs in with exactly those
   * passwords whose salted `std::hash` equals that of the password it was
   * created with.
   */
  lemma NewUserLogIn(users: seq<User>, stdHash: string -> nat, now: int, id: string, username: string,
                     password: string, role: string, name: string, email: string, phone: string,
                     address: string, deptId: string, attempt: string)
    requires FirstIndex(users, UsernameOf, username).None?
    ensures var u := NewUser(stdHash, now, id, username, password, role, name, email, phone, address, deptId);
      Authenticate(users + [u], stdHash, username, attempt) ==
        if stdHash(attempt + Salt) == stdHash(password + Salt) then Some(|users|) else None
  {
    var u := NewUser(stdHash, now, id, username, password, role, name, email, phone, address, deptId);
    FirstIndexAppend(users, UsernameOf, username, u);
    SimpleHashMatches(stdHash, attempt, password);
  }

  // -------------------------------------------------------------- the manager

  class DatabaseManager {
    var users: seq<User>
    var departments: seq<Department>
    var semesters: seq<Semester>
    var courses: seq<Course>
    var exams: seq<Exam>
    var grades: seq<Grade>
    var enrollments: seq<Enrollment>
    var attendanceRecords: seq<Attendance>

    /** Starts from the decoded contents of the eight files (empty for a missing file). */
    constructor (loadedUsers: seq<User>, loadedDepartments: seq<Department>, loadedSemesters: seq<Semester>,
                 loadedCourses: seq<Course>, loadedExams: seq<Exam>, loadedGrades: seq<Grade>,
                 loadedEnrollments: seq<Enrollment>, loadedAttendance: seq<Attendance>,
                 stdHash: string -> nat, now: int)
      ensures users == WithDefaultAdmin(loadedUsers, stdHash, now)
      ensures departments == loadedDepartments && semesters == loadedSemesters && courses == loadedCourses
      ensures exams == loadedExams && grades == loadedGrades && enrollments == loadedEnrollments
      ensures attendanceRecords == loadedAttendance
    {
      users := WithDefaultAdmin(loadedUsers, stdHash, now);
      departments := loadedDepartments;
      semesters := loadedSemesters;
      courses := loadedCourses;
      exams := loadedExams;
      grades := loadedGrades;
      enrollments := loadedEnrollments;
      attendanceRecords := loadedAttendance;
    }

    function FindUser(username: string): Option<nat>
      reads this`users
    {
      FirstIndex(users, UsernameOf, username)
    }

    function FindUserById(id: string): Option<nat>
      reads this`users
    {
      FirstIndex(users, UserIdOf, id)
    }

    function FindDepartment(deptId: string): Option<nat>
      reads this`departments
    {
      FirstIndex(departments, DeptIdOf, deptId)
    }

    function FindSemester(semesterId: string): Option<nat>
      reads this`semesters
    {
      FirstIndex(semesters, SemesterIdOf, semesterId)
    }

    function FindCourse(courseId: string): Option<nat>
      reads this`courses
    {
      FirstIndex(courses, CourseIdOf, courseId)
    }

    function FindExam(examId: string): Option<nat>
      reads this`exams
    {
      FirstIndex(exams, ExamIdOf, examId)
    }

    /** The id names a user whose role is "student" (the first user with that id decides). */
    predicate IsStudentUser(id: string)
      reads this`users
    {
      var i := FindUserById(id);
      i.Some? && users[i.value].role == "student"
    }

    predicate IsStudentEnrolled(studentId: string, courseId: string)
      reads this`enrollments
    {
      AnyEnrolled(enrollments, studentId, courseId)
    }

    method GetTeacherCourses(teacherId: string) returns (r: seq<Course>)
      ensures r == Filter(courses, TeacherOf, teacherId)
    {
      r := Collect(courses, TeacherOf, teacherId);
    }

    method GetCourseExams(courseId: string) returns (r: seq<Exam>)
      ensures r == Filter(exams, ExamCourseOf, courseId)
    {
      r := Collect(exams, ExamCourseOf, courseId);
    }

    method GetStudentEnrollments(studentId: string) returns (r: seq<Enrollment>)
      ensures r == Filter(enrollments, EnrollmentStudentOf, studentId)
    {
      r := Collect(enrollments, EnrollmentStudentOf, studentId);
    }

    method GetStudentGrades(studentId: string) returns (r: seq<Grade>)
      ensures r == Filter(grades, GradeStudentOf, studentId)
    {
      r := Collect(grades, GradeStudentOf, studentId);
    }

    /** The `maxNum` loop of `generateNextId`; an id whose suffix `std::stoi` rejects is skipped. */
    method GenerateNextId(prefix: string, existingIds: seq<string>) returns (id: string)
      requires NextNumber(prefix, existingIds) <= 999
      ensures id == NextId(prefix, existingIds)
    {
      var maxNum := 0;
      var i := 0;
      while i < |existingIds|
        invariant 0 <= i <= |existingIds|
        invariant maxNum == MaxSuffix(prefix, existingIds[..i])
      {
        var candidate := existingIds[i];
        assert existingIds[..i + 1][..i] == existingIds[..i];
        if |candidate| > |prefix| && candidate[..|prefix|] == prefix {
          match Stoi(candidate[|prefix|..]) {
            case Some(num) =>
              if num > maxNum {
                maxNum := num;
              }
            case None =>
          }
        }
        i := i + 1;
      }
      assert existingIds[..|existingIds|] == existingIds;
      var digits := NatToDigits(maxNum + 1);
      NatToDigitsLength(maxNum + 1);
      id := prefix + Zeros(3 - |digits|) + digits;
    }
  }
}

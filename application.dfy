/**
 * `UMSApplication` without its console: each menu action becomes a method
 * whose parameters are the answers typed at its prompts. The session is the id
 * of the logged-in user. Every action runs its checks in the order the menus
 * ask for them, and then makes exactly one append, erase or field update on
 * one of the manager's collections, or rejects and changes nothing.
 */
module Ums {
  import opened Wrappers
  import opened Numeric
  import opened Records
  import opened Queries
  import opened Database
  import opened Grading

  /** Why an action printed its error message and returned. */
  datatype Failure =
    | Cancelled
    | DuplicateId
    | DuplicateUsername
    | NotFound
    | NotYourCourse
    | InvalidTeacher
    | InvalidDepartment
    | InvalidSemester
    | InvalidStudent
    | AlreadyEnrolled
    | NotEnrolled
    | NoExams
    | InvalidExam
    | InvalidMarks
    | CannotDeleteAdmin
    | NotAuthorized

  datatype Outcome = Done | Rejected(failure: Failure)

  /** Role chosen at the signup menu: 1 is a student, any other answer except 3 a teacher. */
  function SignupRole(choice: int): string
  {
    if choice == 1 then "student" else "teacher"
  }

  /** Id prefix of a role created at signup. */
  function SignupPrefix(choice: int): string
  {
    if SignupRole(choice) == "student" then "STU" else "TCH"
  }

  const ExamPrefix := "EX"

  class UmsApplication {
    const db: DatabaseManager
    const stdHash: string -> nat
    var currentUser: Option<string>

    constructor (db: DatabaseManager, stdHash: string -> nat)
      ensures this.db == db && this.stdHash == stdHash && currentUser == None
    {
      this.db := db;
      this.stdHash := stdHash;
      currentUser := None;
    }

    // ------------------------------------------------------------ session

    method Login(username: string, password: string) returns (ok: bool)
      modifies this`currentUser
      ensures ok <==> Authenticate(db.users, stdHash, username, password).Some?
      ensures ok ==> currentUser == Some(db.users[Authenticate(db.users, stdHash, username, password).value].id)
      ensures !ok ==> currentUser == old(currentUser)
    {
      var i := db.FindUser(username);
      if i.Some? && db.users[i.value].passwordHash == SimpleHash(stdHash, password) {
        currentUser := Some(db.users[i.value].id);
        ok := true;
      } else {
        ok := false;
      }
    }

    method Logout()
      modifies this`currentUser
      ensures currentUser == None
    {
      currentUser := None;
    }

    /** The signup answers pass all checks and a new user is appended. */
    predicate SignupAccepted(choice: int, username: string, deptId: string)
      reads db`users, db`departments
    {
      choice != 3 && db.FindUser(username).None? && (db.departments == [] || db.FindDepartment(deptId).Some?)
    }

    /**
     * Self-registration. The department is asked for, and checked, only when
     * departments exist; otherwise it stays empty. The id must fit in three
     * digits once the checks have passed.
     */
    method Signup(choice: int, username: string, password: string, name: string, email: string,
                  phone: string, address: string, deptId: string, now: int) returns (outcome: Outcome)
      requires SignupAccepted(choice, username, deptId) ==>
        NextNumber(SignupPrefix(choice), KeysOf(db.users, UserIdOf)) <= 999
      modifies db`users
      ensures outcome.Done? <==> old(SignupAccepted(choice, username, deptId))
      ensures outcome == Rejected(Cancelled) <==> choice == 3
      ensures outcome == Rejected(DuplicateUsername) <==> choice != 3 && old(db.FindUser(username)).Some?
      ensures outcome == Rejected(InvalidDepartment) <==>
        choice != 3 && old(db.FindUser(username)).None? && db.departments != [] && db.FindDepartment(deptId).None?
      ensures outcome.Rejected? ==> db.users == old(db.users)
      ensures outcome.Done? ==>
        db.users == old(db.users) + [NewUser(stdHash, now, NextId(SignupPrefix(choice), KeysOf(old(db.users), UserIdOf)),
                                             username, password, SignupRole(choice), name, email, phone, address,
                                             if db.departments == [] then "" else deptId)]
      ensures outcome.Done? ==> old(db.FindUserById(NextId(SignupPrefix(choice), KeysOf(db.users, UserIdOf)))).None?
      ensures UniqueKeys(old(db.users), UserIdOf) ==> UniqueKeys(db.users, UserIdOf)
      ensures UniqueKeys(old(db.users), UsernameOf) ==> UniqueKeys(db.users, UsernameOf)
    {
      if choice == 3 {
        return Rejected(Cancelled);
      }
      if db.FindUser(username).Some? {
        return Rejected(DuplicateUsername);
      }
      var dept := "";
      if db.departments != [] {
        if db.FindDepartment(deptId).None? {
          return Rejected(InvalidDepartment);
        }
        dept := deptId;
      }
      RegisterUser(choice, username, password, name, email, phone, address, dept, now);
      outcome := Done;
    }

    /**
     * The accepting end of the signup: the existing ids are collected, the
     * next id with the role's prefix is generated and the new user appended.
     */
    method RegisterUser(choice: int, username: string, password: string, name: string, email: string,
                        phone: string, address: string, dept: string, now: int)
      requires db.FindUser(username).None?
      requires NextNumber(SignupPrefix(choice), KeysOf(db.users, UserIdOf)) <= 999
      modifies db`users
      ensures db.users == old(db.users) + [NewUser(stdHash, now, NextId(SignupPrefix(choice), KeysOf(old(db.users), UserIdOf)),
                                                   username, password, SignupRole(choice), name, email, phone, address, dept)]
      ensures old(db.FindUserById(NextId(SignupPrefix(choice), KeysOf(db.users, UserIdOf)))).None?
      ensures UniqueKeys(old(db.users), UserIdOf) ==> UniqueKeys(db.users, UserIdOf)
      ensures UniqueKeys(old(db.users), UsernameOf) ==> UniqueKeys(db.users, UsernameOf)
    {
      var role := if choice == 1 then "student" else "teacher";
      var existingIds := Keys(db.users, UserIdOf);
      var prefix := if role == "student" then "STU" else "TCH";
      var newId := db.GenerateNextId(prefix, existingIds);
      NextIdFresh(prefix, existingIds);
      KeysOfFinds(db.users, UserIdOf, newId);
      var u := NewUser(stdHash, now, newId, username, password, role, name, email, phone, address, dept);
      if UniqueKeys(db.users, UserIdOf) {
        AppendFreshKeepsUnique(db.users, UserIdOf, u);
      }
      if UniqueKeys(db.users, UsernameOf) {
        AppendFreshKeepsUnique(db.users, UsernameOf, u);
      }
      db.users := db.users + [u];
    }

    // -------------------------------------------------------- departments

    method CreateDepartment(deptId: string, deptName: string, headOfDept: string, description: string)
      returns (outcome: Outcome)
      modifies db`departments
      ensures outcome.Done? <==> old(db.FindDepartment(deptId)).None?
      ensures outcome.Rejected? ==> outcome.failure == DuplicateId && db.departments == old(db.departments)
      ensures outcome.Done? ==>
        db.departments == old(db.departments) + [Department(deptId, deptName, headOfDept, description)]
      ensures UniqueKeys(old(db.departments), DeptIdOf) ==> UniqueKeys(db.departments, DeptIdOf)
    {
      if db.FindDepartment(deptId).Some? {
        return Rejected(DuplicateId);
      }
      var d := Department(deptId, deptName, headOfDept, description);
      if UniqueKeys(db.departments, DeptIdOf) {
        AppendFreshKeepsUnique(db.departments, DeptIdOf, d);
      }
      db.departments := db.departments + [d];
      outcome := Done;
    }

    /** Erases the first department with this id; with unique ids none is left. */
    method DeleteDepartment(deptId: string) returns (outcome: Outcome)
      modifies db`departments
      ensures outcome.Done? <==> old(db.FindDepartment(deptId)).Some?
      ensures outcome.Rejected? ==> outcome.failure == NotFound && db.departments == old(db.departments)
      ensures outcome.Done? ==>
        var i := old(db.FindDepartment(deptId)).value;
        db.departments == old(db.departments)[..i] + old(db.departments)[i + 1..]
      ensures UniqueKeys(old(db.departments), DeptIdOf) ==>
        UniqueKeys(db.departments, DeptIdOf) && db.FindDepartment(deptId).None?
    {
      var i := db.FindDepartment(deptId);
      if i.None? {
        return Rejected(NotFound);
      }
      if UniqueKeys(db.departments, DeptIdOf) {
        RemoveKeepsUnique(db.departments, DeptIdOf, i.value);
        RemoveLeavesNoMatch(db.departments, DeptIdOf, i.value);
      }
      db.departments := db.departments[..i.value] + db.departments[i.value + 1..];
      outcome := Done;
    }

    // ---------------------------------------------------------- semesters

    /** A new semester starts with status "upcoming". */
    method CreateSemester(semesterId: string, semesterName: string, startDate: string, endDate: string)
      returns (outcome: Outcome)
      modifies db`semesters
      ensures outcome.Done? <==> old(db.FindSemester(semesterId)).None?
      ensures outcome.Rejected? ==> outcome.failure == DuplicateId && db.semesters == old(db.semesters)
      ensures outcome.Done? ==>
        db.semesters == old(db.semesters) + [Semester(semesterId, semesterName, startDate, endDate, "upcoming")]
      ensures UniqueKeys(old(db.semesters), SemesterIdOf) ==> UniqueKeys(db.semesters, SemesterIdOf)
    {
      if db.FindSemester(semesterId).Some? {
        return Rejected(DuplicateId);
      }
      var s := Semester(semesterId, semesterName, startDate, endDate, "upcoming");
      if UniqueKeys(db.semesters, SemesterIdOf) {
        AppendFreshKeepsUnique(db.semesters, SemesterIdOf, s);
      }
      db.semesters := db.semesters + [s];
      outcome := Done;
    }

    /** Overwrites the status of the first semester with this id; any text is accepted. */
    method UpdateSemesterStatus(semesterId: string, newStatus: string) returns (outcome: Outcome)
      modifies db`semesters
      ensures outcome.Done? <==> old(db.FindSemester(semesterId)).Some?
      ensures outcome.Rejected? ==> outcome.failure == NotFound && db.semesters == old(db.semesters)
      ensures outcome.Done? ==>
        var i := old(db.FindSemester(semesterId)).value;
        db.semesters == old(db.semesters)[i := old(db.semesters)[i].(status := newStatus)]
      ensures UniqueKeys(old(db.semesters), SemesterIdOf) ==> UniqueKeys(db.semesters, SemesterIdOf)
    {
      var i := db.FindSemester(semesterId);
      if i.None? {
        return Rejected(NotFound);
      }
      var s := db.semesters[i.value].(status := newStatus);
      if UniqueKeys(db.semesters, SemesterIdOf) {
        UpdateKeepsUnique(db.semesters, SemesterIdOf, i.value, s);
      }
      db.semesters := db.semesters[i.value := s];
      outcome := Done;
    }

    method DeleteSemester(semesterId: string) returns (outcome: Outcome)
      modifies db`semesters
      ensures outcome.Done? <==> old(db.FindSemester(semesterId)).Some?
      ensures outcome.Rejected? ==> outcome.failure == NotFound && db.semesters == old(db.semesters)
      ensures outcome.Done? ==>
        var i := old(db.FindSemester(semesterId)).value;
        db.semesters == old(db.semesters)[..i] + old(db.semesters)[i + 1..]
      ensures UniqueKeys(old(db.semesters), SemesterIdOf) ==>
        UniqueKeys(db.semesters, SemesterIdOf) && db.FindSemester(semesterId).None?
    {
      var i := db.FindSemester(semesterId);
      if i.None? {
        return Rejected(NotFound);
      }
      if UniqueKeys(db.semesters, SemesterIdOf) {
        RemoveKeepsUnique(db.semesters, SemesterIdOf, i.value);
        RemoveLeavesNoMatch(db.semesters, SemesterIdOf, i.value);
      }
      db.semesters := db.semesters[..i.value] + db.semesters[i.value + 1..];
      outcome := Done;
    }
 
    // -------------------------------------------------------------- users

    /** Administrator-created accounts get no phone, address or department. */
    method CreateUser(role: string, id: string, username: string, password: string, name: string,
                      email: string, now: int) returns (outcome: Outcome)
      modifies db`users
      ensures outcome.Done? <==> old(db.FindUserById(id)).None? && old(db.FindUser(username)).None?
      ensures outcome == Rejected(DuplicateId) <==> old(db.FindUserById(id)).Some?
      ensures outcome == Rejected(DuplicateUsername) <==>
        old(db.FindUserById(id)).None? && old(db.FindUser(username)).Some?
      ensures outcome.Rejected? ==> db.users == old(db.users)
      ensures outcome.Done? ==>
        db.users == old(db.users) + [NewUser(stdHash, now, id, username, password, role, name, email, "", "", "")]
      ensures UniqueKeys(old(db.users), UserIdOf) ==> UniqueKeys(db.users, UserIdOf)
      ensures UniqueKeys(old(db.users), UsernameOf) ==> UniqueKeys(db.users, UsernameOf)
    {
      if db.FindUserById(id).Some? {
        return Rejected(DuplicateId);
      }
      if db.FindUser(username).Some? {
        return Rejected(DuplicateUsername);
      }
      var u := NewUser(stdHash, now, id, username, password, role, name, email, "", "", "");
      if UniqueKeys(db.users, UserIdOf) {
        AppendFreshKeepsUnique(db.users, UserIdOf, u);
      }
      if UniqueKeys(db.users, UsernameOf) {
        AppendFreshKeepsUnique(db.users, UsernameOf, u);
      }
      db.users := db.users + [u];
      outcome := Done;
    }

    /**
     * Erases the first user with this id unless that user is an
     * administrator; the administrators are the same, in the same order,
     * whatever happens.
     */
    method DeleteUser(id: string) returns (outcome: Outcome)
      modifies db`users
      ensures outcome == Rejected(NotFound) <==> old(db.FindUserById(id)).None?
      ensures outcome == Rejected(CannotDeleteAdmin) <==>
        old(db.FindUserById(id)).Some? && old(db.users[db.FindUserById(id).value].role) == "admin"
      ensures outcome.Rejected? ==> db.users == old(db.users)
      ensures outcome.Done? ==>
        var i := old(db.FindUserById(id)).value;
        db.users == old(db.users)[..i] + old(db.users)[i + 1..]
      ensures Filter(db.users, RoleOf, "admin") == Filter(old(db.users), RoleOf, "admin")
      ensures UniqueKeys(old(db.users), UserIdOf) ==> UniqueKeys(db.users, UserIdOf)
      ensures UniqueKeys(old(db.users), UsernameOf) ==> UniqueKeys(db.users, UsernameOf)
    {
      var i := db.FindUserById(id);
      if i.None? {
        return Rejected(NotFound);
      }
      if db.users[i.value].role == "admin" {
        return Rejected(CannotDeleteAdmin);
      }
      FilterRemoveOther(db.users, RoleOf, "admin", i.value);
      if UniqueKeys(db.users, UserIdOf) {
        RemoveKeepsUnique(db.users, UserIdOf, i.value);
      }
      if UniqueKeys(db.users, UsernameOf) {
        RemoveKeepsUnique(db.users, UsernameOf, i.value);
      }
      db.users := db.users[..i.value] + db.users[i.value + 1..];
      outcome := Done;
    }

    // ------------------------------------------------------------ courses

    /** The first user with this id exists and is a teacher. */
    predicate IsTeacherUser(id: string)
      reads db`users
    {
      var i := db.FindUserById(id);
      i.Some? && db.users[i.value].role == "teacher"
    }

    /**
     * The department and the semester are asked for, and checked, only when
     * some exist; otherwise they stay empty.
     */
    method CreateCourse(courseId: string, courseName: string, teacherId: string, departmentId: string,
                        semesterId: string, credits: Int32, schedule: string, maxStudents: Int32)
      returns (outcome: Outcome)
      modifies db`courses
      ensures outcome == Rejected(DuplicateId) <==> old(db.FindCourse(courseId)).Some?
      ensures outcome == Rejected(InvalidTeacher) <==> old(db.FindCourse(courseId)).None? && !IsTeacherUser(teacherId)
      ensures outcome == Rejected(InvalidDepartment) <==>
        old(db.FindCourse(courseId)).None? && IsTeacherUser(teacherId) &&
        db.departments != [] && db.FindDepartment(departmentId).None?
      ensures outcome == Rejected(InvalidSemester) <==>
        old(db.FindCourse(courseId)).None? && IsTeacherUser(teacherId) &&
        (db.departments == [] || db.FindDepartment(departmentId).Some?) &&
        db.semesters != [] && db.FindSemester(semesterId).None?
      ensures outcome.Done? <==>
        old(db.FindCourse(courseId)).None? && IsTeacherUser(teacherId) &&
        (db.departments == [] || db.FindDepartment(departmentId).Some?) &&
        (db.semesters == [] || db.FindSemester(semesterId).Some?)
      ensures outcome.Rejected? ==> db.courses == old(db.courses)
      ensures outcome.Done? ==>
        db.courses == old(db.courses) + [Course(courseId, courseName, teacherId,
                                                if db.departments == [] then "" else departmentId,
                                                if db.semesters == [] then "" else semesterId,
                                                credits, schedule, maxStudents)]
      ensures UniqueKeys(old(db.courses), CourseIdOf) ==> UniqueKeys(db.courses, CourseIdOf)
    {
      if db.FindCourse(courseId).Some? {
        return Rejected(DuplicateId);
      }
      var t := db.FindUserById(teacherId);
      if t.None? || db.users[t.value].role != "teacher" {
        return Rejected(InvalidTeacher);
      }
      var dept := "";
      if db.departments != [] {
        if db.FindDepartment(departmentId).None? {
          return Rejected(InvalidDepartment);
        }
        dept := departmentId;
      }
      var sem := "";
      if db.semesters != [] {
        if db.FindSemester(semesterId).None? {
          return Rejected(InvalidSemester);
        }
        sem := semesterId;
      }
      var c := Course(courseId, courseName, teacherId, dept, sem, credits, schedule, maxStudents);
      if UniqueKeys(db.courses, CourseIdOf) {
        AppendFreshKeepsUnique(db.courses, CourseIdOf, c);
      }
      db.courses := db.courses + [c];
      outcome := Done;
    }

    method DeleteCourse(courseId: string) returns (outcome: Outcome)
      modifies db`courses
      ensures outcome.Done? <==> old(db.FindCourse(courseId)).Some?
      ensures outcome.Rejected? ==> outcome.failure == NotFound && db.courses == old(db.courses)
      ensures outcome.Done? ==>
        var i := old(db.FindCourse(courseId)).value;
        db.courses == old(db.courses)[..i] + old(db.courses)[i + 1..]
      ensures UniqueKeys(old(db.courses), CourseIdOf) ==>
        UniqueKeys(db.courses, CourseIdOf) && db.FindCourse(courseId).None?
    {
      var i := db.FindCourse(courseId);
      if i.None? {
        return Rejected(NotFound);
      }
      if UniqueKeys(db.courses, CourseIdOf) {
        RemoveKeepsUnique(db.courses, CourseIdOf, i.value);
        RemoveLeavesNoMatch(db.courses, CourseIdOf, i.value);
      }
      db.courses := db.courses[..i.value] + db.courses[i.value + 1..];
      outcome := Done;
    }

    // -------------------------------------------------- teacher: ownership

    /** The first course with this id exists and is taught by the logged-in user. */
    predicate OwnsCourse(courseId: string)
      reads this`currentUser, db`courses
    {
      var i := db.FindCourse(courseId);
      currentUser.Some? && i.Some? && db.courses[i.value].teacherId == currentUser.value
    }

    // -------------------------------------------------------------- exams

    /** The exam gets the next "EX" id, which must fit in three digits. */
    method CreateExam(courseId: string, examName: string, examDate: string, examTime: string,
                      examType: string, totalMarks: Int32) returns (outcome: Outcome)
      requires currentUser.Some?
      requires OwnsCourse(courseId) ==> NextNumber(ExamPrefix, KeysOf(db.exams, ExamIdOf)) <= 999
      modifies db`exams
      ensures outcome.Done? <==> old(OwnsCourse(courseId))
      ensures outcome.Rejected? ==> outcome.failure == NotYourCourse && db.exams == old(db.exams)
      ensures outcome.Done? ==>
        db.exams == old(db.exams) + [Exam(NextId(ExamPrefix, KeysOf(old(db.exams), ExamIdOf)), courseId,
                                          examName, examDate, examTime, examType, totalMarks)]
      ensures UniqueKeys(old(db.exams), ExamIdOf) ==> UniqueKeys(db.exams, ExamIdOf)
    {
      var c := db.FindCourse(courseId);
      if c.None? || db.courses[c.value].teacherId != currentUser.value {
        return Rejected(NotYourCourse);
      }
      var existingIds := Keys(db.exams, ExamIdOf);
      var examId := db.GenerateNextId(ExamPrefix, existingIds);
      NextIdFresh(ExamPrefix, existingIds);
      KeysOfFinds(db.exams, ExamIdOf, examId);
      var e := Exam(examId, courseId, examName, examDate, examTime, examType, totalMarks);
      if UniqueKeys(db.exams, ExamIdOf) {
        AppendFreshKeepsUnique(db.exams, ExamIdOf, e);
      }
      db.exams := db.exams + [e];
      outcome := Done;
    }

    /** Only the teacher of the exam's course may erase it. */
    method DeleteExam(examId: string) returns (outcome: Outcome)
      requires currentUser.Some?
      modifies db`exams
      ensures outcome == Rejected(NotFound) <==> old(db.FindExam(examId)).None?
      ensures outcome == Rejected(NotAuthorized) <==>
        old(db.FindExam(examId)).Some? && !OwnsCourse(old(db.exams[db.FindExam(examId).value].courseId))
      ensures outcome.Rejected? ==> db.exams == old(db.exams)
      ensures outcome.Done? ==>
        var i := old(db.FindExam(examId)).value;
        db.exams == old(db.exams)[..i] + old(db.exams)[i + 1..]
      ensures UniqueKeys(old(db.exams), ExamIdOf) ==> UniqueKeys(db.exams, ExamIdOf)
      ensures outcome.Done? && UniqueKeys(old(db.exams), ExamIdOf) ==> db.FindExam(examId).None?
    {
      var e := db.FindExam(examId);
      if e.None? {
        return Rejected(NotFound);
      }
      var c := db.FindCourse(db.exams[e.value].courseId);
      if c.None? || db.courses[c.value].teacherId != currentUser.value {
        return Rejected(NotAuthorized);
      }
      // The second `find_if` over the exams finds the same first match.
      var i := FirstIndex(db.exams, ExamIdOf, examId).value;
      if UniqueKeys(db.exams, ExamIdOf) {
        RemoveKeepsUnique(db.exams, ExamIdOf, i);
        RemoveLeavesNoMatch(db.exams, ExamIdOf, i);
      }
      db.exams := db.exams[..i] + db.exams[i + 1..];
      outcome := Done;
    }

    // -------------------------------------------------------- enrollments

    method EnrollStudent(courseId: string, studentId: string) returns (outcome: Outcome)
      requires currentUser.Some?
      modifies db`enrollments
      ensures outcome == Rejected(NotYourCourse) <==> !OwnsCourse(courseId)
      ensures outcome == Rejected(InvalidStudent) <==> OwnsCourse(courseId) && !db.IsStudentUser(studentId)
      ensures outcome == Rejected(AlreadyEnrolled) <==>
        OwnsCourse(courseId) && db.IsStudentUser(studentId) && old(db.IsStudentEnrolled(studentId, courseId))
      ensures outcome.Done? <==>
        OwnsCourse(courseId) && db.IsStudentUser(studentId) && !old(db.IsStudentEnrolled(studentId, courseId))
      ensures outcome.Rejected? ==> db.enrollments == old(db.enrollments)
      ensures outcome.Done? ==> db.enrollments == old(db.enrollments) + [Enrollment(studentId, courseId, "", "enrolled")]
      ensures outcome.Rejected? || db.IsStudentEnrolled(studentId, courseId)
      ensures AtMostOneEnrolled(old(db.enrollments)) ==> AtMostOneEnrolled(db.enrollments)
    {
      var c := db.FindCourse(courseId);
      if c.None? || db.courses[c.value].teacherId != currentUser.value {
        return Rejected(NotYourCourse);
      }
      if !db.IsStudentUser(studentId) {
        return Rejected(InvalidStudent);
      }
      if db.IsStudentEnrolled(studentId, courseId) {
        return Rejected(AlreadyEnrolled);
      }
      if AtMostOneEnrolled(db.enrollments) {
        EnrollKeepsAtMostOne(db.enrollments, studentId, courseId);
      }
      db.enrollments := db.enrollments + [Enrollment(studentId, courseId, "", "enrolled")];
      assert IsEnrolledRow(db.enrollments[|db.enrollments| - 1], studentId, courseId);
      outcome := Done;
    }
 
    // ------------------------------------------------------------- grades

    /** The first exam with this id exists and belongs to the course. */
    predicate ExamOfCourse(examId: string, courseId: string)
      reads db`exams
    {
      var e := db.FindExam(examId);
      e.Some? && db.exams[e.value].courseId == courseId
    }

    /** The total marks of the first exam with this id. */
    function TotalMarks(examId: string): Int32
      requires db.FindExam(examId).Some?
      reads db`exams
    {
      db.exams[db.FindExam(examId).value].totalMarks
    }

    /**
     * Records a grade. The checks run in the menu's order; the letter comes
     * from the band table, and the first row for the (student, exam) pair is
     * overwritten in place, or a row is appended when there is none.
     */
    method EnterGrades(courseId: string, examId: string, studentId: string, marks: Int32, comments: string)
      returns (outcome: Outcome)
      requires currentUser.Some?
      modifies db`grades
      ensures outcome == Rejected(NotYourCourse) <==> !OwnsCourse(courseId)
      ensures outcome == Rejected(NoExams) <==> OwnsCourse(courseId) && Filter(db.exams, ExamCourseOf, courseId) == []
      ensures outcome == Rejected(InvalidExam) <==>
        OwnsCourse(courseId) && Filter(db.exams, ExamCourseOf, courseId) != [] && !ExamOfCourse(examId, courseId)
      ensures outcome == Rejected(NotEnrolled) <==>
        OwnsCourse(courseId) && ExamOfCourse(examId, courseId) && !db.IsStudentEnrolled(studentId, courseId)
      ensures outcome == Rejected(InvalidMarks) <==>
        OwnsCourse(courseId) && ExamOfCourse(examId, courseId) && db.IsStudentEnrolled(studentId, courseId) &&
        !(0 <= marks <= TotalMarks(examId))
      ensures outcome.Done? <==>
        OwnsCourse(courseId) && ExamOfCourse(examId, courseId) && db.IsStudentEnrolled(studentId, courseId) &&
        0 <= marks <= TotalMarks(examId)
      ensures outcome.Rejected? ==> db.grades == old(db.grades)
      ensures outcome.Done? ==>
        db.grades == UpsertGrade(old(db.grades), studentId, examId, marks, LetterGrade(marks, TotalMarks(examId)),
                                 comments)
      ensures UniqueKeys(old(db.grades), GradeKey) ==> UniqueKeys(db.grades, GradeKey)
    {
      var c := db.FindCourse(courseId);
      if c.None? || db.courses[c.value].teacherId != currentUser.value {
        return Rejected(NotYourCourse);
      }
      var courseExams := db.GetCourseExams(courseId);
      if courseExams == [] {
        // An exam of this course would have been listed.
        var e := db.FindExam(examId);
        if e.Some? {
          FilterMembers(db.exams, ExamCourseOf, courseId, db.exams[e.value]);
        }
        return Rejected(NoExams);
      }
      var e := db.FindExam(examId);
      if e.None? || db.exams[e.value].courseId != courseId {
        return Rejected(InvalidExam);
      }
      if !db.IsStudentEnrolled(studentId, courseId) {
        return Rejected(NotEnrolled);
      }
      var total := db.exams[e.value].totalMarks;
      if marks < 0 || marks > total {
        return Rejected(InvalidMarks);
      }
      var letter := LetterGrade(marks, total);
      WriteGrade(studentId, examId, marks, letter, comments);
      outcome := Done;
    }

    /**
     * The last step of `enterGrades`: overwrite marks, letter and comments of
     * the first row for the (student, exam) pair in place, or append a row.
     */
    method WriteGrade(studentId: string, examId: string, marks: Int32, letter: string, comments: string)
      modifies db`grades
      ensures db.grades == UpsertGrade(old(db.grades), studentId, examId, marks, letter, comments)
      ensures UniqueKeys(old(db.grades), GradeKey) ==> UniqueKeys(db.grades, GradeKey)
    {
      if UniqueKeys(db.grades, GradeKey) {
        UpsertGradeKeepsUnique(db.grades, studentId, examId, marks, letter, comments);
      }
      var it := FirstIndex(db.grades, GradeKey, (studentId, examId));
      if it.Some? {
        var g := db.grades[it.value];
        db.grades := db.grades[it.value := g.(marksObtained := marks, letterGrade := letter, comments := comments)];
      } else {
        db.grades := db.grades + [Grade(studentId, examId, marks, letter, comments)];
      }
    }

    // --------------------------------------------------------- attendance

    method MarkAttendance(courseId: string, studentId: string, date: string, status: string)
      returns (outcome: Outcome)
      requires currentUser.Some?
      modifies db`attendanceRecords
      ensures outcome == Rejected(NotYourCourse) <==> !OwnsCourse(courseId)
      ensures outcome == Rejected(NotEnrolled) <==> OwnsCourse(courseId) && !db.IsStudentEnrolled(studentId, courseId)
      ensures outcome.Done? <==> OwnsCourse(courseId) && db.IsStudentEnrolled(studentId, courseId)
      ensures outcome.Rejected? ==> db.attendanceRecords == old(db.attendanceRecords)
      ensures outcome.Done? ==>
        db.attendanceRecords == old(db.attendanceRecords) + [Attendance(studentId, courseId, date, status)]
    {
      var c := db.FindCourse(courseId);
      if c.None? || db.courses[c.value].teacherId != currentUser.value {
        return Rejected(NotYourCourse);
      }
      if !db.IsStudentEnrolled(studentId, courseId) {
        return Rejected(NotEnrolled);
      }
      db.attendanceRecords := db.attendanceRecords + [Attendance(studentId, courseId, date, status)];
      outcome := Done;
    }

    // --------------------------------------------------------- transcript

    /**
     * The credit totals of the logged-in student's transcript, over that
     * student's enrollment rows in order; rows whose course no longer exists
     * are skipped.
     */
    method Transcript() returns (attempted: int, earned: int)
      requires currentUser.Some?
      ensures attempted == Attempted(Filter(db.enrollments, EnrollmentStudentOf, currentUser.value), db.courses)
      ensures earned == Earned(Filter(db.enrollments, EnrollmentStudentOf, currentUser.value), db.courses)
      ensures NonNegativeCredits(db.courses) ==> 0 <= earned <= attempted
    {
      var es := db.GetStudentEnrollments(currentUser.value);
      ghost var courses := db.courses;
      attempted, earned := 0, 0;
      var i := 0;
      while i < |es|
        invariant 0 <= i <= |es|
        invariant attempted == Attempted(es[..i], courses) && earned == Earned(es[..i], courses)
      {
        TotalsStep(es, courses, i);
        var c := db.FindCourse(es[i].courseId);
        if c.Some? {
          var credits := db.courses[c.value].credits;
          assert CourseCredits(courses, es[i].courseId) == Some(credits as int);
          attempted := attempted + credits;
          if es[i].grade != "F" && es[i].grade != "" {
            earned := earned + credits;
          }
        } else {
          assert CourseCredits(courses, es[i].courseId) == None;
        }
        i := i + 1;
      }
      assert es[..|es|] == es;
      if NonNegativeCredits(courses) {
        EarnedAtMostAttempted(es, courses);
      }
    }
  }
}

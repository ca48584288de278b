# University Management System — a verified Dafny model

This project models the core of `UMS.cpp`, a console university management
system. It keeps eight kinds of records: departments, semesters, courses,
exams, grades, users, enrollments and attendance. Each record is stored as
one comma-separated line per file. `UMS.cpp` has three layers, and the model
follows them one module each.

- **Record codecs.** Each record type has a `toCSV` that joins its fields
  with `,`. Each has a `fromCSV` that cuts the line with repeated
  `std::getline(ss, token, ',')`. It keeps the record only when at least as
  many tokens come back as the type has fields, and otherwise returns the
  default-constructed record. `Course()`, `Exam()` and `Grade()` have
  defaulted constructors, so `return Course();` and its like value-initialise
  the record: its strings are empty and its integers 0, exactly as in
  `Records.EmptyCourse`, `Records.EmptyExam` and `Records.EmptyGrade`. `int` fields go through `std::to_string` and
  `std::stoi`.
  - Modules: `Numeric` (`std::to_string`, `std::stoi`), `Csv` (the split
    and the join) and `Records` (the eight datatypes, their codecs, the
    salted password hash).
- **`DatabaseManager`.** It holds eight vectors, with `find*` lookups
  (first match in order) and filtering queries (matching records in order).
  It also has `isStudentEnrolled` and `generateNextId`. When no user is
  loaded, it adds the built-in administrator `admin001`/`admin`.
  - Module: `Database` (class `DatabaseManager`). Shared sequence scans are
    in `Queries`.
- **`UMSApplication`.** These are the menu actions of administrators,
  teachers and students. Each prompt's answer becomes a method parameter.
  The logged-in user is a session id.
  - A successful action makes exactly one append, erase or field update on
    one collection. A rejected action changes nothing.
  - Module: `Ums` (class `UmsApplication`). The grade band table, the grade
    upsert and the transcript sums are in `Grading`.

How the source's behaviour is modelled:

- **Splitting lines.** The split that `getline` performs is an ordinary
  split on `,`, except that a final empty piece is not a token. So `""`
  gives no tokens, `"a,"` gives `["a"]` and `"a,,c"` gives
  `["a", "", "c"]`. As a result, a record reloads intact when no field holds
  a comma and its last field is non-empty.
- **Integers.** `int` is the subset type `Int32`.
- **`std::stoi`.** It becomes `Numeric.Stoi`. It skips leading white space,
  reads an optional sign and a run of digits, and checks the range. `None`
  stands for the exceptions the program would throw.
- **Next id.** `generateNextId` is the prefix followed by one more than the
  largest numeric suffix, padded with `'0'` to three digits.
  - Above 999 the padding count `3 - length` wraps around as a `size_t`, and
    the `std::string` constructor throws. The model therefore requires the
    next number to be at most 999 (`Database.NextId`).
  - A reading of the program in which ids simply grow wider past 999 does
    not match the code. The model follows the code.
- **Letter grades.** The letter comes from the percentage bands 90, 85, 80,
  75, 70, 65, 60, 55 and 50, compared by cross-multiplication
  (`100 * marks >= k * total`).
  - An exam with zero total marks makes the `double` quotient NaN. No band
    then matches, so the letter is "F" (`Grading.Reaches`).

## Model

| member | source | states |
|---|---|---|
| Numeric.StoiOfIntToString | UMS.cpp:137-160 | `std::stoi` reads every `int` that `std::to_string` writes back as the same value |
| Numeric.StoiOfPadded | UMS.cpp:723 | a suffix of `'0'`s followed by the decimal digits of `n` reads as `n` |
| Numeric.NatToDigitsInjective | UMS.cpp:34-38 | distinct hash values have distinct decimal texts |
| Numeric.NatToDigitsLength | UMS.cpp:730 | numbers up to 999 have at most three digits, so the padding count never goes below zero |
| Csv.Tokenize | UMS.cpp:58-64 | the `getline` loop collects exactly `Tokens(line)`: the split on ',' with a final empty piece dropped |
| Csv.JoinSplitOn | UMS.cpp:53-64 | joining the pieces of a split gives the line back |
| Csv.SplitOnJoin | UMS.cpp:53-64 | splitting the join of comma-free fields gives the fields back |
| Csv.TokensOfJoin | UMS.cpp:53-64 | the tokens of a join are the fields when none has a comma and the last is non-empty |
| Csv.TokensDropEmptyLast | UMS.cpp:53-64 | when the last field is empty, the tokens are the fields without it |
| Csv.TokensPrefix | UMS.cpp:62-66 | appending ',' and more text keeps the existing tokens as a prefix, and yields no fewer tokens than `line` has comma-separated pieces (a final empty piece may still be dropped, so `"a,"` gives the same tokens as `"a"`) |
| Records.Department.FromCsv | UMS.cpp:57-75 | fewer than 4 tokens give `Department()`; otherwise the fields are the first 4 tokens |
| Records.DepartmentRoundTrip | UMS.cpp:53-75 | a comma-free department whose description is non-empty reloads unchanged |
| Records.DepartmentIgnoresExtra | UMS.cpp:66-74 | tokens beyond the fourth do not change the record read |
| Records.Semester.FromCsv | UMS.cpp:96-115 | fewer than 5 tokens give `Semester()`; otherwise the fields are the first 5 tokens |
| Records.SemesterRoundTrip | UMS.cpp:92-115 | a comma-free semester whose status is non-empty reloads unchanged |
| Records.SemesterIgnoresExtra | UMS.cpp:105-113 | tokens beyond the fifth do not change the record read |
| Records.Course.FromCsv | UMS.cpp:142-164 | fewer than 8 tokens give `Course()`; otherwise strings come from tokens 0-4 and 6, and credits and maximum students come from `std::stoi` of tokens 5 and 7 |
| Records.CourseRoundTrip | UMS.cpp:137-164 | a course with no comma in its fields reloads unchanged, and its numbers parse (its last field is an `int`'s text, never empty) |
| Records.CourseIgnoresExtra | UMS.cpp:151-162 | tokens beyond the eighth do not change the record read |
| Records.Exam.FromCsv | UMS.cpp:189-210 | fewer than 7 tokens give `Exam()`; otherwise strings come from tokens 0-5 and total marks from `std::stoi` of token 6 |
| Records.ExamRoundTrip | UMS.cpp:184-210 | an exam with no comma in its fields reloads unchanged, and its total marks parse (the last field is never empty) |
| Records.ExamIgnoresExtra | UMS.cpp:198-208 | tokens beyond the seventh do not change the record read |
| Records.Grade.FromCsv | UMS.cpp:233-252 | fewer than 5 tokens give `Grade()`; otherwise strings come from tokens 0, 1, 3 and 4, and marks from `std::stoi` of token 2 |
| Records.GradeRoundTrip | UMS.cpp:228-252 | a comma-free grade with non-empty comments reloads unchanged |
| Records.GradeEmptyCommentsLost | UMS.cpp:228-252 | a comma-free grade with empty comments reloads as the default `Grade()` |
| Records.GradeFromCsvKeepingEmpty | UMS.cpp:233-252 | a reading that keeps a trailing empty field yields the same fields from the full split |
| Records.GradeRoundTripKeepingEmpty | UMS.cpp:228-252 | under that reading every comma-free grade reloads unchanged, empty comments included |
| Records.GradeIgnoresExtra | UMS.cpp:242-250 | tokens beyond the fifth do not change the record read |
| Records.User.FromCsv | UMS.cpp:287-311 | fewer than 10 tokens give `User()`; otherwise the fields are the first 10 tokens |
| Records.UserRoundTrip | UMS.cpp:282-311 | a comma-free user whose join date is non-empty reloads unchanged |
| Records.UserIgnoresExtra | UMS.cpp:296-308 | tokens beyond the tenth do not change the record read |
| Records.NewUserRoundTrip | UMS.cpp:270-285 | a user built by the constructor from comma-free input reloads unchanged, since its hash and join date are digits |
| Records.SimpleHashMatches | UMS.cpp:32-38 | two passwords hash alike exactly when `std::hash` agrees on them salted with "UMS_SALT_2025" |
| Records.Enrollment.FromCsv | UMS.cpp:331-349 | fewer than 4 tokens give `Enrollment()`; otherwise the fields are the first 4 tokens |
| Records.EnrollmentRoundTrip | UMS.cpp:327-349 | a comma-free enrollment whose status is non-empty reloads unchanged |
| Records.EnrollmentIgnoresExtra | UMS.cpp:340-347 | tokens beyond the fourth do not change the record read |
| Records.Attendance.FromCsv | UMS.cpp:369-387 | fewer than 4 tokens give `Attendance()`; otherwise the fields are the first 4 tokens |
| Records.AttendanceRoundTrip | UMS.cpp:365-387 | a comma-free attendance row whose status is non-empty reloads unchanged |
| Records.AttendanceIgnoresExtra | UMS.cpp:378-385 | tokens beyond the fourth do not change the record read |
| Queries.FirstIndex | UMS.cpp:635-669 | the result is the index of a match with no match before it, or none when nothing matches (`std::find_if`) |
| Queries.FilterConcat | UMS.cpp:671-709 | filtering a concatenation concatenates the filtered parts, so the original order is kept |
| Queries.FilterMembers | UMS.cpp:671-709 | an element is in the filtered sequence exactly when it is in the input and has the key |
| Queries.Collect | UMS.cpp:671-679 | the filtering loop returns exactly `Filter` of its input |
| Queries.KeysOf | UMS.cpp:861-864 | the collected ids have one entry per record, in the same order |
| Queries.Keys | UMS.cpp:861-864 | the id-collecting loop returns exactly `KeysOf` |
| Queries.KeysOfFinds | UMS.cpp:861-864 | an id is among the collected ids exactly when the lookup by id succeeds |
| Queries.AppendFreshKeepsUnique | UMS.cpp:935-947 | appending a record whose key is absent keeps keys unique |
| Queries.RemoveKeepsUnique | UMS.cpp:968-972 | erasing one record keeps keys unique |
| Queries.RemoveLeavesNoMatch | UMS.cpp:968-972 | with unique keys, after the erase no record has the erased key |
| Queries.UpdateKeepsUnique | UMS.cpp:1041-1052 | overwriting a record without changing its key keeps keys unique |
| Queries.FirstIndexAppend | UMS.cpp:635-639 | appending changes the first match only when there was none, and then only if the new record matches |
| Queries.FilterRemoveOther | UMS.cpp:1143-1152 | erasing a record without the key leaves the records with the key as they were |
| Database.AnyEnrolled | UMS.cpp:711-716 | true exactly when some row has this student, this course and status "enrolled" |
| Database.EnrollKeepsAtMostOne | UMS.cpp:1500-1506 | appending an "enrolled" row for a pair with none keeps at most one per pair, and the pair is then enrolled |
| Database.MaxSuffix | UMS.cpp:719-729 | the `maxNum` accumulator stays within `int` |
| Database.MaxSuffixIsMaximum | UMS.cpp:719-729 | `maxNum` bounds every suffix `std::stoi` reads, and is 0 or one of them |
| Database.MaxSuffixOrderIndependent | UMS.cpp:719-729 | `maxNum` depends only on which ids occur, not on their order or repetition |
| Database.NextIdShape | UMS.cpp:730 | the new id is the prefix followed by exactly three decimal digits (no sign, no spaces) whose value is `maxNum + 1`, and `stoi` reads the suffix back as that number |
| Database.ThreeDigitsByValue | UMS.cpp:730 | two three-digit strings with the same value are equal, so the suffix is the '0'-padded number and no other spelling |
| Database.NextIdFresh | UMS.cpp:718-731 | the new id is not among the existing ids |
| Database.NextIdAdvances | UMS.cpp:718-731 | once the new id is added, the next one is a number higher |
| Database.MaxSuffixExample | UMS.cpp:718-729 | the largest suffix of STU001 and STU003 is 3, in either order |
| Database.NextIdExample | UMS.cpp:718-731 | "STU001" and "STU003", in either order, give "STU004" |
| Database.WithDefaultAdmin | UMS.cpp:457-460 | loaded users are kept; with none, the only user is `admin001`/`admin` with role admin |
| Database.Authenticate | UMS.cpp:797-799 | a success is the first user with the username, and its stored hash equals the password's hash; a failure means the first user with the username, if any, stores a different hash |
| Database.LogInExactlyOnHash | UMS.cpp:797-799 | in any table, the first user with a username logs in exactly with the passwords whose salted hash equals that of the password it was stored with, and no other user is reached |
| Database.AdminCanLogIn | UMS.cpp:457-460 | on a first run, "admin"/"admin123" logs in as the administrator |
| Database.NewUserLogIn | UMS.cpp:797-799 | a user added under a fresh username logs in exactly with passwords whose salted hash matches |
| Database.DatabaseManager.constructor | UMS.cpp:412-415 | starts from the loaded collections, with the administrator added when no user was loaded |
| Database.DatabaseManager.GetTeacherCourses | UMS.cpp:671-679 | the teacher's courses, in order |
| Database.DatabaseManager.GetCourseExams | UMS.cpp:681-689 | the course's exams, in order |
| Database.DatabaseManager.GetStudentEnrollments | UMS.cpp:691-699 | the student's enrollment rows, in order |
| Database.DatabaseManager.GetStudentGrades | UMS.cpp:701-709 | the student's grade rows, in order |
| Database.DatabaseManager.GenerateNextId | UMS.cpp:718-731 | the loop computes `NextId`; ids with an unreadable suffix are skipped |
| Grading.LetterGradeIsFirstBand | UMS.cpp:1610-1620 | the letter chain gives the letter of the first band reached in the table, else "F" |
| Grading.LetterGradeMonotone | UMS.cpp:1610-1620 | more marks on the same exam never give a lower letter |
| Grading.LetterGradeRange | UMS.cpp:1610-1620 | the letter is always one of the table's, and is "F" exactly below fifty percent |
| Grading.LetterGradeExamples | UMS.cpp:1610-1620 | 100/100 and 90/100 give "A+", 89 gives "A", 59 gives "C", 49 gives "F", 0/0 gives "F" and 15/20 gives "B+" |
| Grading.UpsertGradeEffect | UMS.cpp:1626-1642 | the first row for the pair then carries the entered values; the table grows only when the pair was absent; an existing first row is overwritten at its old index, and every other row (later rows for the same pair included) keeps its place |
| Grading.UpsertGradeTwice | UMS.cpp:1626-1642 | entering a grade twice for the same pair equals entering the second one alone |
| Grading.UpsertGradeKeepsUnique | UMS.cpp:1626-1642 | one row per (student, exam) pair stays one row per pair |
| Grading.EarnedAtMostAttempted | UMS.cpp:1825-1836 | with non-negative credits, 0 <= earned <= attempted |
| Grading.TotalsStep | UMS.cpp:1825-1836 | proof helper for the transcript loop, not a separate promise: one more enrollment row adds its course's credits to the attempted sum, and to the earned sum only when its grade is passing; a row whose course is missing adds nothing |
| Grading.AllPassedEarnsAll | UMS.cpp:1825-1836 | when every row has a passing grade, earned equals attempted |
| Grading.TranscriptExample | UMS.cpp:1825-1836 | 3 credits at "B", 4 at "F" and a missing course give 7 attempted and 3 earned |
| Ums.UmsApplication.constructor | UMS.cpp:741 | a new application has no logged-in user |
| Ums.UmsApplication.Login | UMS.cpp:789-806 | logs in exactly when `Authenticate` succeeds, as that user's id; otherwise the session is unchanged |
| Ums.UmsApplication.Logout | UMS.cpp:875-878 | no user is logged in afterwards |
| Ums.UmsApplication.Signup | UMS.cpp:808-873 | choice 3 changes nothing and an existing username is refused. The department is checked only when departments exist. On success it appends one user with the next STU/TCH id, which is fresh. Id and username uniqueness are kept |
| Ums.UmsApplication.RegisterUser | UMS.cpp:861-868 | appends exactly the new user, whose id is the next STU/TCH id over the existing ids and was not in use; id and username uniqueness are kept |
| Ums.UmsApplication.CreateDepartment | UMS.cpp:929-949 | appends the department exactly when its id is new, otherwise changes nothing; unique ids stay unique |
| Ums.UmsApplication.DeleteDepartment | UMS.cpp:963-977 | erases the first department with the id, or reports it missing; with unique ids none is left |
| Ums.UmsApplication.CreateSemester | UMS.cpp:1002-1022 | appends the semester with status "upcoming" exactly when its id is new |
| Ums.UmsApplication.UpdateSemesterStatus | UMS.cpp:1036-1054 | overwrites only the status of the first semester with the id, or reports it missing |
| Ums.UmsApplication.DeleteSemester | UMS.cpp:1056-1070 | erases the first semester with the id, or reports it missing |
| Ums.UmsApplication.CreateUser | UMS.cpp:1095-1125 | refuses an existing id, then an existing username; otherwise appends one user with no phone, address or department |
| Ums.UmsApplication.DeleteUser | UMS.cpp:1139-1157 | erases the first user with the id unless it is an administrator; the administrators are the same in every case |
| Ums.UmsApplication.CreateCourse | UMS.cpp:1180-1251 | checks the id is new, then that the teacher is a teacher. Department and semester are checked only when some exist. Appends exactly the course entered |
| Ums.UmsApplication.DeleteCourse | UMS.cpp:1272-1286 | erases the first course with the id, or reports it missing |
| Ums.UmsApplication.CreateExam | UMS.cpp:1359-1394 | only for the teacher's own course: appends the exam under the next, fresh "EX" id |
| Ums.UmsApplication.DeleteExam | UMS.cpp:1420-1444 | a missing exam is reported; only the teacher of the exam's course may erase it |
| Ums.UmsApplication.EnrollStudent | UMS.cpp:1480-1508 | appends `Enrollment(student, course, "", "enrolled")` exactly when the course is the teacher's, the id is a student's and the student is not yet enrolled |
| Ums.UmsApplication.EnterGrades | UMS.cpp:1556-1643 | checks in order: own course, course has exams, exam of this course, student enrolled, marks in range. The grade table then becomes the upsert with the band letter |
| Ums.UmsApplication.WriteGrade | UMS.cpp:1626-1642 | the grade table becomes the upsert of the (student, exam) row, overwriting the first match in place or appending one row, and (student, exam) uniqueness is kept |
| Ums.UmsApplication.MarkAttendance | UMS.cpp:1676-1707 | appends exactly the attendance row when the course is the teacher's and the student is enrolled |
| Ums.UmsApplication.Transcript | UMS.cpp:1812-1841 | the totals are `Attempted` and `Earned` over the student's enrollment rows, and earned <= attempted for non-negative credits |

## Left out

- File loading and saving (`load*`/`save*`), `mkdir` and the backup copy: they are file and shell I/O. The constructor takes the decoded contents of the eight files. Blank lines are skipped before decoding, and a missing file counts as empty.
- `std::hash`: its output is implementation-defined, so it is a parameter (`stdHash`) and login becomes "same hash exactly when the password matches".
- `std::time(0)`: the join timestamp is a parameter (`now`).
- Menus, prompts, `setw` tables, the `view*` listings, `viewReports` and the re-prompting `loginOrSignup` recursion: they are console I/O. Their answers are parameters, and listings print without changing state. This includes the role test in `run()` (UMS.cpp:754-760) that shows the administrator menu only to role "admin" and the teacher menu only to role "teacher": the administrator operations carry no session precondition, and the teacher operations require only a logged-in user, with course ownership as their only gate.
- `Ums.UmsApplication.Signup`: choice 3 ("Back to Main Menu") returns false from the signup, and the caller passes that up as an exit, so the program ends. The model only states that nothing changes (`Rejected(Cancelled)`); the menu consequence is left out.
- `seedData` and `runTests`: test fixtures, not behaviour of the system.
- `Records.Course.FromCsv`, `Records.Exam.FromCsv`, `Records.Grade.FromCsv`: a line whose integer token `std::stoi` rejects is excluded by precondition (`NumbersParse`). The program would stop with an uncaught exception there.
- `Database.NextId`: defined only while the next number is at most 999. Beyond that the program throws `std::length_error`, and the model does not capture that exception.
- `Grading.LetterGrade`: the `double` percentage is replaced by exact integer comparison. The `double` transcript totals are integers.
- `Ums.UmsApplication.Login`: the session holds the user's id, not a pointer into the user vector. The program's pointer can dangle after a later `push_back`, and an `erase` in `deleteUser` shifts the slot it points at: with users [STU001, admin001, TCH001] and admin001 logged in, deleting STU001 leaves the pointer on TCH001, so the program then shows the teacher menu. The model keeps admin001 as the session; neither effect is modelled.
- Operations that need a logged-in user (`CreateExam`, `DeleteExam`, `EnrollStudent`, `EnterGrades`, `MarkAttendance`, `Transcript`) require one. The program reaches them only from a menu shown after login.
- Deleting a department, semester, course or user leaves the records that refer to it. The model does the same and states no referential integrity.
- `enterGrades` does not update the `grade` field of enrollment rows, so the transcript's earned credits depend only on grades written there by other means. The model keeps this behaviour.

## Findings

| source | as written | input that shows it | evidently intended | confidence | as-written member | corrected member |
|---|---|---|---|---|---|---|
| UMS.cpp:1622-1642, 228-252 | comments are "optional" when a grade is entered, but `fromCSV` drops the empty last token of the saved line | `Grade("STU001", "EX001", 80, "A-", "")` is written as `STU001,EX001,80,A-,`; that yields 4 tokens, so it reloads as an empty `Grade()` | a grade with empty comments reloads unchanged | high (not executed) | Records.GradeEmptyCommentsLost | Records.GradeRoundTripKeepingEmpty |

The same loss hits every record whose last field may be empty: a department with an empty description, an attendance row with an empty status, and a semester after its status was updated to the empty string all reload as the default record. `Csv.TokensDropEmptyLast` states the underlying split behaviour for any comma-free fields whose last one is empty; only the grade case has a corrected decoder in the model.

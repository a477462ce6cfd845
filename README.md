# go-learn service core in Dafny

This project models the service layer of go-learn, a backend for an
educational platform. Users are Students, Mentors or Admins. They create
courses, and the classes and projects inside them. Students enroll in
courses, attendance is marked against classes, and projects are submitted
and graded.

Every state-changing operation of the services runs the same chain of
early-return checks:

1. the caller's role;
2. existence lookups, from outer to inner: the course, then the class or
   project, then the user or enrollment;
3. on some operations, a check that a Mentor caller is the course's mentor;
4. field validation: course names, date order in the layout
   `02-01-2006 15:04`, project deadlines against the course end;
5. one insert, update or delete on a table.

The model has four layers.

- **Values and checks.**
  - `Times`: civil UTC time records, `Before`/`After`, and Go's `Format`
    for the layout.
  - `DateLayout`: the layout parser, following the chunks Go's
    `time.Parse` reads for that layout, and the JSON date field
    `CustomTime`.
  - `CourseRules`: `ValidateCourseName` and `ValidateCourseDate`.
  - `UserRules`: the username, role and sign-up checks.
  - `Entities`: the records.
  - `Errors`: one constructor per failure.
  - `Policy`: the role gate of every operation.
- **Tables.** The repository modules are classes that hold
  `map<nat, Record>` rows and a next key. Their methods use the same
  `WHERE` filters as the Go code.
- **Services.** Each operation has two forms:
  - an *outcome function* over the table contents. Its contract says,
    check by check and in the order of the code, exactly when each error
    is returned, and what the success record holds;
  - a method of the service class. It walks the same steps through the
    repositories and ensures that its result equals the outcome, and that
    the table changed exactly as stated, or not at all on error.
- **Lemmas.** These prove the properties the code actually has,
  including its anomalies:
  - any Mentor may update or delete any course;
  - a class update stores zero dates;
  - enrollment status has no transition table;
  - the score guard can never fire;
  - deleting an attendance removes the whole class's attendances.

Modelling choices:

- **Time.** A time is a record of year, month, day, hour, minute and
  nanoseconds within the minute.
  - `Before` orders these records lexicographically. In UTC that is the
    order of instants.
  - `Format` follows Go's output for the layout, including years outside
    0..9999.
  - `FormatParses` proves that formatting a time and parsing it back
    gives the time truncated to its minute, for years 0..9999, and fails
    for other years.
  - A service date check therefore decides `DatesAccepted`: both years
    are in 0..9999 and the start is strictly before the end at minute
    precision. Two times in the same minute fail.
- **Roles** are strings, as `entity.Role` is. The role stored by a role
  update (for instance `"mentor"` in lower case) is a role text that is
  none of the three names.
- **Enrollment status** is a string. A new enrollment is `"pending"`,
  from the default tag at model/enrollment.go:25. Attendance requires
  the status `"enroll"`.
- **Input-only parameters.** The clock (`now`), the caller (user id and role
  from the token), the verdict of the struct validator and the stored
  file path are given as parameters.
- **Behaviour worth noting.** The model does what the code does:
  - status updates consult no transition table;
  - scores are not range-checked;
  - a deadline must be strictly before the course end, to the minute;
  - course update and delete are open to every non-Student;
  - an update always stamps the enrollment date.

## Model

| member | source | states |
|---|---|---|
| Times.BeforeIsStrictTotalOrder | middleware/course.go:33-35 | `Before` is irreflexive, asymmetric, transitive and total, so equal instants are never "earlier" |
| Times.Truncate | service/class.go:58 | the start of the minute: seconds and nanoseconds are zero and every other field is kept |
| DateLayout.ParseLayout | middleware/course.go:21-22 | an accepted text yields a time with zero seconds and a year in 0..9999 |
| DateLayout.ParseQuoted | middleware/date.go:13-14 | an accepted text starts and ends with a double quote, and yields zero seconds and a year in 0..9999 |
| DateLayout.CustomTime.UnmarshalJSON | middleware/date.go:12-21 | on success, no error and the field holds the parsed time; on failure, the layout error and the field keeps its old value |
| DateLayout.QuotedIsWrappedLayout | middleware/date.go:13-14 | the quoted layout accepts a text exactly when it is quoted and the plain layout accepts its inside, with the same time |
| DateLayout.FormatParses | service/course.go:43 | parsing a formatted time gives that time truncated to the minute for years 0..9999, and fails for every other year |
| DateLayout.ParsedTimeFormatsBack | middleware/course.go:22 | any accepted text reformats to a canonical text that parses to the same time |
| DateLayout.FormatShape | service/course.go:43 | Format writes the day, '-', the month, '-', the year's text, a space, the hour, ':' and the minute, each two-digit field zero-padded |
| CourseRules.TrimLeft | middleware/course.go:11 | a suffix of the input that drops only leading white space and does not start with white space |
| CourseRules.TrimRight | middleware/course.go:11 | a prefix of the input that drops only trailing white space and does not end with white space |
| CourseRules.TrimSpaceEmpty | middleware/course.go:11 | the trimmed text is empty exactly when every character is Unicode white space |
| CourseRules.ValidateCourseName | middleware/course.go:9-17 | true iff the name has a non-space character; the bool is true iff the error is nil; a refusal reports the empty-name error |
| CourseRules.ValidateCourseDate | middleware/course.go:19-39 | a bad start is reported before the end is read; a bad end next; true iff both parse and the start is strictly before the end |
| CourseRules.FormattedDatesCheck | service/class.go:58 | checking two formatted times gives a bad start for a year outside 0..9999, then a bad end, then success iff strictly ordered at minute precision; a refusal reports exactly that first failing step |
| CourseRules.SameMinuteRejected | middleware/course.go:33-35 | two times in the same minute never pass, whatever their seconds |
| UserRules.ToLower | middleware/user.go:20 | the same length, with each character lower-cased |
| UserRules.ValidateUsername | middleware/user.go:14-28 | not alphanumeric iff the name is empty or has a character outside [a-zA-Z0-9]; then taken iff a stored name matches it ignoring case; otherwise accepted |
| UserRules.ValidateRole | middleware/user.go:30-37 | accepted iff the text is exactly "Student", "Admin" or "Mentor"; everything else, "student" included, is an invalid role |
| UserRules.ValidateUserSignup | middleware/user.go:39-55 | the struct verdict first, then the username error, then the role error (invalid role iff the text is none of the three names); accepted iff all three pass |
| UserRules.UsernameCheckIgnoresCase | middleware/user.go:20-25 | two names equal up to case get the same username verdict |
| UserRules.StoredNameIsTaken | middleware/user.go:22-25 | any alphanumeric casing of a stored name is refused as taken |
| Policy.NamedRoles | service/course.go:33-35 | over all operations, which of the three role names each role check admits (e.g. course creation refuses only Students) |
| Policy.UnnamedRole | service/attendance.go:105-109 | a role text other than the three names passes every "refuse one role" check, fails every "only this role" check, and is never compared with the course mentor |
| CourseRepository.CourseRepo.CreateCourse | repository/course.go:26-32 | the course is stored under a fresh key that becomes its id; no other row changes |
| CourseRepository.CourseRepo.GetCourses | repository/course.go:34-42 | exactly the stored courses |
| CourseRepository.CourseRepo.GetCourseByID | repository/course.go:44-52 | found iff a course has that id, and then it is that row |
| CourseRepository.CourseRepo.UpdateCourseByID | repository/course.go:54-60 | only the row with that course_id is replaced, keeping its key |
| CourseRepository.CourseRepo.DeleteUserByID | repository/course.go:62-70 | despite its name, removes exactly the course with that id |
| ClassRepository.ClassRepo.CreateClass | repository/class.go:26-32 | the class is stored under a fresh key that becomes its id; no other row changes |
| ClassRepository.ClassRepo.GetClasses | repository/class.go:34-42 | exactly the classes whose course_id matches |
| ClassRepository.ClassRepo.GetClassByID | repository/class.go:44-52 | found iff the class_id exists and belongs to that course_id |
| ClassRepository.ClassRepo.UpdateClassByID | repository/class.go:54-60 | only the row matching both ids is replaced; returns its argument, not a re-read row |
| ClassRepository.ClassRepo.DeleteClassByID | repository/class.go:62-70 | only the row matching both ids is removed |
| ProjectRepository.ProjectRepo.CreateProject | repository/project.go:26-32 | the project is stored under a fresh key that becomes its id; no other row changes |
| ProjectRepository.ProjectRepo.GetProjects | repository/project.go:34-42 | exactly the projects whose course_id matches |
| ProjectRepository.ProjectRepo.GetProjectByID | repository/project.go:44-52 | found iff the project_id exists and belongs to that course_id |
| ProjectRepository.ProjectRepo.UpdateProjectByID | repository/project.go:54-60 | only the row matching both ids is replaced; returns its argument |
| ProjectRepository.ProjectRepo.DeleteProjectByID | repository/project.go:62-70 | only the row matching both ids is removed |
| EnrollRepository.FirstEnrollmentKey | repository/enrollment.go:35 | the smallest key whose row has the (student, course) pair; none iff no row has the pair |
| EnrollRepository.EnrollRepo.StudentEnroll | repository/enrollment.go:24-30 | the enrollment is stored under a fresh key and returned with it |
| EnrollRepository.EnrollRepo.GetStudentCourseEnroll | repository/enrollment.go:32-40 | found iff some row has the pair; the row found has no smaller-keyed row with the pair |
| EnrollRepository.EnrollRepo.UpdateStudentEnroll | repository/enrollment.go:42-48 | every row with the pair is rewritten, each keeping its key; other rows unchanged; returns its argument |
| EnrollRepository.UpdatePairTouchesOneRow | repository/enrollment.go:43 | with unique pairs, the update rewrites the pair's one row, changes nothing else, and pairs stay unique |
| AttendRepository.AttendRepo.CreateAttendance | repository/attendance.go:24-30 | the attendance is stored under a fresh key and returned with it |
| AttendRepository.AttendRepo.GetClassAttendances | repository/attendance.go:32-40 | exactly the attendances matching both course_id and class_id |
| AttendRepository.AttendRepo.DeleteAttendanceByID | repository/attendance.go:42-50 | removes every attendance of the (course, class) pair; attendID is unused |
| AttendRepository.DeleteRemovesWholeClass | repository/attendance.go:45 | after the delete, no attendance of the pair remains, every other row is kept unchanged, and only the pair's keys go |
| UserRepository.UserRepo.GetUsers | service/user.go:70 | exactly the stored users |
| UserRepository.UserRepo.GetUserByID | service/user.go:85 | found iff a user has that id |
| UserRepository.UserRepo.UpdateUserRoleByID | service/user.go:110 | only that user's role changes, to the text given |
| UserRepository.UserRepo.DeleteUserByID | service/user.go:135 | removes exactly that user |
| CourseService.CreateCourseOutcome | service/course.go:31-70 | refused iff Student; then the empty-name error; then failing dates report the date check's own error (bad start, bad end or order); a zero mentor id makes a Mentor the mentor and fails for anyone else; a given mentor id is kept; success stores the request fields |
| CourseService.GetCourseOutcome | service/course.go:81-88 | the stored course, or not found iff the id is absent |
| CourseService.UpdateCourseOutcome | service/course.go:90-137 | refused iff Student; not found; the STORED dates are validated and, when they fail, the date check's error is returned; each of name, description, mentor, start and end is replaced only when given; updated-at is now |
| CourseService.DeleteCourseOutcome | service/course.go:139-154 | refused iff Student; not found iff absent; otherwise deleted |
| CourseService.CourseServiceImpl.CreateCourse | service/course.go:31-70 | returns the creation outcome for the next key, and the table gains that course and nothing else, or is unchanged |
| CourseService.CourseServiceImpl.GetCourses | service/course.go:72-79 | exactly the stored courses |
| CourseService.CourseServiceImpl.GetCourseByID | service/course.go:81-88 | the lookup outcome |
| CourseService.CourseServiceImpl.UpdateCourseByID | service/course.go:90-137 | returns the update outcome; on success only that row is replaced by it, on error the table is unchanged |
| CourseService.CourseServiceImpl.DeleteCourseByID | service/course.go:139-154 | returns the delete outcome; on success only that course is removed |
| CourseService.CreatedCourseIsOrdered | service/course.go:43-46 | a created course starts strictly before it ends, to the minute |
| CourseService.UpdateIgnoresRequestedOrder | service/course.go:103-127 | with valid stored dates, any non-zero requested start and end are stored, even out of order |
| CourseService.DisorderedCourseIsFrozen | service/course.go:103-106 | once an update stores out-of-order dates, every later update of that course fails, whoever asks |
| CourseService.AnyMentorChangesAnyCourse | service/course.go:90-154 | a Mentor who is not the course's mentor may still update and delete it |
| CourseService.MentorOwnsOwnCourse | service/course.go:48-54 | a Mentor who names no mentor becomes the new course's mentor and passes its ownership checks |
| ClassService.CreateClassOutcome | service/class.go:32-78 | refused iff Student; course not found; a non-owning Mentor refused; the empty-name error, then the date check's error for failing dates; success takes the course id from the course found and the rest from the request |
| ClassService.GetClassesOutcome | service/class.go:80-91 | not found iff the course is absent; otherwise exactly that course's classes |
| ClassService.GetClassOutcome | service/class.go:93-104 | course not found, then class not found unless the class exists under that course |
| ClassService.ApplyClassReq | service/class.go:121-145 | accepted iff a given name is valid and the requested dates are ordered; otherwise the empty-name error, or else the date check's error; a stored date becomes zero exactly when the requested date is zero |
| ClassService.UpdateClassOutcome | service/class.go:106-154 | refused iff Student, with no ownership check; course, then class under it; once both are found the result, error or record, is exactly that of the field checks and merge above |
| ClassService.DeleteClassOutcome | service/class.go:156-174 | refused unless Admin; course, then class under it; otherwise deleted |
| ClassService.ClassServiceImpl.CreateClass | service/class.go:32-78 | returns the creation outcome; the table gains that class only on success |
| ClassService.ClassServiceImpl.GetClasses | service/class.go:80-91 | the listing outcome |
| ClassService.ClassServiceImpl.GetClassByID | service/class.go:93-104 | the lookup outcome |
| ClassService.ClassServiceImpl.UpdateClassByID | service/class.go:106-154 | returns the update outcome; on success only that row is replaced |
| ClassService.ClassServiceImpl.ApplyRequest | service/class.go:121-145 | the step-by-step field updates agree with the merge function |
| ClassService.ClassServiceImpl.DeleteClassByID | service/class.go:156-174 | returns the delete outcome; on success only that class is removed |
| ClassService.CreatedClassIsOrdered | service/class.go:57-70 | a created class belongs to the course it was created under and starts strictly before it ends |
| ClassService.UpdateStoresOnlyZeroDates | service/class.go:135-141 | after an update, each date is either unchanged or the zero time, never the requested non-zero date |
| ClassService.ZeroStartIsStored | service/class.go:130-141 | a zero start with a later end is accepted and the stored start becomes the zero time |
| ClassService.AnyMentorUpdatesAnyClass | service/class.go:106-119 | a Mentor who cannot create classes in a course may still update its classes |
| ClassService.ClassNotFoundUnderOtherCourse | repository/class.go:47 | a class looked up under another course is not found, for reading and for deleting |
| ProjectService.CreateProjectOutcome | service/project.go:32-75 | refused iff Student; course; owning Mentor or Admin; the empty-name error; then a deadline not strictly before the course end at minute precision gets the date check's error; success takes the course id from the course found |
| ProjectService.GetProjectsOutcome | service/project.go:77-90 | not found iff the course is absent; otherwise exactly that course's projects |
| ProjectService.GetProjectOutcome | service/project.go:92-105 | course not found, then project not found unless the project exists under that course |
| ProjectService.ApplyProjectReq | service/project.go:131-154 | accepted iff a given name is valid and a non-zero deadline is before the course end; otherwise the empty-name error, or else the date check's error; each field is replaced only when given |
| ProjectService.UpdateProjectOutcome | service/project.go:107-163 | role, then course, then project under it, then ownership, in that order; once all pass the result, error or record, is exactly that of the field checks above |
| ProjectService.DeleteProjectOutcome | service/project.go:165-194 | role, course, project under it, ownership; otherwise deleted |
| ProjectService.ProjectServiceImpl.CreateProject | service/project.go:32-75 | returns the creation outcome; the table gains that project only on success |
| ProjectService.ProjectServiceImpl.GetProjects | service/project.go:77-90 | the listing outcome |
| ProjectService.ProjectServiceImpl.GetProjectByID | service/project.go:92-105 | the lookup outcome |
| ProjectService.ProjectServiceImpl.UpdatedProjectByID | service/project.go:107-163 | returns the update outcome; on success only that row is replaced |
| ProjectService.ProjectServiceImpl.ApplyRequest | service/project.go:131-154 | the step-by-step field updates agree with the field function |
| ProjectService.ProjectServiceImpl.DeleteProjectByID | service/project.go:165-194 | returns the delete outcome; on success only that project is removed |
| ProjectService.DeadlineBeforeCourseEnd | service/project.go:56-60 | every deadline set, at creation or update, is strictly before the course end to the minute |
| ProjectService.DeadlineAtCourseEndRefused | service/project.go:57-60 | a deadline in the course end's minute is refused |
| ProjectService.OwnershipDecides | service/project.go:124-129 | for an existing project, an Admin or Mentor may update and delete iff they are Admin or the course's mentor |
| EnrollService.Learner | service/enrollment.go:43-49 | a Student's own id replaces whatever id was sent; for any other caller the id sent is used, and a missing one stays missing |
| EnrollService.StudentEnrollOutcome | service/enrollment.go:31-99 | refused iff Mentor; course; learner id required; user; any existing enrollment of the pair blocks, with its id; success is pending with the ids found |
| EnrollService.UpdateEnrollOutcome | service/enrollment.go:101-153 | refused unless Admin; course; user; enrollment; the record keeps its ids and created-at, takes the requested status, and stamps enrollment date and updated-at with now |
| EnrollService.EnrollServiceImpl.StudentEnroll | service/enrollment.go:31-99 | returns the enroll outcome; the table gains that row only on success |
| EnrollService.EnrollServiceImpl.UpdateStudentEnroll | service/enrollment.go:101-153 | returns the update outcome; on success the pair's rows are rewritten, on error nothing changes |
| EnrollService.StudentEnrollsThemself | service/enrollment.go:43-44 | for a Student the student id sent makes no difference, and the enrollment is their own |
| EnrollService.EnrollKeepsPairsUnique | service/enrollment.go:57-61 | a successful enroll keeps at most one row per (student, course) pair |
| EnrollService.UpdateKeepsPairsUnique | service/enrollment.go:135-136 | a successful status update rewrites only the pair's row and keeps pairs unique |
| EnrollService.AnyStatusTransition | service/enrollment.go:125-133 | an Admin may set any status from any stored status: there is no transition table |
| EnrollService.AnyEnrollmentBlocks | service/enrollment.go:58-61 | an existing enrollment of the pair, whatever its status, blocks a new one |
| AttendService.Attendee | service/attendance.go:52-58 | a non-zero student id is used as sent; a zero one becomes the caller's own id for a Student and is missing for every other role |
| AttendService.AttendOutcome | service/attendance.go:35-86 | refused iff Mentor; course; class under it; student id; the enrollment must exist with status exactly enroll; success is attended=true at now with the ids found |
| AttendService.ListOutcome | service/attendance.go:88-118 | refused iff Student; course; class under it; a non-owning Mentor refused; otherwise exactly that class's attendances |
| AttendService.DeleteOutcome | service/attendance.go:120-141 | refused unless Admin; course; class under it; the attend id is never checked |
| AttendService.AttendServiceImpl.StudentAttendClass | service/attendance.go:35-86 | returns the marking outcome; the table gains that attendance only on success |
| AttendService.AttendServiceImpl.GetClassAttendances | service/attendance.go:88-118 | the listing outcome |
| AttendService.AttendServiceImpl.DeleteAttendanceByID | service/attendance.go:120-141 | returns the delete outcome; on success every attendance of the class is removed |
| AttendService.PendingCannotAttend | service/attendance.go:66-68 | a pending enrollment never admits an attendance |
| AttendService.StudentMarksAnyone | service/attendance.go:52-77 | a Student sending another enrolled student's id marks that student, as attended, whatever the request said |
| AttendService.DeleteIgnoresAttendId | service/attendance.go:136 | an accepted delete is by an Admin and removes the whole class's attendances and nothing else |
| UserService.GetUsersOutcome | service/user.go:63-76 | refused unless Admin; otherwise every user |
| UserService.GetUserOutcome | service/user.go:78-91 | refused iff Student; not found iff absent |
| UserService.UpdateRoleOutcome | service/user.go:93-122 | refused unless Admin; the role must lower-case to "student" or "mentor", checked before the lookup; the user must exist; the role is stored as sent and the user read back |
| UserService.DeleteUserOutcome | service/user.go:124-140 | refused unless Admin; not found iff absent; otherwise deleted |
| UserService.UserServiceImpl.GetUsers | service/user.go:63-76 | the listing outcome |
| UserService.UserServiceImpl.GetUserByID | service/user.go:78-91 | the lookup outcome |
| UserService.UserServiceImpl.UpdateUserRoleByID | service/user.go:93-122 | returns the role-change outcome; only that user's row changes, only on success |
| UserService.UserServiceImpl.DeleteUserByID | service/user.go:124-140 | returns the delete outcome; on success only that user is removed |
| UserService.AdminNotAssignable | service/user.go:99-101 | no casing of "admin" can be assigned, while "Student" and "Mentor" can |
| UserService.AssignableNamedRoles | middleware/user.go:31-33 | of the role names sign-up accepts, exactly "Student" and "Mentor" can be assigned |
| UserService.AssignedLowercaseRole | service/user.go:110 | an assigned text other than the two names, such as "mentor", passes every refuse-one-role check and every ownership check |
| ProjectSubmission.SubmitOutcome | controller/project-sub.go:33-191 | refused unless Student; course; project by id alone; before the start, then after the end; success records the project, the caller, now, the path and score 0 |
| ProjectSubmission.ScoreOutcome | controller/project-sub.go:196-258 | refused unless Mentor; course; submission; the guard; the score is always written, the description only if non-empty, all else kept |
| ProjectSubmission.SubmissionTable.Create | controller/project-sub.go:170-176 | the submission is stored under a fresh key that becomes its id |
| ProjectSubmission.SubmissionTable.First | controller/project-sub.go:219-226 | found iff a submission has that id |
| ProjectSubmission.SubmissionTable.Save | controller/project-sub.go:252-258 | every field of that stored submission is written, and no other row changes |
| ProjectSubmission.ProjectSubControllerImpl.StudentSubmitProject | controller/project-sub.go:33-191 | returns the submission outcome; the table gains that submission only on success |
| ProjectSubmission.ProjectSubControllerImpl.MentorSubmitScore | controller/project-sub.go:196-258 | returns the grading outcome; on success only that submission is rewritten |
| ProjectSubmission.EveryScoreAccepted | controller/project-sub.go:238-243 | the guard `score < 0 && score > 100` never holds, so every score, negative or above 100, is stored |
| ProjectSubmission.AnyMentorGradesAnything | controller/project-sub.go:200-226 | any Mentor grades any submission under any existing course, even one they do not mentor |
| ProjectSubmission.ProjectOfOtherCourseAccepted | controller/project-sub.go:57-65 | a project of another course is accepted for submission |
| ProjectSubmission.WindowBoundaries | controller/project-sub.go:68-81 | both the course start and end instants are inside the window; earlier or later instants are not |
| ProjectSubmission.GradingKeepsSubmission | controller/project-sub.go:245-252 | grading changes only the score and the description |

## Left out

- HTTP handling, path and body binding, and JSON responses are left out.
  The model takes the parsed request as input. Binding failures and the
  numeric parsing of path ids are not modelled.
- Token issuance and parsing (middleware/auth.go) are left out. The
  caller's user id and role are given as an `Actor`.
- Password hashing, sign-up and sign-in, and the struct validator are
  foreign code. `ValidateUserSignup` takes the validator's verdict as a
  parameter.
- `GenerateAdmin` reads the environment and hashes a password, so it is
  not modelled.
- File upload, its size and type checks, and e-mail are file and network
  I/O. The submission's stored path is a parameter.
- Database failures are not modelled. Every "unable to ..." error branch
  after a successful lookup is left out, because the model's tables
  cannot fail.
- GORM writes zero or empty fields as if they were real values:
  - `Updates` is modelled as replacing the whole row and keeping its
    key. GORM's skipping of zero fields is not modelled, so a class
    update stores the zero date it returns;
  - automatic `CreatedAt`/`UpdatedAt` stamping is not modelled: the
    model writes the zero time where the code sets nothing.
- The positional `First(&e, studentID, courseID)` at
  repository/enrollment.go:35 is modelled as a lookup by (student,
  course) pair. The callers pass the ids in different orders:
  - service/enrollment.go:58 passes (studentID, courseID);
  - service/attendance.go:61 passes (courseID, studentID);
  - the parameters are declared as (courseID, userID) at
    repository/enrollment.go:10.
- The code does not compile as a whole; the model defines the records
  from the fields the services read and write:
  - `Course` lacks `MentorID`;
  - `Role` is commented out of `User`;
  - `Enrollment` lacks `EnrollStatus`;
  - `Attendance` lacks `AttendAt`;
  - `entity.Status`, `Pending` and `Enroll` are undefined;
  - `ProjectSub` lacks `ProjectPath` and `Description`.
- repository/user.go declares no operations. The user table's
  operations are modelled from how service/user.go uses them.
- Concurrency is not modelled, including the race between the
  enrollment lookup and the insert. Calls run one at a time.
- Time zones and monotonic clock readings are not modelled. Times are
  UTC civil records.
- `StudentSubmitProject` calls `time.Now()` twice (for the window
  check and for the record); the model uses one `now` for both.
- `UserRules.ToLower` lower-cases ASCII letters only. For the role
  comparison this is exact: the only non-ASCII characters that Go
  lower-cases to ASCII are U+212A (to `k`) and U+0130 (to `i`), and
  neither letter is in "student" or "mentor".
- `UserRules.ValidateUsername` compares stored names with the same
  ASCII lower-casing. The database's `LOWER` on non-ASCII stored names
  is not modelled.
- Strings are sequences of characters, not UTF-8 bytes. Go's
  `TrimSpace` and the parser work on the same characters.
- `GetCourses` in service/course.go and `GetUsers` return the table
  contents as maps; the order of Go's slices is not modelled.
- Scores are unbounded integers. Go's 64-bit `int` never matters, since
  nothing computes with the score.

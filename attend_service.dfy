/**
 * Class attendance (service/attendance.go): marking needs an enrollment in
 * the enroll status, listing needs an Admin or the course's mentor, and
 * deleting is for Admins and removes every attendance of the class.
 */
module AttendService {
  import opened Wrappers
  import opened Times
  import opened Errors
  import opened Entities
  import Policy
  import opened CourseRepository
  import opened ClassRepository
  import opened EnrollRepository
  import opened AttendRepository

  /** The request body of attendance marking (model.AttendReq); a zero student id means none was sent. */
  datatype AttendReq = AttendReq(studentId: nat, attended: bool)

  /** The student an attendance is for, or None when a non-Student sends no id. */
  function Attendee(actor: Actor, req: AttendReq): (r: Option<nat>)
    ensures req.studentId != 0 ==> r == Some(req.studentId)
    ensures req.studentId == 0 ==> (r.Some? <==> actor.role == Student) && (r.Some? ==> r.value == actor.userId)
  {
    if req.studentId != 0 then Some(req.studentId)
    else if actor.role == Student then Some(actor.userId)
    else None
  }

  /** StudentAttendClass: the attendance stored under key newId, or why it is refused. */
  function AttendOutcome(actor: Actor, courseId: nat, classId: nat, req: AttendReq, courses: map<nat, Course>,
                         classes: map<nat, Class>, enrolls: map<nat, Enrollment>, now: Instant, newId: nat): (r: Result<Attendance, Error>)
    ensures r == Err(Forbidden) <==> !Policy.Allows(Policy.AttendMark, actor.role)
    ensures r == Err(CourseNotFound) <==> Policy.Allows(Policy.AttendMark, actor.role) && courseId !in courses
    ensures r == Err(ClassNotFound) <==> Policy.Allows(Policy.AttendMark, actor.role) && courseId in courses
                                         && FindClass(classes, courseId, classId).None?
    ensures r == Err(StudentIdRequired) <==> Policy.Allows(Policy.AttendMark, actor.role) && courseId in courses
                                             && FindClass(classes, courseId, classId).Some? && Attendee(actor, req).None?
    ensures r == Err(NotEnrolled) <==> Policy.Allows(Policy.AttendMark, actor.role) && courseId in courses
                                       && FindClass(classes, courseId, classId).Some? && Attendee(actor, req).Some?
                                       && !(FindEnrollment(enrolls, courseId, Attendee(actor, req).value).Some?
                                            && FindEnrollment(enrolls, courseId, Attendee(actor, req).value).value.enrollStatus == Enroll)
    ensures r.Ok? <==> Policy.Allows(Policy.AttendMark, actor.role) && courseId in courses
                       && FindClass(classes, courseId, classId).Some? && Attendee(actor, req).Some?
                       && FindEnrollment(enrolls, courseId, Attendee(actor, req).value).Some?
                       && FindEnrollment(enrolls, courseId, Attendee(actor, req).value).value.enrollStatus == Enroll
    ensures r.Ok? ==> r.value == Attendance(newId, Attendee(actor, req).value, classes[classId].classId, courses[courseId].courseId, true, now)
  {
    if actor.role == Mentor then Err(Forbidden)
    else if courseId !in courses then Err(CourseNotFound)
    else
      var c := FindClass(classes, courseId, classId);
      if c.None? then Err(ClassNotFound)
      else
        var studentId := Attendee(actor, req);
        if studentId.None? then Err(StudentIdRequired)
        else
          var enroll := FindEnrollment(enrolls, courseId, studentId.value);
          if enroll.None? || enroll.value.enrollStatus != Enroll then Err(NotEnrolled)
          else Ok(Attendance(newId, studentId.value, c.value.classId, courses[courseId].courseId, true, now))
  }

  /** GetClassAttendances: the attendances of one class, for an Admin or the course's mentor. */
  function ListOutcome(actor: Actor, courseId: nat, classId: nat, courses: map<nat, Course>, classes: map<nat, Class>,
                       attends: map<nat, Attendance>): (r: Result<map<nat, Attendance>, Error>)
    ensures r == Err(Forbidden) <==> !Policy.Allows(Policy.AttendList, actor.role)
    ensures r == Err(CourseNotFound) <==> Policy.Allows(Policy.AttendList, actor.role) && courseId !in courses
    ensures r == Err(ClassNotFound) <==> Policy.Allows(Policy.AttendList, actor.role) && courseId in courses
                                         && FindClass(classes, courseId, classId).None?
    ensures r == Err(NotOwner) <==> Policy.Allows(Policy.AttendList, actor.role) && courseId in courses
                                    && FindClass(classes, courseId, classId).Some? && !Policy.PassesOwnerCheck(actor, courses[courseId])
    ensures r.Ok? <==> Policy.Allows(Policy.AttendList, actor.role) && courseId in courses
                       && FindClass(classes, courseId, classId).Some? && Policy.PassesOwnerCheck(actor, courses[courseId])
    ensures r.Ok? ==> forall k :: k in r.value <==> k in attends && attends[k].courseId == courseId && attends[k].classId == classId
    ensures r.Ok? ==> forall k :: k in r.value ==> r.value[k] == attends[k]
  {
    if actor.role == Student then Err(Forbidden)
    else if courseId !in courses then Err(CourseNotFound)
    else if FindClass(classes, courseId, classId).None? then Err(ClassNotFound)
    else if actor.role == Mentor && courses[courseId].mentorId != actor.userId then Err(NotOwner)
    else Ok(AttendancesOf(attends, courseId, classId))
  }

  /** DeleteAttendanceByID: None when the class's attendances are deleted. */
  function DeleteOutcome(actor: Actor, courseId: nat, classId: nat, courses: map<nat, Course>, classes: map<nat, Class>): (r: Option<Error>)
    ensures r == Some(Forbidden) <==> !Policy.Allows(Policy.AttendDelete, actor.role)
    ensures r == Some(CourseNotFound) <==> Policy.Allows(Policy.AttendDelete, actor.role) && courseId !in courses
    ensures r == Some(ClassNotFound) <==> Policy.Allows(Policy.AttendDelete, actor.role) && courseId in courses
                                          && FindClass(classes, courseId, classId).None?
    ensures r.None? <==> Policy.Allows(Policy.AttendDelete, actor.role) && courseId in courses
                         && FindClass(classes, courseId, classId).Some?
  {
    if actor.role != Admin then Some(Forbidden)
    else if courseId !in courses then Some(CourseNotFound)
    else if FindClass(classes, courseId, classId).None? then Some(ClassNotFound)
    else None
  }

  class AttendServiceImpl {
    const attendRepo: AttendRepo
    const courseRepo: CourseRepo
    const classRepo: ClassRepo
    const enrollRepo: EnrollRepo

    constructor(attendRepo: AttendRepo, courseRepo: CourseRepo, classRepo: ClassRepo, enrollRepo: EnrollRepo)
      ensures this.attendRepo == attendRepo && this.courseRepo == courseRepo
      ensures this.classRepo == classRepo && this.enrollRepo == enrollRepo
    {
      this.attendRepo := attendRepo;
      this.courseRepo := courseRepo;
      this.classRepo := classRepo;
      this.enrollRepo := enrollRepo;
    }

    method StudentAttendClass(actor: Actor, courseId: nat, classId: nat, attendReq: AttendReq, now: Instant)
      returns (r: Result<Attendance, Error>)
      requires attendRepo.Valid()
      modifies attendRepo
      ensures attendRepo.Valid()
      ensures r == AttendOutcome(actor, courseId, classId, attendReq, courseRepo.rows, classRepo.rows, enrollRepo.rows,
                                 now, old(attendRepo.nextId))
      ensures attendRepo.rows == if r.Ok? then old(attendRepo.rows)[r.value.attendId := r.value] else old(attendRepo.rows)
    {
      if actor.role == Mentor {
        return Err(Forbidden);
      }
      var course := courseRepo.GetCourseByID(courseId);
      if course.None? {
        return Err(CourseNotFound);
      }
      var c := classRepo.GetClassByID(courseId, classId);
      if c.None? {
        return Err(ClassNotFound);
      }
      var req := attendReq;
      if req.studentId == 0 {
        if actor.role == Student {
          req := req.(studentId := actor.userId);
        } else {
          return Err(StudentIdRequired);
        }
      }
      var enroll := enrollRepo.GetStudentCourseEnroll(courseId, req.studentId);
      if enroll.None? {
        return Err(NotEnrolled);
      }
      if enroll.value.enrollStatus != Enroll {
        return Err(NotEnrolled);
      }
      var newAttend := Attendance(0, req.studentId, c.value.classId, course.value.courseId, true, now);
      var attend := attendRepo.CreateAttendance(newAttend);
      return Ok(attend);
    }

    method GetClassAttendances(actor: Actor, courseId: nat, classId: nat) returns (r: Result<map<nat, Attendance>, Error>)
      ensures r == ListOutcome(actor, courseId, classId, courseRepo.rows, classRepo.rows, attendRepo.rows)
    {
      if actor.role == Student {
        return Err(Forbidden);
      }
      var course := courseRepo.GetCourseByID(courseId);
      if course.None? {
        return Err(CourseNotFound);
      }
      var c := classRepo.GetClassByID(courseId, classId);
      if c.None? {
        return Err(ClassNotFound);
      }
      if actor.role == Mentor && course.value.mentorId != actor.userId {
        return Err(NotOwner);
      }
      var attendances := attendRepo.GetClassAttendances(courseId, classId);
      assert attendances == AttendancesOf(attendRepo.rows, courseId, classId);
      return Ok(attendances);
    }

    method DeleteAttendanceByID(actor: Actor, courseId: nat, classId: nat, attendId: nat) returns (err: Option<Error>)
      requires attendRepo.Valid()
      modifies attendRepo
      ensures attendRepo.Valid() && attendRepo.nextId == old(attendRepo.nextId)
      ensures err == DeleteOutcome(actor, courseId, classId, courseRepo.rows, classRepo.rows)
      ensures attendRepo.rows == if err.None? then WithoutClass(old(attendRepo.rows), courseId, classId) else old(attendRepo.rows)
    {
      if actor.role != Admin {
        return Some(Forbidden);
      }
      var course := courseRepo.GetCourseByID(courseId);
      if course.None? {
        return Some(CourseNotFound);
      }
      var c := classRepo.GetClassByID(courseId, classId);
      if c.None? {
        return Some(ClassNotFound);
      }
      attendRepo.DeleteAttendanceByID(courseId, classId, attendId);
      return None;
    }
  }

  // ---------------------------------------------------------------------------
  // Properties.

  /** Only an enrollment in the enroll status admits an attendance; a pending one does not. */
  lemma PendingCannotAttend(actor: Actor, courseId: nat, classId: nat, req: AttendReq, courses: map<nat, Course>,
                            classes: map<nat, Class>, enrolls: map<nat, Enrollment>, now: Instant, newId: nat)
    requires Attendee(actor, req).Some?
    requires var e := FindEnrollment(enrolls, courseId, Attendee(actor, req).value); e.Some? && e.value.enrollStatus == Pending
    ensures AttendOutcome(actor, courseId, classId, req, courses, classes, enrolls, now, newId).Err?
  {
  }

  /**
   * A Student who sends another student's id marks that student's
   * attendance, and the record says attended whatever the request said.
   */
  lemma StudentMarksAnyone(actor: Actor, courseId: nat, classId: nat, req: AttendReq, courses: map<nat, Course>,
                           classes: map<nat, Class>, enrolls: map<nat, Enrollment>, now: Instant, newId: nat)
    requires actor.role == Student && req.studentId != 0 && req.studentId != actor.userId && !req.attended
    requires courseId in courses && FindClass(classes, courseId, classId).Some?
    requires var e := FindEnrollment(enrolls, courseId, req.studentId); e.Some? && e.value.enrollStatus == Enroll
    ensures var r := AttendOutcome(actor, courseId, classId, req, courses, classes, enrolls, now, newId);
      r.Ok? && r.value.studentId == req.studentId && r.value.studentId != actor.userId && r.value.attended
  {
  }

  /**
   * A delete takes the whole class's attendances, whatever attend_id is
   * named, and leaves every other row as it was.
   */
  lemma DeleteIgnoresAttendId(actor: Actor, courseId: nat, classId: nat, courses: map<nat, Course>, classes: map<nat, Class>,
                              attends: map<nat, Attendance>)
    requires DeleteOutcome(actor, courseId, classId, courses, classes).None?
    ensures AttendancesOf(WithoutClass(attends, courseId, classId), courseId, classId) == map[]
    ensures WithoutClass(attends, courseId, classId).Keys == attends.Keys - AttendancesOf(attends, courseId, classId).Keys
    ensures actor.role == Admin
  {
    DeleteRemovesWholeClass(attends, courseId, classId);
  }
}

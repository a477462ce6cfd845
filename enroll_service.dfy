/**
 * The enrollment workflow (service/enrollment.go). A Student enrolls
 * themself, an Admin (or any other non-Mentor caller) enrolls a named
 * learner; a new enrollment is pending, and only an Admin sets a status,
 * any status at all.
 */
module EnrollService {
  import opened Wrappers
  import opened Times
  import opened Errors
  import opened Entities
  import Policy
  import opened CourseRepository
  import opened UserRepository
  import opened EnrollRepository

  /**
   * The learner an enrollment is for: a Student always enrolls themself,
   * whatever id the request carried; any other caller must name one (None
   * stands for the empty student_id).
   */
  function Learner(actor: Actor, studentArg: Option<nat>): (r: Option<nat>)
    ensures actor.role == Student ==> r == Some(actor.userId)
    ensures actor.role != Student ==> r == studentArg
  {
    if actor.role == Student then Some(actor.userId) else studentArg
  }

  /** StudentEnroll: the enrollment stored under key newId, or why it is refused. */
  function StudentEnrollOutcome(actor: Actor, courseId: nat, studentArg: Option<nat>, courses: map<nat, Course>,
                                users: map<nat, User>, enrolls: map<nat, Enrollment>, newId: nat): (r: Result<Enrollment, Error>)
    ensures r == Err(Forbidden) <==> !Policy.Allows(Policy.EnrollStudent, actor.role)
    ensures r == Err(CourseNotFound) <==> Policy.Allows(Policy.EnrollStudent, actor.role) && courseId !in courses
    ensures r == Err(UserIdRequired) <==> Policy.Allows(Policy.EnrollStudent, actor.role) && courseId in courses
                                          && Learner(actor, studentArg).None?
    ensures r == Err(UserNotFound) <==> Policy.Allows(Policy.EnrollStudent, actor.role) && courseId in courses
                                        && Learner(actor, studentArg).Some? && Learner(actor, studentArg).value !in users
    ensures r.Err? && r.error.AlreadyEnrolled? <==>
      Policy.Allows(Policy.EnrollStudent, actor.role) && courseId in courses && Learner(actor, studentArg).Some?
      && Learner(actor, studentArg).value in users && FindEnrollment(enrolls, courseId, Learner(actor, studentArg).value).Some?
    ensures r.Err? && r.error.AlreadyEnrolled? ==>
      r.error.enrollmentId == FindEnrollment(enrolls, courseId, Learner(actor, studentArg).value).value.enrollmentId
    ensures r.Ok? <==>
      Policy.Allows(Policy.EnrollStudent, actor.role) && courseId in courses && Learner(actor, studentArg).Some?
      && Learner(actor, studentArg).value in users && FindEnrollment(enrolls, courseId, Learner(actor, studentArg).value).None?
    ensures r.Ok? ==> r.value == Enrollment(newId, users[Learner(actor, studentArg).value].userId, courses[courseId].courseId,
                                            Zero, Pending, Zero, Zero)
  {
    if actor.role == Mentor then Err(Forbidden)
    else if courseId !in courses then Err(CourseNotFound)
    else
      var learner := Learner(actor, studentArg);
      if learner.None? then Err(UserIdRequired)
      else if learner.value !in users then Err(UserNotFound)
      else
        var existing := FindEnrollment(enrolls, courseId, learner.value);
        if existing.Some? then Err(AlreadyEnrolled(existing.value.enrollmentId))
        else Ok(Enrollment(newId, users[learner.value].userId, courses[courseId].courseId, Zero, Pending, Zero, Zero))
  }

  /**
   * UpdateStudentEnroll: the record written over the pair's row, or why it is
   * refused. No transition table is consulted.
   */
  function UpdateEnrollOutcome(actor: Actor, courseId: nat, studentId: nat, status: Status, courses: map<nat, Course>,
                               users: map<nat, User>, enrolls: map<nat, Enrollment>, now: Instant): (r: Result<Enrollment, Error>)
    ensures r == Err(Forbidden) <==> !Policy.Allows(Policy.EnrollUpdate, actor.role)
    ensures r == Err(CourseNotFound) <==> Policy.Allows(Policy.EnrollUpdate, actor.role) && courseId !in courses
    ensures r == Err(UserNotFound) <==> Policy.Allows(Policy.EnrollUpdate, actor.role) && courseId in courses && studentId !in users
    ensures r == Err(EnrollmentNotFound) <==> Policy.Allows(Policy.EnrollUpdate, actor.role) && courseId in courses && studentId in users
                                              && FindEnrollment(enrolls, courseId, studentId).None?
    ensures r.Ok? <==> Policy.Allows(Policy.EnrollUpdate, actor.role) && courseId in courses && studentId in users
                       && FindEnrollment(enrolls, courseId, studentId).Some?
    ensures r.Ok? ==> var e := FindEnrollment(enrolls, courseId, studentId).value;
      && r.value.enrollmentId == e.enrollmentId && r.value.studentId == e.studentId && r.value.courseId == e.courseId
      && r.value.createdAt == e.createdAt
      && r.value.enrollStatus == status && r.value.enrollmentDate == now && r.value.updatedAt == now
  {
    if actor.role != Admin then Err(Forbidden)
    else if courseId !in courses then Err(CourseNotFound)
    else if studentId !in users then Err(UserNotFound)
    else
      var existing := FindEnrollment(enrolls, courseId, studentId);
      if existing.None? then Err(EnrollmentNotFound)
      else
        var e := existing.value;
        Ok(Enrollment(e.enrollmentId, e.studentId, e.courseId, now, status, e.createdAt, now))
  }

  class EnrollServiceImpl {
    const courseRepo: CourseRepo
    const enrollRepo: EnrollRepo
    const userRepo: UserRepo

    constructor(courseRepo: CourseRepo, enrollRepo: EnrollRepo, userRepo: UserRepo)
      ensures this.courseRepo == courseRepo && this.enrollRepo == enrollRepo && this.userRepo == userRepo
    {
      this.courseRepo := courseRepo;
      this.enrollRepo := enrollRepo;
      this.userRepo := userRepo;
    }

    method StudentEnroll(actor: Actor, courseId: nat, studentArg: Option<nat>) returns (r: Result<Enrollment, Error>)
      requires enrollRepo.Valid()
      modifies enrollRepo
      ensures enrollRepo.Valid()
      ensures r == StudentEnrollOutcome(actor, courseId, studentArg, courseRepo.rows, userRepo.rows, old(enrollRepo.rows), old(enrollRepo.nextId))
      ensures enrollRepo.rows == if r.Ok? then old(enrollRepo.rows)[r.value.enrollmentId := r.value] else old(enrollRepo.rows)
    {
      if actor.role == Mentor {
        return Err(Forbidden);
      }
      var course := courseRepo.GetCourseByID(courseId);
      if course.None? {
        return Err(CourseNotFound);
      }
      var studentId := studentArg;
      if actor.role == Student {
        studentId := Some(actor.userId);
      } else if studentId.None? {
        return Err(UserIdRequired);
      }
      var userExist := userRepo.GetUserByID(studentId.value);
      if userExist.None? {
        return Err(UserNotFound);
      }
      var existingEnroll := enrollRepo.GetStudentCourseEnroll(courseId, studentId.value);
      if existingEnroll.Some? {
        return Err(AlreadyEnrolled(existingEnroll.value.enrollmentId));
      }
      var enroll := Enrollment(0, userExist.value.userId, course.value.courseId, Zero, Pending, Zero, Zero);
      var newEnroll := enrollRepo.StudentEnroll(enroll);
      return Ok(newEnroll);
    }

    method UpdateStudentEnroll(actor: Actor, courseId: nat, studentId: nat, status: Status, now: Instant) returns (r: Result<Enrollment, Error>)
      requires enrollRepo.Valid()
      modifies enrollRepo
      ensures enrollRepo.Valid() && enrollRepo.nextId == old(enrollRepo.nextId)
      ensures r == UpdateEnrollOutcome(actor, courseId, studentId, status, courseRepo.rows, userRepo.rows, old(enrollRepo.rows), now)
      ensures enrollRepo.rows == if r.Ok? then UpdatePair(old(enrollRepo.rows), courseId, studentId, r.value) else old(enrollRepo.rows)
    {
      if actor.role != Admin {
        return Err(Forbidden);
      }
      var course := courseRepo.GetCourseByID(courseId);
      if course.None? {
        return Err(CourseNotFound);
      }
      var userExist := userRepo.GetUserByID(studentId);
      if userExist.None? {
        return Err(UserNotFound);
      }
      var existingEnroll := enrollRepo.GetStudentCourseEnroll(courseId, studentId);
      if existingEnroll.None? {
        return Err(EnrollmentNotFound);
      }
      var e := existingEnroll.value;
      var updateEnroll := Enrollment(e.enrollmentId, e.studentId, e.courseId, now, status, e.createdAt, now);
      var enroll := enrollRepo.UpdateStudentEnroll(courseId, studentId, updateEnroll);
      return Ok(enroll);
    }
  }

  // ---------------------------------------------------------------------------
  // Properties.

  /** A Student's own id decides whom they enroll; the student_id they send plays no part. */
  lemma StudentEnrollsThemself(actor: Actor, courseId: nat, a: Option<nat>, b: Option<nat>, courses: map<nat, Course>,
                               users: map<nat, User>, enrolls: map<nat, Enrollment>, newId: nat)
    requires actor.role == Student
    ensures StudentEnrollOutcome(actor, courseId, a, courses, users, enrolls, newId)
            == StudentEnrollOutcome(actor, courseId, b, courses, users, enrolls, newId)
    ensures var r := StudentEnrollOutcome(actor, courseId, a, courses, users, enrolls, newId);
      r.Ok? ==> r.value.studentId == users[actor.userId].userId
  {
  }

  /**
   * With users keyed by their id and no earlier pair, a new enrollment keeps
   * every (student, course) pair on one row.
   */
  lemma {:induction false} EnrollKeepsPairsUnique(actor: Actor, courseId: nat, studentArg: Option<nat>, courses: map<nat, Course>,
                                                  users: map<nat, User>, enrolls: map<nat, Enrollment>, newId: nat)
    requires PairsUnique(enrolls) && newId !in enrolls
    requires forall k :: k in users ==> users[k].userId == k
    requires forall k :: k in courses ==> courses[k].courseId == k
    requires StudentEnrollOutcome(actor, courseId, studentArg, courses, users, enrolls, newId).Ok?
    ensures var e := StudentEnrollOutcome(actor, courseId, studentArg, courses, users, enrolls, newId).value;
      PairsUnique(enrolls[newId := e])
  {
    var e := StudentEnrollOutcome(actor, courseId, studentArg, courses, users, enrolls, newId).value;
    var learner := Learner(actor, studentArg).value;
    assert e.studentId == learner && e.courseId == courseId;
    assert FirstEnrollmentKey(enrolls, courseId, learner).None?;
    assert forall k :: k in enrolls ==> !IsEnrollmentOf(enrolls[k], courseId, learner);
  }

  /** An accepted status update keeps every pair on one row and rewrites only that row. */
  lemma UpdateKeepsPairsUnique(actor: Actor, courseId: nat, studentId: nat, status: Status, courses: map<nat, Course>,
                               users: map<nat, User>, enrolls: map<nat, Enrollment>, now: Instant)
    requires PairsUnique(enrolls) && forall k :: k in enrolls ==> enrolls[k].enrollmentId == k
    requires UpdateEnrollOutcome(actor, courseId, studentId, status, courses, users, enrolls, now).Ok?
    ensures var u := UpdateEnrollOutcome(actor, courseId, studentId, status, courses, users, enrolls, now).value;
      var k := FirstEnrollmentKey(enrolls, courseId, studentId).value;
      && UpdatePair(enrolls, courseId, studentId, u) == enrolls[k := u]
      && PairsUnique(UpdatePair(enrolls, courseId, studentId, u))
  {
    var u := UpdateEnrollOutcome(actor, courseId, studentId, status, courses, users, enrolls, now).value;
    UpdatePairTouchesOneRow(enrolls, courseId, studentId, u);
    assert u.(enrollmentId := FirstEnrollmentKey(enrolls, courseId, studentId).value) == u;
  }

  /**
   * There is no transition table: from any stored status an Admin may set
   * any other, pending again included.
   */
  lemma AnyStatusTransition(courseId: nat, studentId: nat, status: Status, courses: map<nat, Course>,
                            users: map<nat, User>, enrolls: map<nat, Enrollment>, now: Instant, admin: nat)
    requires courseId in courses && studentId in users && FindEnrollment(enrolls, courseId, studentId).Some?
    ensures var r := UpdateEnrollOutcome(Actor(admin, Admin), courseId, studentId, status, courses, users, enrolls, now);
      r.Ok? && r.value.enrollStatus == status
  {
  }

  /** An existing enrollment of the pair blocks a new one whatever its status. */
  lemma AnyEnrollmentBlocks(actor: Actor, courseId: nat, studentId: nat, courses: map<nat, Course>,
                            users: map<nat, User>, enrolls: map<nat, Enrollment>, newId: nat, k: nat)
    requires actor.role == Admin && courseId in courses && studentId in users
    requires k in enrolls && IsEnrollmentOf(enrolls[k], courseId, studentId)
    ensures StudentEnrollOutcome(actor, courseId, Some(studentId), courses, users, enrolls, newId).Err?
  {
  }
}

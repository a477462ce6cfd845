/**
 * Course operations (service/course.go). Each operation is given as an
 * outcome function of the caller, the request and the table, and as a
 * method of the service that reaches the same outcome by calling the
 * repository.
 */
module CourseService {
  import opened Wrappers
  import opened Times
  import opened Errors
  import opened Entities
  import opened CourseRules
  import Policy
  import opened CourseRepository

  /** The request body of course creation and update (model.CourseReq). */
  datatype CourseReq = CourseReq(courseName: string, description: string, mentorId: nat, startDate: Instant, endDate: Instant)

  /** CreateCourse: the course stored under key newId, or why it is refused. */
  function CreateCourseOutcome(actor: Actor, req: CourseReq, newId: nat): (r: Result<Course, Error>)
    ensures r == Err(Forbidden) <==> !Policy.Allows(Policy.CourseCreate, actor.role)
    ensures r == Err(Invalid(EmptyCourseName)) <==> Policy.Allows(Policy.CourseCreate, actor.role) && !NameAccepted(req.courseName)
    ensures r == Err(MentorIdRequired) <==>
      && Policy.Allows(Policy.CourseCreate, actor.role) && NameAccepted(req.courseName) && DatesAccepted(req.startDate, req.endDate)
      && req.mentorId == 0 && actor.role != Mentor
    ensures Policy.Allows(Policy.CourseCreate, actor.role) && NameAccepted(req.courseName) && !DatesAccepted(req.startDate, req.endDate)
            ==> r == Err(Invalid(DatesError(req.startDate, req.endDate)))
    ensures r.Ok? <==>
      && Policy.Allows(Policy.CourseCreate, actor.role) && NameAccepted(req.courseName) && DatesAccepted(req.startDate, req.endDate)
      && (req.mentorId != 0 || actor.role == Mentor)
    ensures r.Ok? ==> && r.value.courseId == newId && r.value.courseName == req.courseName && r.value.description == req.description
                      && r.value.startDate == req.startDate && r.value.endDate == req.endDate
                      && r.value.mentorId == (if req.mentorId == 0 then actor.userId else req.mentorId)
                      && r.value.updatedAt == Zero
  {
    FormattedDatesCheck(req.startDate, req.endDate);
    if actor.role == Student then Err(Forbidden)
    else
      var (nameOk, nameError) := ValidateCourseName(req.courseName);
      if !nameOk then Err(Invalid(nameError.value))
      else
        var (datesOk, datesError) := ValidateCourseDate(Format(req.startDate), Format(req.endDate));
        if !datesOk then Err(Invalid(datesError.value))
        else if req.mentorId == 0 && actor.role != Mentor then Err(MentorIdRequired)
        else
          var mentorId := if req.mentorId == 0 then actor.userId else req.mentorId;
          Ok(Course(newId, req.courseName, req.description, mentorId, req.startDate, req.endDate, Zero))
  }

  /** GetCourseByID. */
  function GetCourseOutcome(courseId: nat, courses: map<nat, Course>): (r: Result<Course, Error>)
    ensures r.Ok? <==> courseId in courses
    ensures r.Ok? ==> r.value == courses[courseId]
    ensures r.Err? ==> r.error == CourseNotFound
  {
    if courseId in courses then Ok(courses[courseId]) else Err(CourseNotFound)
  }

  /** The stored course with the request's non-empty fields written over it and the update time set. */
  function MergeCourse(c: Course, req: CourseReq, now: Instant): Course {
    c.(courseName := if req.courseName != "" then req.courseName else c.courseName,
       description := if req.description != "" then req.description else c.description,
       mentorId := if req.mentorId != 0 then req.mentorId else c.mentorId,
       startDate := if !IsZero(req.startDate) then req.startDate else c.startDate,
       endDate := if !IsZero(req.endDate) then req.endDate else c.endDate,
       updatedAt := now)
  }

  /**
   * UpdateCourseByID. The date check runs on the dates already stored, not on
   * the requested ones; any role but Student passes, with no mentor check.
   */
  function UpdateCourseOutcome(actor: Actor, req: CourseReq, courseId: nat, courses: map<nat, Course>, now: Instant): (r: Result<Course, Error>)
    ensures r == Err(Forbidden) <==> !Policy.Allows(Policy.CourseUpdate, actor.role)
    ensures r == Err(CourseNotFound) <==> Policy.Allows(Policy.CourseUpdate, actor.role) && courseId !in courses
    ensures r.Ok? <==> Policy.Allows(Policy.CourseUpdate, actor.role) && courseId in courses
                       && DatesAccepted(courses[courseId].startDate, courses[courseId].endDate)
    ensures Policy.Allows(Policy.CourseUpdate, actor.role) && courseId in courses
            && !DatesAccepted(courses[courseId].startDate, courses[courseId].endDate)
            ==> r == Err(Invalid(DatesError(courses[courseId].startDate, courses[courseId].endDate)))
    ensures r.Ok? ==> var c := courses[courseId];
      && r.value.courseId == c.courseId && r.value.updatedAt == now
      && (req.courseName == "" ==> r.value.courseName == c.courseName) && (req.courseName != "" ==> r.value.courseName == req.courseName)
      && (req.description == "" ==> r.value.description == c.description) && (req.description != "" ==> r.value.description == req.description)
      && (req.mentorId == 0 ==> r.value.mentorId == c.mentorId) && (req.mentorId != 0 ==> r.value.mentorId == req.mentorId)
      && (IsZero(req.startDate) ==> r.value.startDate == c.startDate) && (!IsZero(req.startDate) ==> r.value.startDate == req.startDate)
      && (IsZero(req.endDate) ==> r.value.endDate == c.endDate) && (!IsZero(req.endDate) ==> r.value.endDate == req.endDate)
  {
    if actor.role == Student then Err(Forbidden)
    else if courseId !in courses then Err(CourseNotFound)
    else
      var c := courses[courseId];
      FormattedDatesCheck(c.startDate, c.endDate);
      var (datesOk, datesError) := ValidateCourseDate(Format(c.startDate), Format(c.endDate));
      if !datesOk then Err(Invalid(datesError.value))
      else Ok(MergeCourse(c, req, now))
  }

  /** DeleteCourseByID: None when the course is deleted. */
  function DeleteCourseOutcome(actor: Actor, courseId: nat, courses: map<nat, Course>): (r: Option<Error>)
    ensures r == Some(Forbidden) <==> !Policy.Allows(Policy.CourseDelete, actor.role)
    ensures r == Some(CourseNotFound) <==> Policy.Allows(Policy.CourseDelete, actor.role) && courseId !in courses
    ensures r.None? <==> Policy.Allows(Policy.CourseDelete, actor.role) && courseId in courses
  {
    if actor.role == Student then Some(Forbidden)
    else if courseId !in courses then Some(CourseNotFound)
    else None
  }

  class CourseServiceImpl {
    const courseRepo: CourseRepo

    constructor(courseRepo: CourseRepo)
      ensures this.courseRepo == courseRepo
    {
      this.courseRepo := courseRepo;
    }

    method CreateCourse(actor: Actor, req: CourseReq) returns (r: Result<Course, Error>)
      requires courseRepo.Valid()
      modifies courseRepo
      ensures courseRepo.Valid()
      ensures r == CreateCourseOutcome(actor, req, old(courseRepo.nextId))
      ensures courseRepo.rows == if r.Ok? then old(courseRepo.rows)[r.value.courseId := r.value] else old(courseRepo.rows)
    {
      if actor.role == Student {
        return Err(Forbidden);
      }
      var (nameOk, nameError) := ValidateCourseName(req.courseName);
      if !nameOk {
        return Err(Invalid(nameError.value));
      }
      var (datesOk, datesError) := ValidateCourseDate(Format(req.startDate), Format(req.endDate));
      if !datesOk {
        return Err(Invalid(datesError.value));
      }
      var mentorId := req.mentorId;
      if mentorId == 0 {
        if actor.role == Mentor {
          mentorId := actor.userId;
        } else {
          return Err(MentorIdRequired);
        }
      }
      var course := Course(0, req.courseName, req.description, mentorId, req.startDate, req.endDate, Zero);
      var stored := courseRepo.CreateCourse(course);
      return Ok(stored);
    }

    method GetCourses() returns (courses: map<nat, Course>)
      ensures courses.Keys == courseRepo.rows.Keys && forall k :: k in courses ==> courses[k] == courseRepo.rows[k]
    {
      courses := courseRepo.GetCourses();
    }

    method GetCourseByID(courseId: nat) returns (r: Result<Course, Error>)
      ensures r == GetCourseOutcome(courseId, courseRepo.rows)
    {
      var course := courseRepo.GetCourseByID(courseId);
      if course.None? {
        return Err(CourseNotFound);
      }
      return Ok(course.value);
    }

    method UpdateCourseByID(actor: Actor, req: CourseReq, courseId: nat, now: Instant) returns (r: Result<Course, Error>)
      requires courseRepo.Valid()
      modifies courseRepo
      ensures courseRepo.Valid() && courseRepo.nextId == old(courseRepo.nextId)
      ensures r == UpdateCourseOutcome(actor, req, courseId, old(courseRepo.rows), now)
      ensures courseRepo.rows == if r.Ok? then old(courseRepo.rows)[courseId := r.value] else old(courseRepo.rows)
    {
      if actor.role == Student {
        return Err(Forbidden);
      }
      var existing := courseRepo.GetCourseByID(courseId);
      if existing.None? {
        return Err(CourseNotFound);
      }
      var course := existing.value;
      var (datesOk, datesError) := ValidateCourseDate(Format(course.startDate), Format(course.endDate));
      if !datesOk {
        return Err(Invalid(datesError.value));
      }
      if req.courseName != "" {
        course := course.(courseName := req.courseName);
      }
      if req.description != "" {
        course := course.(description := req.description);
      }
      if req.mentorId != 0 {
        course := course.(mentorId := req.mentorId);
      }
      if !IsZero(req.startDate) {
        course := course.(startDate := req.startDate);
      }
      if !IsZero(req.endDate) {
        course := course.(endDate := req.endDate);
      }
      course := course.(updatedAt := now);
      courseRepo.UpdateCourseByID(courseId, course);
      return Ok(course);
    }

    method DeleteCourseByID(actor: Actor, courseId: nat) returns (err: Option<Error>)
      requires courseRepo.Valid()
      modifies courseRepo
      ensures courseRepo.Valid() && courseRepo.nextId == old(courseRepo.nextId)
      ensures err == DeleteCourseOutcome(actor, courseId, old(courseRepo.rows))
      ensures courseRepo.rows == if err.None? then old(courseRepo.rows) - {courseId} else old(courseRepo.rows)
    {
      if actor.role == Student {
        return Some(Forbidden);
      }
      var existing := courseRepo.GetCourseByID(courseId);
      if existing.None? {
        return Some(CourseNotFound);
      }
      courseRepo.DeleteUserByID(courseId);
      return None;
    }
  }

  // ---------------------------------------------------------------------------
  // Properties.

  /** A created course always has its start strictly before its end, to the minute. */
  lemma CreatedCourseIsOrdered(actor: Actor, req: CourseReq, newId: nat)
    requires CreateCourseOutcome(actor, req, newId).Ok?
    ensures Before(Truncate(CreateCourseOutcome(actor, req, newId).value.startDate),
                   Truncate(CreateCourseOutcome(actor, req, newId).value.endDate))
  {
  }

  /**
   * An update writes the requested dates whatever their order: with valid
   * stored dates, any non-zero start and end are accepted, even a start
   * after the end.
   */
  lemma UpdateIgnoresRequestedOrder(actor: Actor, req: CourseReq, courseId: nat, courses: map<nat, Course>, now: Instant)
    requires actor.role != Student && courseId in courses
    requires DatesAccepted(courses[courseId].startDate, courses[courseId].endDate)
    requires !IsZero(req.startDate) && !IsZero(req.endDate)
    ensures var r := UpdateCourseOutcome(actor, req, courseId, courses, now);
      r.Ok? && r.value.startDate == req.startDate && r.value.endDate == req.endDate
  {
  }

  /**
   * Once an update has stored dates out of order, every later update of that
   * course is refused by the date check, whoever asks.
   */
  lemma DisorderedCourseIsFrozen(actor: Actor, req: CourseReq, courseId: nat, courses: map<nat, Course>, now: Instant,
                                 actor2: Actor, req2: CourseReq, now2: Instant)
    requires UpdateCourseOutcome(actor, req, courseId, courses, now).Ok?
    requires !IsZero(req.startDate) && !IsZero(req.endDate) && !Before(Truncate(req.startDate), Truncate(req.endDate))
    ensures var after := courses[courseId := UpdateCourseOutcome(actor, req, courseId, courses, now).value];
      UpdateCourseOutcome(actor2, req2, courseId, after, now2).Err?
  {
  }

  /** Any Mentor may update or delete any course, assigned to them or not. */
  lemma AnyMentorChangesAnyCourse(actor: Actor, req: CourseReq, courseId: nat, courses: map<nat, Course>, now: Instant)
    requires actor.role == Mentor && courseId in courses && courses[courseId].mentorId != actor.userId
    requires DatesAccepted(courses[courseId].startDate, courses[courseId].endDate)
    ensures UpdateCourseOutcome(actor, req, courseId, courses, now).Ok?
    ensures DeleteCourseOutcome(actor, courseId, courses).None?
  {
  }

  /** A Mentor who names no mentor becomes the new course's mentor. */
  lemma MentorOwnsOwnCourse(actor: Actor, req: CourseReq, newId: nat)
    requires actor.role == Mentor && req.mentorId == 0
    requires CreateCourseOutcome(actor, req, newId).Ok?
    ensures CreateCourseOutcome(actor, req, newId).value.mentorId == actor.userId
    ensures Policy.PassesOwnerCheck(actor, CreateCourseOutcome(actor, req, newId).value)
  {
  }
}

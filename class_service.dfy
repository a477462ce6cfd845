/**
 * Class operations (service/class.go): outcome functions over the course
 * and class tables, and a service whose methods reach those outcomes
 * through the repositories.
 */
module ClassService {
  import opened Wrappers
  import opened Times
  import opened Errors
  import opened Entities
  import opened CourseRules
  import Policy
  import opened CourseRepository
  import opened ClassRepository

  /** The request body of class creation and update (model.CreateClass, model.UpdateClass). */
  datatype ClassReq = ClassReq(className: string, description: string, startDate: Instant, endDate: Instant)

  /** CreateClass: the class stored under key newId, or why it is refused. */
  function CreateClassOutcome(actor: Actor, courseId: nat, req: ClassReq, courses: map<nat, Course>, newId: nat): (r: Result<Class, Error>)
    ensures r == Err(Forbidden) <==> !Policy.Allows(Policy.ClassCreate, actor.role)
    ensures r == Err(CourseNotFound) <==> Policy.Allows(Policy.ClassCreate, actor.role) && courseId !in courses
    ensures r == Err(NotOwner) <==> Policy.Allows(Policy.ClassCreate, actor.role) && courseId in courses
                                    && !Policy.PassesOwnerCheck(actor, courses[courseId])
    ensures r == Err(Invalid(EmptyCourseName)) <==>
      Policy.Allows(Policy.ClassCreate, actor.role) && courseId in courses && Policy.PassesOwnerCheck(actor, courses[courseId])
      && !NameAccepted(req.className)
    ensures Policy.Allows(Policy.ClassCreate, actor.role) && courseId in courses && Policy.PassesOwnerCheck(actor, courses[courseId])
            && NameAccepted(req.className) && !DatesAccepted(req.startDate, req.endDate)
            ==> r == Err(Invalid(DatesError(req.startDate, req.endDate)))
    ensures r.Ok? <==>
      Policy.Allows(Policy.ClassCreate, actor.role) && courseId in courses && Policy.PassesOwnerCheck(actor, courses[courseId])
      && NameAccepted(req.className) && DatesAccepted(req.startDate, req.endDate)
    ensures r.Ok? ==> r.value == Class(newId, courses[courseId].courseId, req.className, req.description, req.startDate, req.endDate)
  {
    if actor.role == Student then Err(Forbidden)
    else if courseId !in courses then Err(CourseNotFound)
    else
      var course := courses[courseId];
      if actor.role == Mentor && course.mentorId != actor.userId then Err(NotOwner)
      else
        var (nameOk, nameError) := ValidateCourseName(req.className);
        if !nameOk then Err(Invalid(nameError.value))
        else
          FormattedDatesCheck(req.startDate, req.endDate);
          var (datesOk, datesError) := ValidateCourseDate(Format(req.startDate), Format(req.endDate));
          if !datesOk then Err(Invalid(datesError.value))
          else Ok(Class(newId, course.courseId, req.className, req.description, req.startDate, req.endDate))
  }

  /** GetClasses: every class of an existing course. */
  function GetClassesOutcome(courseId: nat, courses: map<nat, Course>, classes: map<nat, Class>): (r: Result<map<nat, Class>, Error>)
    ensures r.Err? <==> courseId !in courses
    ensures r.Err? ==> r.error == CourseNotFound
    ensures r.Ok? ==> forall k :: k in r.value <==> k in classes && classes[k].courseId == courseId
    ensures r.Ok? ==> forall k :: k in r.value ==> r.value[k] == classes[k]
  {
    if courseId !in courses then Err(CourseNotFound) else Ok(ClassesOf(classes, courseId))
  }

  /** GetClassByID: the class must exist under an existing course. */
  function GetClassOutcome(courseId: nat, classId: nat, courses: map<nat, Course>, classes: map<nat, Class>): (r: Result<Class, Error>)
    ensures r == Err(CourseNotFound) <==> courseId !in courses
    ensures r == Err(ClassNotFound) <==> courseId in courses && !(classId in classes && classes[classId].courseId == courseId)
    ensures r.Ok? ==> classId in classes && r.value == classes[classId] && r.value.courseId == courseId
  {
    if courseId !in courses then Err(CourseNotFound)
    else
      var found := FindClass(classes, courseId, classId);
      if found.None? then Err(ClassNotFound) else Ok(found.value)
  }

  /**
   * The stored class after an accepted update: a non-empty name or
   * description replaces the stored one, and a stored date is replaced by the
   * requested date only when that requested date is the zero time.
   */
  function MergeClass(c: Class, req: ClassReq): Class {
    c.(className := if req.className != "" then req.className else c.className,
       startDate := if IsZero(req.startDate) then req.startDate else c.startDate,
       endDate := if IsZero(req.endDate) then req.endDate else c.endDate,
       description := if req.description != "" then req.description else c.description)
  }

  /**
   * The checks of an update on the request fields: a non-empty name must be
   * accepted and the requested dates must be ordered; then the fields are
   * written as MergeClass says.
   */
  function ApplyClassReq(c: Class, req: ClassReq): (r: Result<Class, Error>)
    ensures r.Ok? <==> (req.className != "" ==> NameAccepted(req.className)) && DatesAccepted(req.startDate, req.endDate)
    ensures r.Err? ==> r.error.Invalid?
    ensures req.className != "" && !NameAccepted(req.className) ==> r == Err(Invalid(EmptyCourseName))
    ensures (req.className != "" ==> NameAccepted(req.className)) && !DatesAccepted(req.startDate, req.endDate)
            ==> r == Err(Invalid(DatesError(req.startDate, req.endDate)))
    ensures r.Ok? ==>
      && r.value.classId == c.classId && r.value.courseId == c.courseId
      && (req.className == "" ==> r.value.className == c.className) && (req.className != "" ==> r.value.className == req.className)
      && (req.description == "" ==> r.value.description == c.description) && (req.description != "" ==> r.value.description == req.description)
      && (IsZero(req.startDate) ==> r.value.startDate == Zero) && (!IsZero(req.startDate) ==> r.value.startDate == c.startDate)
      && (IsZero(req.endDate) ==> r.value.endDate == Zero) && (!IsZero(req.endDate) ==> r.value.endDate == c.endDate)
  {
    var (nameOk, nameError) := if req.className != "" then ValidateCourseName(req.className) else (true, None);
    if !nameOk then Err(Invalid(nameError.value))
    else
      FormattedDatesCheck(req.startDate, req.endDate);
      var (datesOk, datesError) := ValidateCourseDate(Format(req.startDate), Format(req.endDate));
      if !datesOk then Err(Invalid(datesError.value))
      else Ok(MergeClass(c, req))
  }

  /**
   * UpdateClassByID. Any role but Student passes, with no mentor check; the
   * requested dates are always validated.
   */
  function UpdateClassOutcome(actor: Actor, courseId: nat, classId: nat, req: ClassReq,
                              courses: map<nat, Course>, classes: map<nat, Class>): (r: Result<Class, Error>)
    ensures r == Err(Forbidden) <==> !Policy.Allows(Policy.ClassUpdate, actor.role)
    ensures r == Err(CourseNotFound) <==> Policy.Allows(Policy.ClassUpdate, actor.role) && courseId !in courses
    ensures r == Err(ClassNotFound) <==> Policy.Allows(Policy.ClassUpdate, actor.role) && courseId in courses
                                         && FindClass(classes, courseId, classId).None?
    ensures r.Ok? <==> Policy.Allows(Policy.ClassUpdate, actor.role) && courseId in courses
                       && FindClass(classes, courseId, classId).Some?
                       && ApplyClassReq(classes[classId], req).Ok?
    ensures Policy.Allows(Policy.ClassUpdate, actor.role) && courseId in courses && FindClass(classes, courseId, classId).Some?
            ==> r == ApplyClassReq(classes[classId], req)
  {
    if actor.role == Student then Err(Forbidden)
    else if courseId !in courses then Err(CourseNotFound)
    else
      var found := FindClass(classes, courseId, classId);
      if found.None? then Err(ClassNotFound)
      else ApplyClassReq(found.value, req)
  }

  /** DeleteClassByID: None when the class is deleted. */
  function DeleteClassOutcome(actor: Actor, courseId: nat, classId: nat, courses: map<nat, Course>, classes: map<nat, Class>): (r: Option<Error>)
    ensures r == Some(Forbidden) <==> !Policy.Allows(Policy.ClassDelete, actor.role)
    ensures r == Some(CourseNotFound) <==> Policy.Allows(Policy.ClassDelete, actor.role) && courseId !in courses
    ensures r == Some(ClassNotFound) <==> Policy.Allows(Policy.ClassDelete, actor.role) && courseId in courses
                                          && FindClass(classes, courseId, classId).None?
    ensures r.None? <==> Policy.Allows(Policy.ClassDelete, actor.role) && courseId in courses
                         && FindClass(classes, courseId, classId).Some?
  {
    if actor.role != Admin then Some(Forbidden)
    else if courseId !in courses then Some(CourseNotFound)
    else if FindClass(classes, courseId, classId).None? then Some(ClassNotFound)
    else None
  }

  class ClassServiceImpl {
    const classRepo: ClassRepo
    const courseRepo: CourseRepo

    constructor(classRepo: ClassRepo, courseRepo: CourseRepo)
      ensures this.classRepo == classRepo && this.courseRepo == courseRepo
    {
      this.classRepo := classRepo;
      this.courseRepo := courseRepo;
    }

    method CreateClass(actor: Actor, courseId: nat, req: ClassReq) returns (r: Result<Class, Error>)
      requires classRepo.Valid()
      modifies classRepo
      ensures classRepo.Valid()
      ensures r == CreateClassOutcome(actor, courseId, req, courseRepo.rows, old(classRepo.nextId))
      ensures classRepo.rows == if r.Ok? then old(classRepo.rows)[r.value.classId := r.value] else old(classRepo.rows)
    {
      if actor.role == Student {
        return Err(Forbidden);
      }
      var existingCourse := courseRepo.GetCourseByID(courseId);
      if existingCourse.None? {
        return Err(CourseNotFound);
      }
      var course := existingCourse.value;
      if actor.role == Mentor && course.mentorId != actor.userId {
        return Err(NotOwner);
      }
      var (nameOk, nameError) := ValidateCourseName(req.className);
      if !nameOk {
        return Err(Invalid(nameError.value));
      }
      var (datesOk, datesError) := ValidateCourseDate(Format(req.startDate), Format(req.endDate));
      if !datesOk {
        return Err(Invalid(datesError.value));
      }
      var newClass := Class(0, course.courseId, req.className, req.description, req.startDate, req.endDate);
      var stored := classRepo.CreateClass(newClass);
      return Ok(stored);
    }

    method GetClasses(courseId: nat) returns (r: Result<map<nat, Class>, Error>)
      ensures r == GetClassesOutcome(courseId, courseRepo.rows, classRepo.rows)
    {
      var existingCourse := courseRepo.GetCourseByID(courseId);
      if existingCourse.None? {
        return Err(CourseNotFound);
      }
      var classes := classRepo.GetClasses(courseId);
      assert classes == ClassesOf(classRepo.rows, courseId);
      return Ok(classes);
    }

    method GetClassByID(courseId: nat, classId: nat) returns (r: Result<Class, Error>)
      ensures r == GetClassOutcome(courseId, classId, courseRepo.rows, classRepo.rows)
    {
      var existingCourse := courseRepo.GetCourseByID(courseId);
      if existingCourse.None? {
        return Err(CourseNotFound);
      }
      var found := classRepo.GetClassByID(courseId, classId);
      if found.None? {
        return Err(ClassNotFound);
      }
      return Ok(found.value);
    }

    method UpdateClassByID(actor: Actor, courseId: nat, classId: nat, req: ClassReq) returns (r: Result<Class, Error>)
      requires classRepo.Valid()
      modifies classRepo
      ensures classRepo.Valid() && classRepo.nextId == old(classRepo.nextId)
      ensures r == UpdateClassOutcome(actor, courseId, classId, req, courseRepo.rows, old(classRepo.rows))
      ensures classRepo.rows == if r.Ok? then old(classRepo.rows)[classId := r.value] else old(classRepo.rows)
    {
      if actor.role == Student {
        return Err(Forbidden);
      }
      var existingCourse := courseRepo.GetCourseByID(courseId);
      if existingCourse.None? {
        return Err(CourseNotFound);
      }
      var found := classRepo.GetClassByID(courseId, classId);
      if found.None? {
        return Err(ClassNotFound);
      }
      var applied := ApplyRequest(found.value, req);
      if applied.Err? {
        return applied;
      }
      var updated := classRepo.UpdateClassByID(courseId, classId, applied.value);
      return Ok(updated);
    }

    /** The field-by-field part of UpdateClassByID, on the class read from the table. */
    method ApplyRequest(existingClass: Class, req: ClassReq) returns (r: Result<Class, Error>)
      ensures r == ApplyClassReq(existingClass, req)
    {
      var c := existingClass;
      if req.className != "" {
        var (nameOk, nameError) := ValidateCourseName(req.className);
        if !nameOk {
          return Err(Invalid(nameError.value));
        }
        c := c.(className := req.className);
      }
      var (datesOk, datesError) := ValidateCourseDate(Format(req.startDate), Format(req.endDate));
      if !datesOk {
        return Err(Invalid(datesError.value));
      }
      if IsZero(req.startDate) {
        c := c.(startDate := req.startDate);
      }
      if IsZero(req.endDate) {
        c := c.(endDate := req.endDate);
      }
      if req.description != "" {
        c := c.(description := req.description);
      }
      return Ok(c);
    }

    method DeleteClassByID(actor: Actor, courseId: nat, classId: nat) returns (err: Option<Error>)
      requires classRepo.Valid()
      modifies classRepo
      ensures classRepo.Valid() && classRepo.nextId == old(classRepo.nextId)
      ensures err == DeleteClassOutcome(actor, courseId, classId, courseRepo.rows, old(classRepo.rows))
      ensures classRepo.rows == if err.None? then old(classRepo.rows) - {classId} else old(classRepo.rows)
    {
      if actor.role != Admin {
        return Some(Forbidden);
      }
      var existingCourse := courseRepo.GetCourseByID(courseId);
      if existingCourse.None? {
        return Some(CourseNotFound);
      }
      var found := classRepo.GetClassByID(courseId, classId);
      if found.None? {
        return Some(ClassNotFound);
      }
      classRepo.DeleteClassByID(courseId, classId);
      return None;
    }
  }

  // ---------------------------------------------------------------------------
  // Properties.

  /** A created class belongs to the course it was created under and has ordered dates. */
  lemma CreatedClassIsOrdered(actor: Actor, courseId: nat, req: ClassReq, courses: map<nat, Course>, newId: nat)
    requires CreateClassOutcome(actor, courseId, req, courses, newId).Ok?
    ensures var c := CreateClassOutcome(actor, courseId, req, courses, newId).value;
      c.courseId == courses[courseId].courseId && Before(Truncate(c.startDate), Truncate(c.endDate))
  {
  }

  /**
   * An update never stores a requested non-zero date: each stored date either
   * stays as it was or becomes the zero time.
   */
  lemma UpdateStoresOnlyZeroDates(actor: Actor, courseId: nat, classId: nat, req: ClassReq,
                                  courses: map<nat, Course>, classes: map<nat, Class>)
    requires UpdateClassOutcome(actor, courseId, classId, req, courses, classes).Ok?
    ensures var r := UpdateClassOutcome(actor, courseId, classId, req, courses, classes).value;
      && (r.startDate == classes[classId].startDate || r.startDate == Zero)
      && (r.endDate == classes[classId].endDate || r.endDate == Zero)
  {
  }

  /**
   * A zero start with a later end is accepted, and the stored start is then
   * set to the zero time.
   */
  lemma ZeroStartIsStored(actor: Actor, courseId: nat, classId: nat, req: ClassReq,
                          courses: map<nat, Course>, classes: map<nat, Class>)
    requires actor.role != Student && courseId in courses && FindClass(classes, courseId, classId).Some?
    requires req.className == "" && IsZero(req.startDate) && DatesAccepted(req.startDate, req.endDate)
    ensures var r := UpdateClassOutcome(actor, courseId, classId, req, courses, classes);
      r.Ok? && r.value.startDate == Zero && r.value.endDate == classes[classId].endDate
  {
  }

  /** A Mentor may update a class of a course assigned to someone else. */
  lemma AnyMentorUpdatesAnyClass(actor: Actor, courseId: nat, classId: nat, req: ClassReq,
                                 courses: map<nat, Course>, classes: map<nat, Class>)
    requires actor.role == Mentor && courseId in courses && courses[courseId].mentorId != actor.userId
    requires FindClass(classes, courseId, classId).Some?
    requires req.className == "" && DatesAccepted(req.startDate, req.endDate)
    ensures UpdateClassOutcome(actor, courseId, classId, req, courses, classes).Ok?
    ensures CreateClassOutcome(actor, courseId, ClassReq("c", "", req.startDate, req.endDate), courses, 0) == Err(NotOwner)
  {
  }

  /** A class is found only under its own course. */
  lemma ClassNotFoundUnderOtherCourse(courseId: nat, classId: nat, courses: map<nat, Course>, classes: map<nat, Class>)
    requires courseId in courses && classId in classes && classes[classId].courseId != courseId
    ensures GetClassOutcome(courseId, classId, courses, classes) == Err(ClassNotFound)
    ensures DeleteClassOutcome(Actor(0, Admin), courseId, classId, courses, classes) == Some(ClassNotFound)
  {
  }
}

/**
 * Project operations (service/project.go): outcome functions over the
 * course and project tables, and a service whose methods reach those
 * outcomes through the repositories. A project deadline is checked against
 * the end of its course.
 */
module ProjectService {
  import opened Wrappers
  import opened Times
  import opened Errors
  import opened Entities
  import opened CourseRules
  import Policy
  import opened CourseRepository
  import opened ProjectRepository

  /** The request body of project creation and update (model.CreateProject, model.UpdateProject). */
  datatype ProjectReq = ProjectReq(projectName: string, description: string, deadline: Instant)

  /** CreateProject: the project stored under key newId, or why it is refused. */
  function CreateProjectOutcome(actor: Actor, courseId: nat, req: ProjectReq, courses: map<nat, Course>, newId: nat): (r: Result<Project, Error>)
    ensures r == Err(Forbidden) <==> !Policy.Allows(Policy.ProjectCreate, actor.role)
    ensures r == Err(CourseNotFound) <==> Policy.Allows(Policy.ProjectCreate, actor.role) && courseId !in courses
    ensures r == Err(NotOwner) <==> Policy.Allows(Policy.ProjectCreate, actor.role) && courseId in courses
                                    && !Policy.PassesOwnerCheck(actor, courses[courseId])
    ensures r == Err(Invalid(EmptyCourseName)) <==>
      Policy.Allows(Policy.ProjectCreate, actor.role) && courseId in courses && Policy.PassesOwnerCheck(actor, courses[courseId])
      && !NameAccepted(req.projectName)
    ensures Policy.Allows(Policy.ProjectCreate, actor.role) && courseId in courses && Policy.PassesOwnerCheck(actor, courses[courseId])
            && NameAccepted(req.projectName) && !DatesAccepted(req.deadline, courses[courseId].endDate)
            ==> r == Err(Invalid(DatesError(req.deadline, courses[courseId].endDate)))
    ensures r.Ok? <==>
      Policy.Allows(Policy.ProjectCreate, actor.role) && courseId in courses && Policy.PassesOwnerCheck(actor, courses[courseId])
      && NameAccepted(req.projectName) && DatesAccepted(req.deadline, courses[courseId].endDate)
    ensures r.Ok? ==> r.value == Project(newId, courses[courseId].courseId, req.projectName, req.description, req.deadline)
  {
    if actor.role == Student then Err(Forbidden)
    else if courseId !in courses then Err(CourseNotFound)
    else
      var course := courses[courseId];
      if actor.role == Mentor && actor.userId != course.mentorId then Err(NotOwner)
      else
        var (nameOk, nameError) := ValidateCourseName(req.projectName);
        if !nameOk then Err(Invalid(nameError.value))
        else
          FormattedDatesCheck(req.deadline, course.endDate);
          var (datesOk, datesError) := ValidateCourseDate(Format(req.deadline), Format(course.endDate));
          if !datesOk then Err(Invalid(datesError.value))
          else Ok(Project(newId, course.courseId, req.projectName, req.description, req.deadline))
  }

  /** GetProjects: every project of an existing course. */
  function GetProjectsOutcome(courseId: nat, courses: map<nat, Course>, projects: map<nat, Project>): (r: Result<map<nat, Project>, Error>)
    ensures r.Err? <==> courseId !in courses
    ensures r.Err? ==> r.error == CourseNotFound
    ensures r.Ok? ==> forall k :: k in r.value <==> k in projects && projects[k].courseId == courseId
    ensures r.Ok? ==> forall k :: k in r.value ==> r.value[k] == projects[k]
  {
    if courseId !in courses then Err(CourseNotFound) else Ok(ProjectsOf(projects, courseId))
  }

  /** GetProjectByID: the project must exist under an existing course. */
  function GetProjectOutcome(courseId: nat, projectId: nat, courses: map<nat, Course>, projects: map<nat, Project>): (r: Result<Project, Error>)
    ensures r == Err(CourseNotFound) <==> courseId !in courses
    ensures r == Err(ProjectNotFound) <==> courseId in courses && !(projectId in projects && projects[projectId].courseId == courseId)
    ensures r.Ok? ==> projectId in projects && r.value == projects[projectId] && r.value.courseId == courseId
  {
    if courseId !in courses then Err(CourseNotFound)
    else
      var found := FindProject(projects, courseId, projectId);
      if found.None? then Err(ProjectNotFound) else Ok(found.value)
  }

  /** The stored project with the request's non-empty name and description and non-zero deadline written over it. */
  function MergeProject(p: Project, req: ProjectReq): Project {
    p.(projectName := if req.projectName != "" then req.projectName else p.projectName,
       deadline := if !IsZero(req.deadline) then req.deadline else p.deadline,
       description := if req.description != "" then req.description else p.description)
  }

  /**
   * The checks of an update on the fields it gives: a non-empty name must be
   * accepted, a non-zero deadline must fall before the course end; then the
   * given fields replace the stored ones.
   */
  function ApplyProjectReq(p: Project, req: ProjectReq, courseEnd: Instant): (r: Result<Project, Error>)
    ensures r.Ok? <==> (req.projectName != "" ==> NameAccepted(req.projectName))
                       && (!IsZero(req.deadline) ==> DatesAccepted(req.deadline, courseEnd))
    ensures r.Err? ==> r.error.Invalid?
    ensures req.projectName != "" && !NameAccepted(req.projectName) ==> r == Err(Invalid(EmptyCourseName))
    ensures (req.projectName != "" ==> NameAccepted(req.projectName)) && !IsZero(req.deadline) && !DatesAccepted(req.deadline, courseEnd)
            ==> r == Err(Invalid(DatesError(req.deadline, courseEnd)))
    ensures r.Ok? ==>
      && r.value.projectId == p.projectId && r.value.courseId == p.courseId
      && (req.projectName == "" ==> r.value.projectName == p.projectName) && (req.projectName != "" ==> r.value.projectName == req.projectName)
      && (IsZero(req.deadline) ==> r.value.deadline == p.deadline) && (!IsZero(req.deadline) ==> r.value.deadline == req.deadline)
      && (req.description == "" ==> r.value.description == p.description) && (req.description != "" ==> r.value.description == req.description)
  {
    var (nameOk, nameError) := if req.projectName != "" then ValidateCourseName(req.projectName) else (true, None);
    if !nameOk then Err(Invalid(nameError.value))
    else
      FormattedDatesCheck(req.deadline, courseEnd);
      var (datesOk, datesError) :=
        if !IsZero(req.deadline) then ValidateCourseDate(Format(req.deadline), Format(courseEnd)) else (true, None);
      if !datesOk then Err(Invalid(datesError.value))
      else Ok(MergeProject(p, req))
  }

  /**
   * UpdatedProjectByID: role, course, project under the course, ownership,
   * then the name and the deadline when they are given.
   */
  function UpdateProjectOutcome(actor: Actor, courseId: nat, projectId: nat, req: ProjectReq,
                                courses: map<nat, Course>, projects: map<nat, Project>): (r: Result<Project, Error>)
    ensures r == Err(Forbidden) <==> !Policy.Allows(Policy.ProjectUpdate, actor.role)
    ensures r == Err(CourseNotFound) <==> Policy.Allows(Policy.ProjectUpdate, actor.role) && courseId !in courses
    ensures r == Err(ProjectNotFound) <==> Policy.Allows(Policy.ProjectUpdate, actor.role) && courseId in courses
                                           && FindProject(projects, courseId, projectId).None?
    ensures r == Err(NotOwner) <==> Policy.Allows(Policy.ProjectUpdate, actor.role) && courseId in courses
                                    && FindProject(projects, courseId, projectId).Some?
                                    && !Policy.PassesOwnerCheck(actor, courses[courseId])
    ensures r.Ok? <==> Policy.Allows(Policy.ProjectUpdate, actor.role) && courseId in courses
                       && FindProject(projects, courseId, projectId).Some?
                       && Policy.PassesOwnerCheck(actor, courses[courseId])
                       && ApplyProjectReq(projects[projectId], req, courses[courseId].endDate).Ok?
    ensures Policy.Allows(Policy.ProjectUpdate, actor.role) && courseId in courses
            && FindProject(projects, courseId, projectId).Some? && Policy.PassesOwnerCheck(actor, courses[courseId])
            ==> r == ApplyProjectReq(projects[projectId], req, courses[courseId].endDate)
  {
    if actor.role == Student then Err(Forbidden)
    else if courseId !in courses then Err(CourseNotFound)
    else
      var course := courses[courseId];
      var found := FindProject(projects, courseId, projectId);
      if found.None? then Err(ProjectNotFound)
      else if actor.role == Mentor && actor.userId != course.mentorId then Err(NotOwner)
      else ApplyProjectReq(found.value, req, course.endDate)
  }

  /** DeleteProjectByID: None when the project is deleted. */
  function DeleteProjectOutcome(actor: Actor, courseId: nat, projectId: nat,
                                courses: map<nat, Course>, projects: map<nat, Project>): (r: Option<Error>)
    ensures r == Some(Forbidden) <==> !Policy.Allows(Policy.ProjectDelete, actor.role)
    ensures r == Some(CourseNotFound) <==> Policy.Allows(Policy.ProjectDelete, actor.role) && courseId !in courses
    ensures r == Some(ProjectNotFound) <==> Policy.Allows(Policy.ProjectDelete, actor.role) && courseId in courses
                                            && FindProject(projects, courseId, projectId).None?
    ensures r == Some(NotOwner) <==> Policy.Allows(Policy.ProjectDelete, actor.role) && courseId in courses
                                     && FindProject(projects, courseId, projectId).Some?
                                     && !Policy.PassesOwnerCheck(actor, courses[courseId])
    ensures r.None? <==> Policy.Allows(Policy.ProjectDelete, actor.role) && courseId in courses
                         && FindProject(projects, courseId, projectId).Some?
                         && Policy.PassesOwnerCheck(actor, courses[courseId])
  {
    if actor.role == Student then Some(Forbidden)
    else if courseId !in courses then Some(CourseNotFound)
    else if FindProject(projects, courseId, projectId).None? then Some(ProjectNotFound)
    else if actor.role == Mentor && actor.userId != courses[courseId].mentorId then Some(NotOwner)
    else None
  }

  class ProjectServiceImpl {
    const projectRepo: ProjectRepo
    const courseRepo: CourseRepo

    constructor(projectRepo: ProjectRepo, courseRepo: CourseRepo)
      ensures this.projectRepo == projectRepo && this.courseRepo == courseRepo
    {
      this.projectRepo := projectRepo;
      this.courseRepo := courseRepo;
    }

    method CreateProject(actor: Actor, courseId: nat, req: ProjectReq) returns (r: Result<Project, Error>)
      requires projectRepo.Valid()
      modifies projectRepo
      ensures projectRepo.Valid()
      ensures r == CreateProjectOutcome(actor, courseId, req, courseRepo.rows, old(projectRepo.nextId))
      ensures projectRepo.rows == if r.Ok? then old(projectRepo.rows)[r.value.projectId := r.value] else old(projectRepo.rows)
    {
      if actor.role == Student {
        return Err(Forbidden);
      }
      var courseExist := courseRepo.GetCourseByID(courseId);
      if courseExist.None? {
        return Err(CourseNotFound);
      }
      var course := courseExist.value;
      if actor.role == Mentor && actor.userId != course.mentorId {
        return Err(NotOwner);
      }
      var (nameOk, nameError) := ValidateCourseName(req.projectName);
      if !nameOk {
        return Err(Invalid(nameError.value));
      }
      var (datesOk, datesError) := ValidateCourseDate(Format(req.deadline), Format(course.endDate));
      if !datesOk {
        return Err(Invalid(datesError.value));
      }
      var newProject := Project(0, course.courseId, req.projectName, req.description, req.deadline);
      var stored := projectRepo.CreateProject(newProject);
      return Ok(stored);
    }

    method GetProjects(courseId: nat) returns (r: Result<map<nat, Project>, Error>)
      ensures r == GetProjectsOutcome(courseId, courseRepo.rows, projectRepo.rows)
    {
      var courseExist := courseRepo.GetCourseByID(courseId);
      if courseExist.None? {
        return Err(CourseNotFound);
      }
      var projects := projectRepo.GetProjects(courseId);
      assert projects == ProjectsOf(projectRepo.rows, courseId);
      return Ok(projects);
    }

    method GetProjectByID(courseId: nat, projectId: nat) returns (r: Result<Project, Error>)
      ensures r == GetProjectOutcome(courseId, projectId, courseRepo.rows, projectRepo.rows)
    {
      var courseExist := courseRepo.GetCourseByID(courseId);
      if courseExist.None? {
        return Err(CourseNotFound);
      }
      var found := projectRepo.GetProjectByID(courseId, projectId);
      if found.None? {
        return Err(ProjectNotFound);
      }
      return Ok(found.value);
    }

    method UpdatedProjectByID(actor: Actor, courseId: nat, projectId: nat, req: ProjectReq) returns (r: Result<Project, Error>)
      requires projectRepo.Valid()
      modifies projectRepo
      ensures projectRepo.Valid() && projectRepo.nextId == old(projectRepo.nextId)
      ensures r == UpdateProjectOutcome(actor, courseId, projectId, req, courseRepo.rows, old(projectRepo.rows))
      ensures projectRepo.rows == if r.Ok? then old(projectRepo.rows)[projectId := r.value] else old(projectRepo.rows)
    {
      if actor.role == Student {
        return Err(Forbidden);
      }
      var courseExist := courseRepo.GetCourseByID(courseId);
      if courseExist.None? {
        return Err(CourseNotFound);
      }
      var course := courseExist.value;
      var found := projectRepo.GetProjectByID(courseId, projectId);
      if found.None? {
        return Err(ProjectNotFound);
      }
      if actor.role == Mentor && actor.userId != course.mentorId {
        return Err(NotOwner);
      }
      var applied := ApplyRequest(found.value, req, course.endDate);
      if applied.Err? {
        return applied;
      }
      var updated := projectRepo.UpdateProjectByID(courseId, projectId, applied.value);
      return Ok(updated);
    }

    /** The field-by-field part of UpdatedProjectByID, on the project read from the table. */
    method ApplyRequest(projectExist: Project, req: ProjectReq, courseEnd: Instant) returns (r: Result<Project, Error>)
      ensures r == ApplyProjectReq(projectExist, req, courseEnd)
    {
      var project := projectExist;
      if req.projectName != "" {
        var (nameOk, nameError) := ValidateCourseName(req.projectName);
        if !nameOk {
          return Err(Invalid(nameError.value));
        }
        project := project.(projectName := req.projectName);
      }
      if !IsZero(req.deadline) {
        var (datesOk, datesError) := ValidateCourseDate(Format(req.deadline), Format(courseEnd));
        if !datesOk {
          return Err(Invalid(datesError.value));
        }
        project := project.(deadline := req.deadline);
      }
      if req.description != "" {
        project := project.(description := req.description);
      }
      return Ok(project);
    }

    method DeleteProjectByID(actor: Actor, courseId: nat, projectId: nat) returns (err: Option<Error>)
      requires projectRepo.Valid()
      modifies projectRepo
      ensures projectRepo.Valid() && projectRepo.nextId == old(projectRepo.nextId)
      ensures err == DeleteProjectOutcome(actor, courseId, projectId, courseRepo.rows, old(projectRepo.rows))
      ensures projectRepo.rows == if err.None? then old(projectRepo.rows) - {projectId} else old(projectRepo.rows)
    {
      if actor.role == Student {
        return Some(Forbidden);
      }
      var courseExist := courseRepo.GetCourseByID(courseId);
      if courseExist.None? {
        return Some(CourseNotFound);
      }
      var found := projectRepo.GetProjectByID(courseId, projectId);
      if found.None? {
        return Some(ProjectNotFound);
      }
      if actor.role == Mentor && actor.userId != courseExist.value.mentorId {
        return Some(NotOwner);
      }
      projectRepo.DeleteProjectByID(courseId, projectId);
      return None;
    }
  }

  // ---------------------------------------------------------------------------
  // Properties.

  /** Every deadline a project is given, at creation or update, falls before the end of its course. */
  lemma DeadlineBeforeCourseEnd(actor: Actor, courseId: nat, projectId: nat, req: ProjectReq,
                                courses: map<nat, Course>, projects: map<nat, Project>, newId: nat)
    ensures var c := CreateProjectOutcome(actor, courseId, req, courses, newId);
      c.Ok? ==> Before(Truncate(c.value.deadline), Truncate(courses[courseId].endDate))
    ensures var u := UpdateProjectOutcome(actor, courseId, projectId, req, courses, projects);
      u.Ok? && !IsZero(req.deadline) ==> Before(Truncate(u.value.deadline), Truncate(courses[courseId].endDate))
  {
  }

  /** A deadline in the same minute as the course end is refused. */
  lemma DeadlineAtCourseEndRefused(actor: Actor, courseId: nat, req: ProjectReq, courses: map<nat, Course>, newId: nat)
    requires courseId in courses && Truncate(req.deadline) == Truncate(courses[courseId].endDate)
    ensures CreateProjectOutcome(actor, courseId, req, courses, newId).Err?
  {
  }

  /**
   * The ownership check is the same for create, update and delete: an Admin
   * always passes it, a Mentor passes it exactly on a course assigned to them.
   */
  lemma OwnershipDecides(actor: Actor, courseId: nat, projectId: nat, courses: map<nat, Course>, projects: map<nat, Project>)
    requires actor.role == Mentor || actor.role == Admin
    requires courseId in courses && FindProject(projects, courseId, projectId).Some?
    ensures DeleteProjectOutcome(actor, courseId, projectId, courses, projects).None?
            <==> actor.role == Admin || courses[courseId].mentorId == actor.userId
    ensures UpdateProjectOutcome(actor, courseId, projectId, ProjectReq("", "", Zero), courses, projects).Ok?
            <==> actor.role == Admin || courses[courseId].mentorId == actor.userId
  {
  }
}

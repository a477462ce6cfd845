/**
 * Project submission and grading (controller/project-sub.go), without the
 * file upload: a Student submits inside the course's date window, a Mentor
 * sets the score and optionally a remark. These handlers use the database
 * directly; the submission table is modelled here next to them.
 */
module ProjectSubmission {
  import opened Wrappers
  import opened Times
  import opened Errors
  import opened Entities
  import Policy
  import opened CourseRepository
  import opened ProjectRepository

  /** The grading request body (model.ProjectSubMentor). */
  datatype ScoreReq = ScoreReq(description: string, score: int)

  /** The submission window: not before the course start and not after its end; both ends are inside. */
  predicate InWindow(now: Instant, course: Course) {
    !Before(now, course.startDate) && !After(now, course.endDate)
  }

  /** StudentSubmitProject: the submission stored under key newId, or why it is refused. */
  function SubmitOutcome(actor: Actor, courseId: nat, projectId: nat, projectPath: string, courses: map<nat, Course>,
                         projects: map<nat, Project>, now: Instant, newId: nat): (r: Result<ProjectSub, Error>)
    ensures r == Err(Forbidden) <==> !Policy.Allows(Policy.SubmitProject, actor.role)
    ensures r == Err(CourseNotFound) <==> Policy.Allows(Policy.SubmitProject, actor.role) && courseId !in courses
    ensures r == Err(ProjectNotFound) <==> Policy.Allows(Policy.SubmitProject, actor.role) && courseId in courses && projectId !in projects
    ensures r == Err(CourseNotStarted) <==> Policy.Allows(Policy.SubmitProject, actor.role) && courseId in courses && projectId in projects
                                            && Before(now, courses[courseId].startDate)
    ensures r == Err(CourseEnded) <==> Policy.Allows(Policy.SubmitProject, actor.role) && courseId in courses && projectId in projects
                                       && !Before(now, courses[courseId].startDate) && After(now, courses[courseId].endDate)
    ensures r.Ok? <==> Policy.Allows(Policy.SubmitProject, actor.role) && courseId in courses && projectId in projects
                       && InWindow(now, courses[courseId])
    ensures r.Ok? ==> r.value == ProjectSub(newId, projects[projectId].projectId, actor.userId, now, projectPath, 0, "")
  {
    if actor.role != Student then Err(Forbidden)
    else if courseId !in courses then Err(CourseNotFound)
    else if projectId !in projects then Err(ProjectNotFound)
    else
      var course := courses[courseId];
      if Before(now, course.startDate) then Err(CourseNotStarted)
      else if After(now, course.endDate) then Err(CourseEnded)
      else Ok(ProjectSub(newId, projects[projectId].projectId, actor.userId, now, projectPath, 0, ""))
  }

  /** The range guard as written: a score below 0 and above 100 at once. */
  predicate ScoreGuard(score: int) {
    score < 0 && score > 100
  }

  /** MentorSubmitScore: the saved submission, or why it is refused. */
  function ScoreOutcome(actor: Actor, courseId: nat, projectSubId: nat, req: ScoreReq, courses: map<nat, Course>,
                        subs: map<nat, ProjectSub>): (r: Result<ProjectSub, Error>)
    ensures r == Err(Forbidden) <==> !Policy.Allows(Policy.SubmitScore, actor.role)
    ensures r == Err(CourseNotFound) <==> Policy.Allows(Policy.SubmitScore, actor.role) && courseId !in courses
    ensures r == Err(SubmissionNotFound) <==> Policy.Allows(Policy.SubmitScore, actor.role) && courseId in courses && projectSubId !in subs
    ensures r == Err(ScoreOutOfRange) <==> Policy.Allows(Policy.SubmitScore, actor.role) && courseId in courses && projectSubId in subs
                                           && ScoreGuard(req.score)
    ensures r.Ok? <==> Policy.Allows(Policy.SubmitScore, actor.role) && courseId in courses && projectSubId in subs
                       && !ScoreGuard(req.score)
    ensures r.Ok? ==> var s := subs[projectSubId];
      && r.value.score == req.score
      && (req.description == "" ==> r.value.description == s.description)
      && (req.description != "" ==> r.value.description == req.description)
      && r.value.projectSubId == s.projectSubId && r.value.projectId == s.projectId && r.value.studentId == s.studentId
      && r.value.submissionDate == s.submissionDate && r.value.projectPath == s.projectPath
  {
    if actor.role != Mentor then Err(Forbidden)
    else if courseId !in courses then Err(CourseNotFound)
    else if projectSubId !in subs then Err(SubmissionNotFound)
    else if ScoreGuard(req.score) then Err(ScoreOutOfRange)
    else
      var s := subs[projectSubId].(score := req.score);
      Ok(if req.description != "" then s.(description := req.description) else s)
  }

  /** The submission table: rows keyed by project_sub_id. */
  class SubmissionTable {
    var rows: map<nat, ProjectSub>
    var nextId: nat

    ghost predicate Valid()
      reads this
    {
      0 < nextId && forall k :: k in rows ==> 0 < k < nextId && rows[k].projectSubId == k
    }

    constructor()
      ensures Valid() && rows == map[] && nextId == 1
    {
      rows := map[];
      nextId := 1;
    }

    method Create(sub: ProjectSub) returns (stored: ProjectSub)
      requires Valid()
      modifies this
      ensures Valid()
      ensures stored == sub.(projectSubId := old(nextId)) && old(nextId) !in old(rows)
      ensures rows == old(rows)[stored.projectSubId := stored] && nextId == old(nextId) + 1
    {
      stored := sub.(projectSubId := nextId);
      rows := rows[nextId := stored];
      nextId := nextId + 1;
    }

    method First(projectSubId: nat) returns (r: Option<ProjectSub>)
      ensures r.Some? <==> projectSubId in rows
      ensures r.Some? ==> r.value == rows[projectSubId]
    {
      r := if projectSubId in rows then Some(rows[projectSubId]) else None;
    }

    /** Writes every field of a submission that is already stored. */
    method Save(sub: ProjectSub)
      requires Valid() && sub.projectSubId in rows
      modifies this
      ensures Valid() && nextId == old(nextId)
      ensures rows == old(rows)[sub.projectSubId := sub]
    {
      rows := rows[sub.projectSubId := sub];
    }
  }

  class ProjectSubControllerImpl {
    const courseRepo: CourseRepo
    const projectRepo: ProjectRepo
    const subs: SubmissionTable

    constructor(courseRepo: CourseRepo, projectRepo: ProjectRepo, subs: SubmissionTable)
      ensures this.courseRepo == courseRepo && this.projectRepo == projectRepo && this.subs == subs
    {
      this.courseRepo := courseRepo;
      this.projectRepo := projectRepo;
      this.subs := subs;
    }

    /** The decision and record logic of StudentSubmitProject; the stored file path is given. */
    method StudentSubmitProject(actor: Actor, courseId: nat, projectId: nat, projectPath: string, now: Instant)
      returns (r: Result<ProjectSub, Error>)
      requires subs.Valid()
      modifies subs
      ensures subs.Valid()
      ensures r == SubmitOutcome(actor, courseId, projectId, projectPath, courseRepo.rows, projectRepo.rows, now, old(subs.nextId))
      ensures subs.rows == if r.Ok? then old(subs.rows)[r.value.projectSubId := r.value] else old(subs.rows)
    {
      if actor.role != Student {
        return Err(Forbidden);
      }
      var course := courseRepo.GetCourseByID(courseId);
      if course.None? {
        return Err(CourseNotFound);
      }
      if projectId !in projectRepo.rows {
        return Err(ProjectNotFound);
      }
      var project := projectRepo.rows[projectId];
      if Before(now, course.value.startDate) {
        return Err(CourseNotStarted);
      }
      if After(now, course.value.endDate) {
        return Err(CourseEnded);
      }
      var projectSub := ProjectSub(0, project.projectId, actor.userId, now, projectPath, 0, "");
      var stored := subs.Create(projectSub);
      return Ok(stored);
    }

    /** The decision and record logic of MentorSubmitScore. */
    method MentorSubmitScore(actor: Actor, courseId: nat, projectSubId: nat, req: ScoreReq) returns (r: Result<ProjectSub, Error>)
      requires subs.Valid()
      modifies subs
      ensures subs.Valid() && subs.nextId == old(subs.nextId)
      ensures r == ScoreOutcome(actor, courseId, projectSubId, req, courseRepo.rows, old(subs.rows))
      ensures subs.rows == if r.Ok? then old(subs.rows)[projectSubId := r.value] else old(subs.rows)
    {
      if actor.role != Mentor {
        return Err(Forbidden);
      }
      var course := courseRepo.GetCourseByID(courseId);
      if course.None? {
        return Err(CourseNotFound);
      }
      var found := subs.First(projectSubId);
      if found.None? {
        return Err(SubmissionNotFound);
      }
      if req.score < 0 && req.score > 100 {
        return Err(ScoreOutOfRange);
      }
      var existing := found.value;
      existing := existing.(score := req.score);
      if req.description != "" {
        existing := existing.(description := req.description);
      }
      subs.Save(existing);
      return Ok(existing);
    }
  }

  // ---------------------------------------------------------------------------
  // Properties.

  /** The range guard never fires, so every score is stored, negative or above 100 alike. */
  lemma EveryScoreAccepted(actor: Actor, courseId: nat, projectSubId: nat, req: ScoreReq, courses: map<nat, Course>,
                           subs: map<nat, ProjectSub>)
    requires actor.role == Mentor && courseId in courses && projectSubId in subs
    ensures !ScoreGuard(req.score)
    ensures var r := ScoreOutcome(actor, courseId, projectSubId, req, courses, subs); r.Ok? && r.value.score == req.score
  {
  }

  /**
   * Grading checks no link between the course, the submission and the
   * mentor: any Mentor grades any submission under any existing course.
   */
  lemma AnyMentorGradesAnything(actor: Actor, courseId: nat, projectSubId: nat, req: ScoreReq, courses: map<nat, Course>,
                                subs: map<nat, ProjectSub>)
    requires actor.role == Mentor && courseId in courses && courses[courseId].mentorId != actor.userId && projectSubId in subs
    ensures ScoreOutcome(actor, courseId, projectSubId, req, courses, subs).Ok?
  {
  }

  /** A project is found by its id alone, so a project of another course is accepted. */
  lemma ProjectOfOtherCourseAccepted(actor: Actor, courseId: nat, projectId: nat, projectPath: string, courses: map<nat, Course>,
                                     projects: map<nat, Project>, now: Instant, newId: nat)
    requires actor.role == Student && courseId in courses && projectId in projects && projects[projectId].courseId != courseId
    requires InWindow(now, courses[courseId])
    ensures SubmitOutcome(actor, courseId, projectId, projectPath, courses, projects, now, newId).Ok?
  {
  }

  /** Both ends of the window are accepted; an instant outside it is refused. */
  lemma WindowBoundaries(course: Course, now: Instant)
    ensures now == course.startDate && !After(now, course.endDate) ==> InWindow(now, course)
    ensures now == course.endDate && !Before(now, course.startDate) ==> InWindow(now, course)
    ensures Before(now, course.startDate) || Before(course.endDate, now) ==> !InWindow(now, course)
  {
    BeforeIsStrictTotalOrder(now, now, now);
  }

  /** Grading leaves the submission's identity, owner, date and file as they were. */
  lemma GradingKeepsSubmission(actor: Actor, courseId: nat, projectSubId: nat, req: ScoreReq, courses: map<nat, Course>,
                               subs: map<nat, ProjectSub>)
    requires ScoreOutcome(actor, courseId, projectSubId, req, courses, subs).Ok?
    ensures var r := ScoreOutcome(actor, courseId, projectSubId, req, courses, subs).value;
      r.(score := subs[projectSubId].score, description := subs[projectSubId].description) == subs[projectSubId]
  {
  }
}

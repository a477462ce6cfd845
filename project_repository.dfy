/** The project table (repository/project.go): rows keyed by project_id. */
module ProjectRepository {
  import opened Wrappers
  import opened Entities

  /** The projects of one course. */
  function ProjectsOf(rows: map<nat, Project>, courseId: nat): map<nat, Project> {
    map k | k in rows && rows[k].courseId == courseId :: rows[k]
  }

  /** The row that has both keys: its own project_id and the given course_id. */
  function FindProject(rows: map<nat, Project>, courseId: nat, projectId: nat): Option<Project> {
    if projectId in rows && rows[projectId].courseId == courseId then Some(rows[projectId]) else None
  }

  class ProjectRepo {
    var rows: map<nat, Project>
    var nextId: nat

    ghost predicate Valid()
      reads this
    {
      0 < nextId && forall k :: k in rows ==> 0 < k < nextId && rows[k].projectId == k
    }

    constructor()
      ensures Valid() && rows == map[] && nextId == 1
    {
      rows := map[];
      nextId := 1;
    }

    method CreateProject(project: Project) returns (stored: Project)
      requires Valid()
      modifies this
      ensures Valid()
      ensures stored == project.(projectId := old(nextId)) && old(nextId) !in old(rows)
      ensures rows == old(rows)[stored.projectId := stored] && nextId == old(nextId) + 1
    {
      stored := project.(projectId := nextId);
      rows := rows[nextId := stored];
      nextId := nextId + 1;
    }

    /** Exactly the projects whose course_id is the one given. */
    method GetProjects(courseId: nat) returns (projects: map<nat, Project>)
      ensures forall k :: k in projects <==> k in rows && rows[k].courseId == courseId
      ensures forall k :: k in projects ==> projects[k] == rows[k]
    {
      projects := ProjectsOf(rows, courseId);
    }

    /** The project with this project_id, provided it belongs to this course. */
    method GetProjectByID(courseId: nat, projectId: nat) returns (r: Option<Project>)
      ensures r.Some? <==> projectId in rows && rows[projectId].courseId == courseId
      ensures r.Some? ==> r.value == rows[projectId]
    {
      r := FindProject(rows, courseId, projectId);
    }

    method UpdateProjectByID(courseId: nat, projectId: nat, project: Project) returns (r: Project)
      requires Valid()
      modifies this
      ensures Valid() && nextId == old(nextId) && r == project
      ensures rows == if FindProject(old(rows), courseId, projectId).Some? then old(rows)[projectId := project.(projectId := projectId)] else old(rows)
    {
      if FindProject(rows, courseId, projectId).Some? {
        rows := rows[projectId := project.(projectId := projectId)];
      }
      r := project;
    }

    method DeleteProjectByID(courseId: nat, projectId: nat)
      requires Valid()
      modifies this
      ensures Valid() && nextId == old(nextId)
      ensures rows == if FindProject(old(rows), courseId, projectId).Some? then old(rows) - {projectId} else old(rows)
    {
      if FindProject(rows, courseId, projectId).Some? {
        rows := rows - {projectId};
      }
    }
  }
}

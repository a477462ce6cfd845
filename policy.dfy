/**
 * The role checks of the services and handlers, collected as one table.
 * Each operation either refuses one role (`if role == X`), accepts only one
 * role (`if role != X`), or checks nothing. Some operations also require a
 * Mentor to be the mentor of the course; the other roles skip that check.
 */
module Policy {
  import opened Entities

  datatype Gate =
    | AnyoneBut(excluded: Role)
    | Only(required: Role)
    | Open

  predicate Admits(g: Gate, role: Role) {
    match g
    case AnyoneBut(x) => role != x
    case Only(x) => role == x
    case Open => true
  }

  datatype Action =
    | CourseCreate | CourseRead | CourseUpdate | CourseDelete
    | ClassCreate | ClassRead | ClassUpdate | ClassDelete
    | ProjectCreate | ProjectRead | ProjectUpdate | ProjectDelete
    | EnrollStudent | EnrollUpdate
    | AttendMark | AttendList | AttendDelete
    | UserList | UserRead | UserRoleUpdate | UserDelete
    | SubmitProject | SubmitScore

  function GateOf(a: Action): Gate {
    match a
    case CourseCreate => AnyoneBut(Student)
    case CourseRead => Open
    case CourseUpdate => AnyoneBut(Student)
    case CourseDelete => AnyoneBut(Student)
    case ClassCreate => AnyoneBut(Student)
    case ClassRead => Open
    case ClassUpdate => AnyoneBut(Student)
    case ClassDelete => Only(Admin)
    case ProjectCreate => AnyoneBut(Student)
    case ProjectRead => Open
    case ProjectUpdate => AnyoneBut(Student)
    case ProjectDelete => AnyoneBut(Student)
    case EnrollStudent => AnyoneBut(Mentor)
    case EnrollUpdate => Only(Admin)
    case AttendMark => AnyoneBut(Mentor)
    case AttendList => AnyoneBut(Student)
    case AttendDelete => Only(Admin)
    case UserList => Only(Admin)
    case UserRead => AnyoneBut(Student)
    case UserRoleUpdate => Only(Admin)
    case UserDelete => Only(Admin)
    case SubmitProject => Only(Student)
    case SubmitScore => Only(Mentor)
  }

  /** The caller's role passes the operation's role check. */
  predicate Allows(a: Action, role: Role) {
    Admits(GateOf(a), role)
  }

  /** The operations that compare a Mentor caller with the course's mentor. */
  predicate ChecksOwnership(a: Action) {
    a in {ClassCreate, ProjectCreate, ProjectUpdate, ProjectDelete, AttendList}
  }

  /** The mentor check: only a caller whose role is exactly Mentor is compared with the course's mentor. */
  predicate PassesOwnerCheck(actor: Actor, course: Course) {
    actor.role != Mentor || course.mentorId == actor.userId
  }

  /** What each named role may attempt. */
  lemma NamedRoles(a: Action)
    ensures Allows(a, Student) <==> a in {CourseRead, ClassRead, ProjectRead, EnrollStudent, AttendMark, SubmitProject}
    ensures Allows(a, Admin) <==> a !in {SubmitProject, SubmitScore}
    ensures Allows(a, Mentor) <==> a in {CourseRead, ClassRead, ProjectRead, CourseCreate, CourseUpdate, CourseDelete,
                                          ClassCreate, ClassUpdate, ProjectCreate, ProjectUpdate, ProjectDelete,
                                          AttendList, UserRead, SubmitScore}
  {
  }

  /**
   * A role text other than the three names passes every check that only
   * refuses one role, fails every check that demands one, and is never
   * compared with a course's mentor.
   */
  lemma UnnamedRole(a: Action, actor: Actor, course: Course)
    requires actor.role != Student && actor.role != Admin && actor.role != Mentor
    ensures Allows(a, actor.role) <==> !GateOf(a).Only?
    ensures PassesOwnerCheck(actor, course)
  {
  }
}

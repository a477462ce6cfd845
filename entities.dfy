/**
 * The records kept by the database (the entity package), with the fields the
 * services read and write, and the identity of the caller.
 */
module Entities {
  import opened Times

  /** entity.Role is a string type; Student, Admin and Mentor are its named values. */
  type Role = string

  const Student: Role := "Student"
  const Admin: Role := "Admin"
  const Mentor: Role := "Mentor"

  /** The authenticated caller, as carried by the token claims (middleware.UserClaims). */
  datatype Actor = Actor(userId: nat, role: Role)

  /** entity.Status, a string type; only Pending and Enroll are named. */
  type Status = string

  const Pending: Status := "pending"
  const Enroll: Status := "enroll"

  datatype User = User(userId: nat, username: string, role: Role)

  datatype Course = Course(
    courseId: nat,
    courseName: string,
    description: string,
    mentorId: nat,
    startDate: Instant,
    endDate: Instant,
    updatedAt: Instant)

  datatype Class = Class(
    classId: nat,
    courseId: nat,
    className: string,
    description: string,
    startDate: Instant,
    endDate: Instant)

  datatype Project = Project(
    projectId: nat,
    courseId: nat,
    projectName: string,
    description: string,
    deadline: Instant)

  datatype ProjectSub = ProjectSub(
    projectSubId: nat,
    projectId: nat,
    studentId: nat,
    submissionDate: Instant,
    projectPath: string,
    score: int,
    description: string)

  datatype Enrollment = Enrollment(
    enrollmentId: nat,
    studentId: nat,
    courseId: nat,
    enrollmentDate: Instant,
    enrollStatus: Status,
    createdAt: Instant,
    updatedAt: Instant)

  datatype Attendance = Attendance(
    attendId: nat,
    studentId: nat,
    classId: nat,
    courseId: nat,
    attended: bool,
    attendAt: Instant)
}

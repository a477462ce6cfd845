/**
 * The failures the program reports. Go returns them as error values with a
 * message; the model keeps one constructor per distinct condition.
 */
module Errors {
  /** Errors of the course-field checks in middleware/course.go. */
  datatype CourseRuleError =
    | EmptyCourseName      // "course name cannot be empty"
    | BadStartDate         // "invalid start date format. ..."
    | BadEndDate           // "invalid end date format. ..."
    | StartNotBeforeEnd    // "start date must be earlier than end date"

  /** Errors of the sign-up checks in middleware/user.go. */
  datatype SignupError =
    | StructInvalid(message: string)   // reported by the struct validator
    | NotAlphanumeric                  // "username must be alphanumeric"
    | UsernameTaken                    // "username already taken"
    | InvalidRole                      // "invalid role: must be ..."

  /** Errors of the services and of the submission handlers. */
  datatype Error =
    | Forbidden                           // the caller's role may not perform the action
    | NotOwner                            // a Mentor acting on a course assigned to another mentor
    | CourseNotFound
    | ClassNotFound
    | ProjectNotFound
    | UserNotFound
    | SubmissionNotFound
    | UserIdRequired                      // "user_id is required"
    | StudentIdRequired                   // "student_id is required"
    | MentorIdRequired                    // "mentor_id is required"
    | AlreadyEnrolled(enrollmentId: nat)  // "student has enroll with enrollment_id %d"
    | EnrollmentNotFound                  // "student hasn't enroll to a course"
    | NotEnrolled                         // "student not enroll to course"
    | RoleNotAssignable                   // "role must be either 'student' or 'mentor'"
    | CourseNotStarted                    // submission before the course start date
    | CourseEnded                         // submission after the course end date
    | ScoreOutOfRange                     // "Score must be between 0-100"
    | Invalid(reason: CourseRuleError)    // a course-field check failed
}

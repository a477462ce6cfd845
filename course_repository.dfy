/** The course table (repository/course.go): rows keyed by course_id. */
module CourseRepository {
  import opened Wrappers
  import opened Entities

  class CourseRepo {
    var rows: map<nat, Course>
    /** The key the database assigns to the next inserted row. */
    var nextId: nat

    ghost predicate Valid()
      reads this
    {
      0 < nextId && forall k :: k in rows ==> 0 < k < nextId && rows[k].courseId == k
    }

    constructor()
      ensures Valid() && rows == map[] && nextId == 1
    {
      rows := map[];
      nextId := 1;
    }

    /** Inserts the course under a fresh key and hands back the stored row. */
    method CreateCourse(course: Course) returns (stored: Course)
      requires Valid()
      modifies this
      ensures Valid()
      ensures stored == course.(courseId := old(nextId)) && old(nextId) !in old(rows)
      ensures rows == old(rows)[stored.courseId := stored] && nextId == old(nextId) + 1
    {
      stored := course.(courseId := nextId);
      rows := rows[nextId := stored];
      nextId := nextId + 1;
    }

    /** All courses, with no filter. */
    method GetCourses() returns (courses: map<nat, Course>)
      ensures courses.Keys == rows.Keys && forall k :: k in courses ==> courses[k] == rows[k]
    {
      courses := rows;
    }

    /** The course with that key, if any. */
    method GetCourseByID(courseId: nat) returns (r: Option<Course>)
      ensures r.Some? <==> courseId in rows
      ensures r.Some? ==> r.value == rows[courseId]
    {
      if courseId in rows {
        r := Some(rows[courseId]);
      } else {
        r := None;
      }
    }

    /** Writes the course over the row with that key; no row, no change. */
    method UpdateCourseByID(courseId: nat, course: Course)
      requires Valid()
      modifies this
      ensures Valid() && nextId == old(nextId)
      ensures rows == if courseId in old(rows) then old(rows)[courseId := course.(courseId := courseId)] else old(rows)
    {
      if courseId in rows {
        rows := rows[courseId := course.(courseId := courseId)];
      }
    }

    /** Deletes the course with that key (the source names this DeleteUserByID). */
    method DeleteUserByID(courseId: nat)
      requires Valid()
      modifies this
      ensures Valid() && nextId == old(nextId)
      ensures rows == old(rows) - {courseId}
    {
      rows := rows - {courseId};
    }
  }
}

/** The attendance table (repository/attendance.go): rows keyed by attend_id. */
module AttendRepository {
  import opened Entities

  /** The attendances recorded for one class of one course. */
  function AttendancesOf(rows: map<nat, Attendance>, courseId: nat, classId: nat): map<nat, Attendance> {
    map k | k in rows && rows[k].courseId == courseId && rows[k].classId == classId :: rows[k]
  }

  /** The rows left after deleting every attendance of one class of one course. */
  function WithoutClass(rows: map<nat, Attendance>, courseId: nat, classId: nat): map<nat, Attendance> {
    map k | k in rows && !(rows[k].courseId == courseId && rows[k].classId == classId) :: rows[k]
  }

  class AttendRepo {
    var rows: map<nat, Attendance>
    var nextId: nat

    ghost predicate Valid()
      reads this
    {
      0 < nextId && forall k :: k in rows ==> 0 < k < nextId && rows[k].attendId == k
    }

    constructor()
      ensures Valid() && rows == map[] && nextId == 1
    {
      rows := map[];
      nextId := 1;
    }

    method CreateAttendance(attendance: Attendance) returns (stored: Attendance)
      requires Valid()
      modifies this
      ensures Valid()
      ensures stored == attendance.(attendId := old(nextId)) && old(nextId) !in old(rows)
      ensures rows == old(rows)[stored.attendId := stored] && nextId == old(nextId) + 1
    {
      stored := attendance.(attendId := nextId);
      rows := rows[nextId := stored];
      nextId := nextId + 1;
    }

    /** Exactly the attendances whose course_id and class_id are the ones given. */
    method GetClassAttendances(courseId: nat, classId: nat) returns (attendances: map<nat, Attendance>)
      ensures forall k :: k in attendances <==> k in rows && rows[k].courseId == courseId && rows[k].classId == classId
      ensures forall k :: k in attendances ==> attendances[k] == rows[k]
    {
      attendances := AttendancesOf(rows, courseId, classId);
    }

    /**
     * Deletes by course_id and class_id only: attendId is not used, so every
     * attendance of that class goes.
     */
    method DeleteAttendanceByID(courseId: nat, classId: nat, attendId: nat)
      requires Valid()
      modifies this
      ensures Valid() && nextId == old(nextId)
      ensures rows == WithoutClass(old(rows), courseId, classId)
    {
      rows := WithoutClass(rows, courseId, classId);
    }
  }

  /** Deleting removes exactly the attendances of that class and keeps every other row as it was. */
  lemma DeleteRemovesWholeClass(rows: map<nat, Attendance>, courseId: nat, classId: nat)
    ensures WithoutClass(rows, courseId, classId).Keys == rows.Keys - AttendancesOf(rows, courseId, classId).Keys
    ensures AttendancesOf(WithoutClass(rows, courseId, classId), courseId, classId) == map[]
    ensures forall k :: k in WithoutClass(rows, courseId, classId) ==> WithoutClass(rows, courseId, classId)[k] == rows[k]
  {
    assert AttendancesOf(WithoutClass(rows, courseId, classId), courseId, classId).Keys == {};
  }
}

/** The class table (repository/class.go): rows keyed by class_id. */
module ClassRepository {
  import opened Wrappers
  import opened Entities

  /** The classes of one course. */
  function ClassesOf(rows: map<nat, Class>, courseId: nat): map<nat, Class> {
    map k | k in rows && rows[k].courseId == courseId :: rows[k]
  }

  /** The row that has both keys: its own class_id and the given course_id. */
  function FindClass(rows: map<nat, Class>, courseId: nat, classId: nat): Option<Class> {
    if classId in rows && rows[classId].courseId == courseId then Some(rows[classId]) else None
  }

  class ClassRepo {
    var rows: map<nat, Class>
    var nextId: nat

    ghost predicate Valid()
      reads this
    {
      0 < nextId && forall k :: k in rows ==> 0 < k < nextId && rows[k].classId == k
    }

    constructor()
      ensures Valid() && rows == map[] && nextId == 1
    {
      rows := map[];
      nextId := 1;
    }

    method CreateClass(c: Class) returns (stored: Class)
      requires Valid()
      modifies this
      ensures Valid()
      ensures stored == c.(classId := old(nextId)) && old(nextId) !in old(rows)
      ensures rows == old(rows)[stored.classId := stored] && nextId == old(nextId) + 1
    {
      stored := c.(classId := nextId);
      rows := rows[nextId := stored];
      nextId := nextId + 1;
    }

    /** Exactly the classes whose course_id is the one given. */
    method GetClasses(courseId: nat) returns (classes: map<nat, Class>)
      ensures forall k :: k in classes <==> k in rows && rows[k].courseId == courseId
      ensures forall k :: k in classes ==> classes[k] == rows[k]
    {
      classes := ClassesOf(rows, courseId);
    }

    /** The class with this class_id, provided it belongs to this course. */
    method GetClassByID(courseId: nat, classId: nat) returns (r: Option<Class>)
      ensures r.Some? <==> classId in rows && rows[classId].courseId == courseId
      ensures r.Some? ==> r.value == rows[classId]
    {
      r := FindClass(rows, courseId, classId);
    }

    /** Writes the class over the row matching both keys and hands the argument back. */
    method UpdateClassByID(courseId: nat, classId: nat, c: Class) returns (r: Class)
      requires Valid()
      modifies this
      ensures Valid() && nextId == old(nextId) && r == c
      ensures rows == if FindClass(old(rows), courseId, classId).Some? then old(rows)[classId := c.(classId := classId)] else old(rows)
    {
      if FindClass(rows, courseId, classId).Some? {
        rows := rows[classId := c.(classId := classId)];
      }
      r := c;
    }

    /** Deletes the row matching both keys. */
    method DeleteClassByID(courseId: nat, classId: nat)
      requires Valid()
      modifies this
      ensures Valid() && nextId == old(nextId)
      ensures rows == if FindClass(old(rows), courseId, classId).Some? then old(rows) - {classId} else old(rows)
    {
      if FindClass(rows, courseId, classId).Some? {
        rows := rows - {classId};
      }
    }
  }
}

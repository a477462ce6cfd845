/**
 * The enrollment table (repository/enrollment.go): rows keyed by
 * enrollment_id. An enrollment is looked up by its (student, course) pair;
 * the first match is the one with the smallest key, as First orders by the
 * primary key.
 */
module EnrollRepository {
  import opened Wrappers
  import opened Entities

  predicate IsEnrollmentOf(e: Enrollment, courseId: nat, studentId: nat) {
    e.studentId == studentId && e.courseId == courseId
  }

  lemma {:induction false} LeastExists(s: set<nat>)
    requires s != {}
    ensures exists m :: m in s && forall k :: k in s ==> m <= k
    decreases |s|
  {
    var x :| x in s;
    if s != {x} {
      LeastExists(s - {x});
      var m :| m in s - {x} && forall k :: k in s - {x} ==> m <= k;
      forall k | k in s && k != x
        ensures m <= k
      {
        assert k in s - {x};
      }
    } else {
      assert forall k :: k in s ==> x <= k;
    }
  }

  /** The smallest element of a non-empty set of keys. */
  function Least(s: set<nat>): (m: nat)
    requires s != {}
    ensures m in s && forall k :: k in s ==> m <= k
  {
    LeastExists(s);
    var m :| m in s && forall k :: k in s ==> m <= k;
    m
  }

  /** The key of the first enrollment of the student in the course. */
  function FirstEnrollmentKey(rows: map<nat, Enrollment>, courseId: nat, studentId: nat): (r: Option<nat>)
    ensures r.Some? ==> r.value in rows && IsEnrollmentOf(rows[r.value], courseId, studentId)
    ensures r.Some? ==> forall k :: k in rows && IsEnrollmentOf(rows[k], courseId, studentId) ==> r.value <= k
    ensures r.None? <==> forall k :: k in rows ==> !IsEnrollmentOf(rows[k], courseId, studentId)
  {
    var keys := set k | k in rows && IsEnrollmentOf(rows[k], courseId, studentId);
    assert forall k :: k in rows && IsEnrollmentOf(rows[k], courseId, studentId) ==> k in keys;
    if keys == {} then None else Some(Least(keys))
  }

  /** The first enrollment of the student in the course, if any. */
  function FindEnrollment(rows: map<nat, Enrollment>, courseId: nat, studentId: nat): Option<Enrollment> {
    var key := FirstEnrollmentKey(rows, courseId, studentId);
    if key.Some? then Some(rows[key.value]) else None
  }

  /** Every row of the pair replaced by the update, each keeping its own key. */
  function UpdatePair(rows: map<nat, Enrollment>, courseId: nat, studentId: nat, update: Enrollment): map<nat, Enrollment> {
    map k | k in rows :: if IsEnrollmentOf(rows[k], courseId, studentId) then update.(enrollmentId := k) else rows[k]
  }

  /** No two rows share a (student, course) pair. */
  ghost predicate PairsUnique(rows: map<nat, Enrollment>) {
    forall i, j :: i in rows && j in rows && rows[i].studentId == rows[j].studentId && rows[i].courseId == rows[j].courseId ==> i == j
  }

  class EnrollRepo {
    var rows: map<nat, Enrollment>
    var nextId: nat

    ghost predicate Valid()
      reads this
    {
      0 < nextId && forall k :: k in rows ==> 0 < k < nextId && rows[k].enrollmentId == k
    }

    constructor()
      ensures Valid() && rows == map[] && nextId == 1
    {
      rows := map[];
      nextId := 1;
    }

    method StudentEnroll(enroll: Enrollment) returns (stored: Enrollment)
      requires Valid()
      modifies this
      ensures Valid()
      ensures stored == enroll.(enrollmentId := old(nextId)) && old(nextId) !in old(rows)
      ensures rows == old(rows)[stored.enrollmentId := stored] && nextId == old(nextId) + 1
    {
      stored := enroll.(enrollmentId := nextId);
      rows := rows[nextId := stored];
      nextId := nextId + 1;
    }

    /** The first row of the pair: present exactly when the pair has a row, and no row of the pair has a smaller key. */
    method GetStudentCourseEnroll(courseId: nat, studentId: nat) returns (r: Option<Enrollment>)
      ensures r.Some? <==> exists k :: k in rows && IsEnrollmentOf(rows[k], courseId, studentId)
      ensures r.Some? ==> exists k :: k in rows && rows[k] == r.value && IsEnrollmentOf(r.value, courseId, studentId)
                                 && forall j :: j in rows && IsEnrollmentOf(rows[j], courseId, studentId) ==> k <= j
      ensures r == FindEnrollment(rows, courseId, studentId)
    {
      r := FindEnrollment(rows, courseId, studentId);
    }

    /** Writes the update over every row of the pair and hands the argument back. */
    method UpdateStudentEnroll(courseId: nat, studentId: nat, update: Enrollment) returns (r: Enrollment)
      requires Valid()
      modifies this
      ensures Valid() && nextId == old(nextId) && r == update
      ensures rows == UpdatePair(old(rows), courseId, studentId, update)
    {
      rows := UpdatePair(rows, courseId, studentId, update);
      r := update;
    }
  }

  /** Under unique pairs, updating a pair rewrites its one row and nothing else, and keeps pairs unique. */
  lemma UpdatePairTouchesOneRow(rows: map<nat, Enrollment>, courseId: nat, studentId: nat, update: Enrollment)
    requires PairsUnique(rows)
    requires FirstEnrollmentKey(rows, courseId, studentId).Some?
    requires IsEnrollmentOf(update, courseId, studentId)
    ensures var k := FirstEnrollmentKey(rows, courseId, studentId).value;
      UpdatePair(rows, courseId, studentId, update) == rows[k := update.(enrollmentId := k)]
    ensures PairsUnique(UpdatePair(rows, courseId, studentId, update))
  {
    var k := FirstEnrollmentKey(rows, courseId, studentId).value;
    var updated := UpdatePair(rows, courseId, studentId, update);
    assert updated.Keys == rows[k := update.(enrollmentId := k)].Keys;
    forall j | j in rows
      ensures updated[j] == rows[k := update.(enrollmentId := k)][j]
    {
      if IsEnrollmentOf(rows[j], courseId, studentId) {
        assert j == k;
      }
    }
  }
}

/**
 * User administration (service/user.go): listing is for Admins, reading is
 * for anyone but Students, and only an Admin changes a role, to a case
 * variant of "student" or "mentor", or deletes a user.
 */
module UserService {
  import opened Wrappers
  import opened Errors
  import opened Entities
  import Policy
  import opened UserRules
  import opened UserRepository

  /** The role check of UpdateUserRoleByID: "student" or "mentor" once lower-cased. */
  predicate RoleAssignable(role: string) {
    ToLower(role) == "student" || ToLower(role) == "mentor"
  }

  /** GetUsers. */
  function GetUsersOutcome(actor: Actor, users: map<nat, User>): (r: Result<map<nat, User>, Error>)
    ensures r.Err? <==> !Policy.Allows(Policy.UserList, actor.role)
    ensures r.Err? ==> r.error == Forbidden
    ensures r.Ok? ==> r.value == users
  {
    if actor.role != Admin then Err(Forbidden) else Ok(users)
  }

  /** GetUserByID. */
  function GetUserOutcome(actor: Actor, userId: nat, users: map<nat, User>): (r: Result<User, Error>)
    ensures r == Err(Forbidden) <==> !Policy.Allows(Policy.UserRead, actor.role)
    ensures r == Err(UserNotFound) <==> Policy.Allows(Policy.UserRead, actor.role) && userId !in users
    ensures r.Ok? ==> userId in users && r.value == users[userId]
  {
    if actor.role == Student then Err(Forbidden)
    else if userId !in users then Err(UserNotFound)
    else Ok(users[userId])
  }

  /**
   * UpdateUserRoleByID: the user as read back after the update. The role is
   * checked before the user is looked up, and stored as sent, not lower-cased.
   */
  function UpdateRoleOutcome(actor: Actor, userId: nat, role: string, users: map<nat, User>): (r: Result<User, Error>)
    ensures r == Err(Forbidden) <==> !Policy.Allows(Policy.UserRoleUpdate, actor.role)
    ensures r == Err(RoleNotAssignable) <==> Policy.Allows(Policy.UserRoleUpdate, actor.role) && !RoleAssignable(role)
    ensures r == Err(UserNotFound) <==> Policy.Allows(Policy.UserRoleUpdate, actor.role) && RoleAssignable(role) && userId !in users
    ensures r.Ok? <==> Policy.Allows(Policy.UserRoleUpdate, actor.role) && RoleAssignable(role) && userId in users
    ensures r.Ok? ==> r.value.role == role && r.value.userId == users[userId].userId && r.value.username == users[userId].username
  {
    if actor.role != Admin then Err(Forbidden)
    else if !RoleAssignable(role) then Err(RoleNotAssignable)
    else if userId !in users then Err(UserNotFound)
    else Ok(users[userId].(role := role))
  }

  /** DeleteUserByID: None when the user is deleted. */
  function DeleteUserOutcome(actor: Actor, userId: nat, users: map<nat, User>): (r: Option<Error>)
    ensures r == Some(Forbidden) <==> !Policy.Allows(Policy.UserDelete, actor.role)
    ensures r == Some(UserNotFound) <==> Policy.Allows(Policy.UserDelete, actor.role) && userId !in users
    ensures r.None? <==> Policy.Allows(Policy.UserDelete, actor.role) && userId in users
  {
    if actor.role != Admin then Some(Forbidden)
    else if userId !in users then Some(UserNotFound)
    else None
  }

  class UserServiceImpl {
    const userRepo: UserRepo

    constructor(userRepo: UserRepo)
      ensures this.userRepo == userRepo
    {
      this.userRepo := userRepo;
    }

    method GetUsers(actor: Actor) returns (r: Result<map<nat, User>, Error>)
      ensures r == GetUsersOutcome(actor, userRepo.rows)
    {
      if actor.role != Admin {
        return Err(Forbidden);
      }
      var users := userRepo.GetUsers();
      assert users == userRepo.rows;
      return Ok(users);
    }

    method GetUserByID(userId: nat, actor: Actor) returns (r: Result<User, Error>)
      ensures r == GetUserOutcome(actor, userId, userRepo.rows)
    {
      if actor.role == Student {
        return Err(Forbidden);
      }
      var user := userRepo.GetUserByID(userId);
      if user.None? {
        return Err(UserNotFound);
      }
      return Ok(user.value);
    }

    method UpdateUserRoleByID(actor: Actor, userId: nat, role: string) returns (r: Result<User, Error>)
      requires userRepo.Valid()
      modifies userRepo
      ensures userRepo.Valid()
      ensures r == UpdateRoleOutcome(actor, userId, role, old(userRepo.rows))
      ensures userRepo.rows == if r.Ok? then old(userRepo.rows)[userId := r.value] else old(userRepo.rows)
    {
      if actor.role != Admin {
        return Err(Forbidden);
      }
      if ToLower(role) != "student" && ToLower(role) != "mentor" {
        return Err(RoleNotAssignable);
      }
      var existing := userRepo.GetUserByID(userId);
      if existing.None? {
        return Err(UserNotFound);
      }
      userRepo.UpdateUserRoleByID(userId, role);
      var user := userRepo.GetUserByID(userId);
      if user.None? {
        return Err(UserNotFound);
      }
      return Ok(user.value);
    }

    method DeleteUserByID(actor: Actor, userId: nat) returns (err: Option<Error>)
      requires userRepo.Valid()
      modifies userRepo
      ensures userRepo.Valid()
      ensures err == DeleteUserOutcome(actor, userId, old(userRepo.rows))
      ensures userRepo.rows == if err.None? then old(userRepo.rows) - {userId} else old(userRepo.rows)
    {
      if actor.role != Admin {
        return Some(Forbidden);
      }
      var existing := userRepo.GetUserByID(userId);
      if existing.None? {
        return Some(UserNotFound);
      }
      userRepo.DeleteUserByID(userId);
      return None;
    }
  }

  // ---------------------------------------------------------------------------
  // Properties.

  lemma LowerStudent()
    ensures ToLower(Student) == "student"
  {
    assert forall i | 0 <= i < 7 :: ToLower(Student)[i] == "student"[i];
  }

  lemma LowerMentor()
    ensures ToLower(Mentor) == "mentor"
  {
    assert forall i | 0 <= i < 6 :: ToLower(Mentor)[i] == "mentor"[i];
  }

  lemma LowerAdmin()
    ensures ToLower(Admin) == "admin"
  {
    assert forall i | 0 <= i < 5 :: ToLower(Admin)[i] == "admin"[i];
  }

  /** "Admin" in any spelling cannot be assigned; "Student" and "Mentor" can. */
  lemma AdminNotAssignable(role: string)
    requires ToLower(role) == "admin"
    ensures !RoleAssignable(role)
    ensures RoleAssignable(Student) && RoleAssignable(Mentor)
  {
    LowerStudent();
    LowerMentor();
    var lowered := ToLower(role);
    assert |lowered| == 5;
  }

  /**
   * Of the role names sign-up accepts, exactly "Student" and "Mentor" can be
   * assigned; every other assignable text, such as "student", is one that
   * sign-up would refuse.
   */
  lemma AssignableNamedRoles(role: string)
    ensures RoleAssignable(role) && ValidateRole(role).None? <==> role == Student || role == Mentor
  {
    LowerAdmin();
    AdminNotAssignable(Admin);
  }

  /**
   * An assigned role text other than the two names, such as "mentor", passes
   * every role check that refuses one role, fails every check that demands
   * one, and is never compared with a course's mentor.
   */
  lemma AssignedLowercaseRole(role: string, userId: nat, course: Course, a: Policy.Action)
    requires RoleAssignable(role) && role != Student && role != Mentor
    ensures role != Admin
    ensures Policy.Allows(a, role) <==> !Policy.GateOf(a).Only?
    ensures Policy.PassesOwnerCheck(Actor(userId, role), course)
  {
    LowerAdmin();
    AdminNotAssignable(Admin);
    Policy.UnnamedRole(a, Actor(userId, role), course);
  }
}

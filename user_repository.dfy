/**
 * The user table as the services use it: lookups, a role update and a
 * deletion by user_id. repository/user.go declares none of these operations,
 * so the model states the plain behaviour the services rely on.
 */
module UserRepository {
  import opened Wrappers
  import opened Entities

  class UserRepo {
    var rows: map<nat, User>

    ghost predicate Valid()
      reads this
    {
      forall k :: k in rows ==> rows[k].userId == k
    }

    constructor()
      ensures Valid() && rows == map[]
    {
      rows := map[];
    }

    method GetUsers() returns (users: map<nat, User>)
      ensures users.Keys == rows.Keys && forall k :: k in users ==> users[k] == rows[k]
    {
      users := rows;
    }

    method GetUserByID(userId: nat) returns (r: Option<User>)
      ensures r.Some? <==> userId in rows
      ensures r.Some? ==> r.value == rows[userId]
    {
      if userId in rows {
        r := Some(rows[userId]);
      } else {
        r := None;
      }
    }

    /** Stores the role text as given. */
    method UpdateUserRoleByID(userId: nat, role: Role)
      requires Valid()
      modifies this
      ensures Valid()
      ensures rows == if userId in old(rows) then old(rows)[userId := old(rows)[userId].(role := role)] else old(rows)
    {
      if userId in rows {
        rows := rows[userId := rows[userId].(role := role)];
      }
    }

    method DeleteUserByID(userId: nat)
      requires Valid()
      modifies this
      ensures Valid()
      ensures rows == old(rows) - {userId}
    {
      rows := rows - {userId};
    }
  }
}

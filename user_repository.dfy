/**
 * The user repository: the store behind `UserRepositoryInterface`, kept
 * as a map from id to the stored row. Every read builds a fresh `User`
 * entity from the stored row, as the SQL implementation does; the
 * entities handed out are never aliased with the store.
 */
module Repository {
  import opened Wrappers
  import opened Domain

  /** Every row is filed under its own id (the table's primary key). */
  ghost predicate KeyedById(rows: map<Uuid, UserRow>) {
    forall id :: id in rows ==> rows[id].id == id
  }

  /** No stored row has email `email`. */
  ghost predicate EmailAbsent(rows: map<Uuid, UserRow>, email: string) {
    forall id :: id in rows ==> rows[id].email != email
  }

  /** The rows that satisfy `keep`. */
  ghost function RowsWhere(rows: map<Uuid, UserRow>, keep: UserRow -> bool): set<UserRow> {
    set id | id in rows && keep(rows[id]) :: rows[id]
  }

  /** The rows of a list of entities, in order. */
  ghost function RowsOf(users: seq<User>): seq<UserRow>
    reads users
  {
    seq(|users|, i requires 0 <= i < |users| reads users => users[i].Row())
  }

  class UserRepository {
    /** The stored users, by id. */
    var rows: map<Uuid, UserRow>

    ghost predicate Valid()
      reads this
    {
      KeyedById(rows)
    }

    constructor ()
      ensures Valid() && rows == map[]
    {
      rows := map[];
    }

    /** `get_by_id`: the stored user with that id, or none. */
    method GetById(userId: Uuid) returns (u: User?)
      ensures u == null <==> userId !in rows
      ensures u != null ==> fresh(u) && u.Row() == rows[userId]
    {
      if userId in rows {
        var row := rows[userId];
        u := new User(row.id, row.names, row.lastnames, row.email, row.roleId, row.areaId, row.authId);
      } else {
        u := null;
      }
    }

    /**
     * `get_by_email`: some stored user whose email is exactly `email`, or
     * none when there is none. Which one, when several match, is not fixed.
     */
    method GetByEmail(email: string) returns (u: User?)
      requires Valid()
      ensures u == null <==> EmailAbsent(rows, email)
      ensures u != null ==> fresh(u) && u.id in rows && rows[u.id] == u.Row() && u.email == email
    {
      if id :| id in rows && rows[id].email == email {
        var row := rows[id];
        u := new User(id, row.names, row.lastnames, row.email, row.roleId, row.areaId, row.authId);
      } else {
        u := null;
      }
    }

    /** `get_by_auth_id`: some stored user whose `auth_id` is `authId`, or none. */
    method GetByAuthId(authId: Uuid) returns (u: User?)
      requires Valid()
      ensures u == null <==> forall id :: id in rows ==> rows[id].authId != Some(authId)
      ensures u != null ==> fresh(u) && u.id in rows && rows[u.id] == u.Row() && u.authId == Some(authId)
    {
      if id :| id in rows && rows[id].authId == Some(authId) {
        var row := rows[id];
        u := new User(id, row.names, row.lastnames, row.email, row.roleId, row.areaId, row.authId);
      } else {
        u := null;
      }
    }

    /** `create`: store `user` under its id and return it as stored. */
    method Create(user: User) returns (created: User)
      requires Valid() && user.id !in rows
      modifies this
      ensures Valid()
      ensures rows == old(rows)[user.id := user.Row()]
      ensures fresh(created) && created.Row() == user.Row()
    {
      var row := user.Row();
      rows := rows[user.id := row];
      created := new User(row.id, row.names, row.lastnames, row.email, row.roleId, row.areaId, row.authId);
    }

    /**
     * `update`: overwrite the row with the user's id, then read it back.
     * When no row has that id nothing is written and nothing is read.
     */
    method Update(user: User) returns (updated: User?)
      requires Valid()
      modifies this
      ensures Valid()
      ensures rows == if user.id in old(rows) then old(rows)[user.id := user.Row()] else old(rows)
      ensures updated == null <==> user.id !in old(rows)
      ensures updated != null ==> fresh(updated) && updated.Row() == user.Row()
    {
      if user.id in rows {
        rows := rows[user.id := user.Row()];
      }
      updated := GetById(user.id);
    }

    /** `delete`: remove the row with that id; true exactly when one was removed. */
    method Delete(userId: Uuid) returns (removed: bool)
      requires Valid()
      modifies this
      ensures Valid()
      ensures rows == old(rows) - {userId}
      ensures removed <==> userId in old(rows)
    {
      removed := userId in rows;
      rows := rows - {userId};
    }

    /** A fresh entity for each stored row that satisfies `keep`, each row once, in no fixed order. */
    method FindAll(keep: UserRow -> bool) returns (users: seq<User>)
      requires Valid()
      ensures forall i :: 0 <= i < |users| ==> fresh(users[i])
      ensures forall i :: 0 <= i < |users| ==> users[i].id in rows && rows[users[i].id] == users[i].Row()
      ensures forall i, j :: 0 <= i < j < |users| ==> users[i].id != users[j].id
      ensures (set r | r in RowsOf(users)) == RowsWhere(rows, keep)
    {
      var pending := set id | id in rows && keep(rows[id]);
      users := [];
      while pending != {}
        invariant pending <= rows.Keys
        invariant forall i :: 0 <= i < |users| ==> fresh(users[i])
        invariant forall i :: 0 <= i < |users| ==> users[i].id in rows && rows[users[i].id] == users[i].Row()
        invariant forall i :: 0 <= i < |users| ==> users[i].id !in pending
        invariant forall i, j :: 0 <= i < j < |users| ==> users[i].id != users[j].id
        invariant (set r | r in RowsOf(users)) + (set id | id in pending :: rows[id]) == RowsWhere(rows, keep)
        invariant forall id :: id in pending ==> keep(rows[id])
        decreases pending
      {
        var id :| id in pending;
        var row := rows[id];
        var u := new User(id, row.names, row.lastnames, row.email, row.roleId, row.areaId, row.authId);
        assert RowsOf(users + [u]) == RowsOf(users) + [row];
        users := users + [u];
        pending := pending - {id};
      }
    }

    /** `get_users_by_role`: exactly the stored users with that role. */
    method GetUsersByRole(roleId: Uuid) returns (users: seq<User>)
      requires Valid()
      ensures forall i :: 0 <= i < |users| ==> fresh(users[i])
      ensures forall i :: 0 <= i < |users| ==> users[i].id in rows && rows[users[i].id] == users[i].Row()
      ensures forall i, j :: 0 <= i < j < |users| ==> users[i].id != users[j].id
      ensures (set r | r in RowsOf(users)) == (set id | id in rows && rows[id].roleId == roleId :: rows[id])
    {
      users := FindAll((r: UserRow) => r.roleId == roleId);
    }

    /** `get_users_by_area`: exactly the stored users in that area. */
    method GetUsersByArea(areaId: Uuid) returns (users: seq<User>)
      requires Valid()
      ensures forall i :: 0 <= i < |users| ==> fresh(users[i])
      ensures forall i :: 0 <= i < |users| ==> users[i].id in rows && rows[users[i].id] == users[i].Row()
      ensures forall i, j :: 0 <= i < j < |users| ==> users[i].id != users[j].id
      ensures (set r | r in RowsOf(users)) == (set id | id in rows && rows[id].areaId == areaId :: rows[id])
    {
      users := FindAll((r: UserRow) => r.areaId == areaId);
    }
  }
}

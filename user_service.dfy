/**
 * The user use-cases of `UserService`: create, update and delete against
 * the repository, plus the look-ups it passes through.
 *
 * Each state-changing use-case is specified by a pure step function from
 * the stored rows to the new rows and the result (or the `ValueError`
 * raised); the methods of `UserService` are proved to follow them, and the
 * lemmas below state what the steps promise.
 */
module Service {
  import opened Wrappers
  import opened Text
  import opened Domain
  import opened Repository

  /** The fields of a create request. */
  datatype UserCreate = UserCreate(
    names: string,
    lastnames: string,
    email: string,
    roleId: Uuid,
    areaId: Uuid,
    authId: Uuid)

  /** The fields of an update request (all present; an empty string counts as not given). */
  datatype UserUpdate = UserUpdate(
    names: string,
    lastnames: string,
    email: string,
    roleId: Uuid,
    areaId: Uuid)

  const DuplicateEmail: string := "Ya existe un usuario con este email"
  const UserMissing: string := "El usuario no existe"
  const EmailInUse: string := "El email ya está en uso por otro usuario"

  /** The rows after a use-case, and what it returned or raised. */
  datatype Step<T> = Step(rows: map<Uuid, UserRow>, result: Result<T>)

  /** Some user other than `userId` has email `email`. */
  ghost predicate HeldByOther(rows: map<Uuid, UserRow>, email: string, userId: Uuid) {
    exists id :: id in rows && id != userId && rows[id].email == email
  }

  /** No two stored users share an email. */
  ghost predicate EmailsUnique(rows: map<Uuid, UserRow>) {
    forall a, b :: a in rows && b in rows && a != b ==> rows[a].email != rows[b].email
  }

  /** `create_user` with `newId` as the id `uuid4` draws. */
  ghost function CreateUserStep(rows: map<Uuid, UserRow>, data: UserCreate, newId: Uuid): (s: Step<UserRow>)
    ensures s.result.Err? ==> s.rows == rows && s.result.kind == ValueError
    ensures s.result.Ok? ==> s.result.value.id == newId && s.rows == rows[newId := s.result.value]
  {
    if !EmailAbsent(rows, data.email) then
      Step(rows, Err(ValueError, DuplicateEmail))
    else
      var row := UserRow(newId, data.names, data.lastnames, data.email, data.roleId, data.areaId, Some(data.authId));
      Step(rows[newId := row], Ok(row))
  }

  /** The email change is requested: a non-empty address different from the stored one. */
  predicate EmailChanges(u: UserRow, data: UserUpdate) {
    data.email != "" && data.email != u.email
  }

  /** The row `update_user` writes back once its checks pass, given the email it settled on. */
  function Overwrite(u: UserRow, data: UserUpdate, email: string): UserRow {
    u.(email := email,
       names := if data.names != "" then data.names else u.names,
       lastnames := if data.lastnames != "" then data.lastnames else u.lastnames,
       roleId := data.roleId,
       areaId := data.areaId)
  }

  /**
   * `update_user` as written: the duplicate check looks up the address as
   * given, but the address stored is its normalised form.
   */
  ghost function UpdateUserStep(rows: map<Uuid, UserRow>, userId: Uuid, data: UserUpdate): (s: Step<UserRow>)
    ensures s.result.Err? ==> s.rows == rows && s.result.kind == ValueError
    ensures s.result.Ok? ==>
      && userId in rows && s.rows == rows[userId := s.result.value]
      && s.result.value.id == rows[userId].id && s.result.value.authId == rows[userId].authId
  {
    if userId !in rows then
      Step(rows, Err(ValueError, UserMissing))
    else
      var u := rows[userId];
      if EmailChanges(u, data) && HeldByOther(rows, data.email, userId) then
        Step(rows, Err(ValueError, EmailInUse))
      else
        var v := Overwrite(u, data, if EmailChanges(u, data) then NormalizeEmail(data.email) else u.email);
        Step(rows[userId := v], Ok(v))
  }

  /** `update_user` with the duplicate check on the address that is actually stored. */
  ghost function UpdateUserStepChecked(rows: map<Uuid, UserRow>, userId: Uuid, data: UserUpdate): (s: Step<UserRow>)
    ensures s.result.Err? ==> s.rows == rows && s.result.kind == ValueError
    ensures s.result.Ok? ==>
      && userId in rows && s.rows == rows[userId := s.result.value]
      && s.result.value.id == rows[userId].id && s.result.value.authId == rows[userId].authId
  {
    if userId !in rows then
      Step(rows, Err(ValueError, UserMissing))
    else
      var u := rows[userId];
      if EmailChanges(u, data) && HeldByOther(rows, NormalizeEmail(data.email), userId) then
        Step(rows, Err(ValueError, EmailInUse))
      else
        var v := Overwrite(u, data, if EmailChanges(u, data) then NormalizeEmail(data.email) else u.email);
        Step(rows[userId := v], Ok(v))
  }

  /** `delete_user`. */
  ghost function DeleteUserStep(rows: map<Uuid, UserRow>, userId: Uuid): (s: Step<bool>)
    ensures s.result.Err? ==> s.rows == rows && s.result.kind == ValueError
    ensures s.result.Ok? ==> userId in rows && s.rows == rows - {userId}
  {
    if userId !in rows then Step(rows, Err(ValueError, UserMissing)) else Step(rows - {userId}, Ok(true))
  }

  // ---------------------------------------------------------------- create

  /** An email held exactly by a stored user is refused and nothing is stored. */
  lemma CreateUserRejectsDuplicate(rows: map<Uuid, UserRow>, data: UserCreate, newId: Uuid)
    requires exists id :: id in rows && rows[id].email == data.email
    ensures CreateUserStep(rows, data, newId) == Step(rows, Err(ValueError, DuplicateEmail))
  {
  }

  /**
   * Otherwise exactly one user is added, under the fresh id, with the
   * request's fields as given (the email is not normalised), and it is returned.
   */
  lemma CreateUserStoresRequest(rows: map<Uuid, UserRow>, data: UserCreate, newId: Uuid)
    requires newId !in rows
    requires forall id :: id in rows ==> rows[id].email != data.email
    ensures var s := CreateUserStep(rows, data, newId);
      && s.result.Ok?
      && s.result.value == UserRow(newId, data.names, data.lastnames, data.email, data.roleId, data.areaId, Some(data.authId))
      && s.rows.Keys == rows.Keys + {newId}
      && s.rows[newId] == s.result.value
      && forall id :: id in rows ==> s.rows[id] == rows[id]
  {
  }

  /** Create checks the exact address it stores, so it keeps emails unique. */
  lemma CreateUserKeepsEmailsUnique(rows: map<Uuid, UserRow>, data: UserCreate, newId: Uuid)
    requires EmailsUnique(rows) && newId !in rows
    ensures EmailsUnique(CreateUserStep(rows, data, newId).rows)
  {
  }

  // ---------------------------------------------------------------- update

  /** Updating an unknown id is refused and nothing changes. */
  lemma UpdateUserRejectsMissing(rows: map<Uuid, UserRow>, userId: Uuid, data: UserUpdate)
    requires userId !in rows
    ensures UpdateUserStep(rows, userId, data) == Step(rows, Err(ValueError, UserMissing))
  {
  }

  /** A new address held exactly by another user is refused and nothing changes. */
  lemma UpdateUserRejectsEmailInUse(rows: map<Uuid, UserRow>, userId: Uuid, data: UserUpdate, other: Uuid)
    requires userId in rows && data.email != "" && data.email != rows[userId].email
    requires other in rows && other != userId && rows[other].email == data.email
    ensures UpdateUserStep(rows, userId, data) == Step(rows, Err(ValueError, EmailInUse))
  {
  }

  /**
   * When the update goes through: the changed email is stored normalised;
   * names and lastnames are replaced only by non-empty values; role and
   * area are always replaced; id and auth id stay; no other user changes.
   */
  lemma UpdateUserFieldRules(rows: map<Uuid, UserRow>, userId: Uuid, data: UserUpdate)
    requires userId in rows
    requires !(EmailChanges(rows[userId], data) && HeldByOther(rows, data.email, userId))
    ensures var s := UpdateUserStep(rows, userId, data);
      var u, v := rows[userId], s.rows[userId];
      && s.result == Ok(v)
      && s.rows.Keys == rows.Keys
      && (forall id :: id in rows && id != userId ==> s.rows[id] == rows[id])
      && v.id == u.id && v.authId == u.authId
      && v.email == (if data.email != "" && data.email != u.email then NormalizeEmail(data.email) else u.email)
      && v.names == (if data.names == "" then u.names else data.names)
      && v.lastnames == (if data.lastnames == "" then u.lastnames else data.lastnames)
      && v.roleId == data.roleId && v.areaId == data.areaId
  {
  }

  /**
   * Update does NOT keep emails unique: with "b@x.com" stored for user 1,
   * moving user 2 to "B@x.com" passes the check (no user has exactly
   * "B@x.com") and stores "b@x.com" a second time.
   */
  lemma UpdateUserBreaksEmailsUnique()
    ensures var rows := map[1 := UserRow(1, "Bea", "Paz", "b@x.com", 7, 8, None),
                            2 := UserRow(2, "Ana", "Ruiz", "a@x.com", 7, 8, None)];
      var s := UpdateUserStep(rows, 2, UserUpdate("", "", "B@x.com", 7, 8));
      && EmailsUnique(rows)
      && s.result.Ok?
      && s.rows[1].email == s.rows[2].email == "b@x.com"
      && !EmailsUnique(s.rows)
  {
    var rows := map[1 := UserRow(1, "Bea", "Paz", "b@x.com", 7, 8, None),
                    2 := UserRow(2, "Ana", "Ruiz", "a@x.com", 7, 8, None)];
    var data := UserUpdate("", "", "B@x.com", 7, 8);
    assert EmailsUnique(rows) by {
      assert "b@x.com"[0] != "a@x.com"[0];
    }
    assert EmailChanges(rows[2], data) by {
      assert data.email[0] != rows[2].email[0];
    }
    assert !HeldByOther(rows, data.email, 2) by {
      assert "b@x.com"[0] != data.email[0];
    }
    NormalizeSample();
    var v := Overwrite(rows[2], data, "b@x.com");
    assert UpdateUserStep(rows, 2, data) == Step(rows[2 := v], Ok(v));
    assert rows[2 := v][1].email == rows[2 := v][2].email;
  }

  /** The address of the example above, normalised. */
  lemma NormalizeSample()
    ensures NormalizeEmail("B@x.com") == "b@x.com"
  {
    var e := "B@x.com";
    StripUnchanged(e);
    assert Lower(e) == "b@x.com";
  }

  /** With the check on the normalised address, update keeps emails unique. */
  lemma UpdateUserCheckedKeepsEmailsUnique(rows: map<Uuid, UserRow>, userId: Uuid, data: UserUpdate)
    requires EmailsUnique(rows)
    ensures EmailsUnique(UpdateUserStepChecked(rows, userId, data).rows)
  {
    if userId in rows {
      var u := rows[userId];
      if EmailChanges(u, data) && !HeldByOther(rows, NormalizeEmail(data.email), userId) {
        var s := UpdateUserStepChecked(rows, userId, data);
        forall a, b | a in s.rows && b in s.rows && a != b
          ensures s.rows[a].email != s.rows[b].email
        {
          if a == userId {
            assert !(b in rows && b != userId && rows[b].email == NormalizeEmail(data.email));
          } else if b == userId {
            assert !(a in rows && a != userId && rows[a].email == NormalizeEmail(data.email));
          }
        }
      }
    }
  }

  // ---------------------------------------------------------------- delete

  /** Delete refuses an unknown id; otherwise it removes exactly that user and reports true. */
  lemma DeleteUserRemovesExactlyOne(rows: map<Uuid, UserRow>, userId: Uuid)
    ensures var s := DeleteUserStep(rows, userId);
      && (userId !in rows ==> s == Step(rows, Err(ValueError, UserMissing)))
      && (userId in rows ==>
            s.result == Ok(true) && s.rows.Keys == rows.Keys - {userId}
            && forall id :: id in s.rows ==> s.rows[id] == rows[id])
  {
  }

  lemma DeleteUserKeepsEmailsUnique(rows: map<Uuid, UserRow>, userId: Uuid)
    requires EmailsUnique(rows)
    ensures EmailsUnique(DeleteUserStep(rows, userId).rows)
  {
  }

  // ---------------------------------------------------------------- the service

  /** The returned entity carries the row of the step's result, or the same exception is raised. */
  ghost predicate Agrees(r: Result<User>, s: Result<UserRow>)
    reads if r.Ok? then {r.value} else {}
  {
    match r
    case Ok(u) => s.Ok? && u.Row() == s.value
    case Err(k, m) => s == Err(k, m)
  }

  class UserService {
    const repo: UserRepository

    constructor (repo: UserRepository)
      ensures this.repo == repo
    {
      this.repo := repo;
    }

    /** `get_user_by_id`. */
    method GetUserById(userId: Uuid) returns (u: User?)
      ensures u == null <==> userId !in repo.rows
      ensures u != null ==> fresh(u) && u.Row() == repo.rows[userId]
    {
      u := repo.GetById(userId);
    }

    /** `get_user_by_email`. */
    method GetUserByEmail(email: string) returns (u: User?)
      requires repo.Valid()
      ensures u == null <==> EmailAbsent(repo.rows, email)
      ensures u != null ==> fresh(u) && u.id in repo.rows && repo.rows[u.id] == u.Row() && u.email == email
    {
      u := repo.GetByEmail(email);
    }

    /** `get_user_by_auth_id`. */
    method GetUserByAuthId(authId: Uuid) returns (u: User?)
      requires repo.Valid()
      ensures u == null <==> forall id :: id in repo.rows ==> repo.rows[id].authId != Some(authId)
      ensures u != null ==> fresh(u) && u.id in repo.rows && repo.rows[u.id] == u.Row() && u.authId == Some(authId)
    {
      u := repo.GetByAuthId(authId);
    }

    /** `create_user`; `newId` is the id `uuid4` draws, which no stored user has. */
    method CreateUser(data: UserCreate, newId: Uuid) returns (r: Result<User>)
      requires repo.Valid() && newId !in repo.rows
      modifies repo
      ensures repo.Valid()
      ensures var s := CreateUserStep(old(repo.rows), data, newId);
        repo.rows == s.rows && Agrees(r, s.result) && (r.Ok? ==> fresh(r.value))
    {
      var existing := repo.GetByEmail(data.email);
      if existing != null {
        r := Err(ValueError, DuplicateEmail);
        return;
      }
      var user := new User(newId, data.names, data.lastnames, data.email, data.roleId, data.areaId, Some(data.authId));
      var created := repo.Create(user);
      r := Ok(created);
    }

    /** `update_user`, as written (see `UpdateUserStep`). */
    method UpdateUser(userId: Uuid, data: UserUpdate) returns (r: Result<User>)
      requires repo.Valid()
      modifies repo
      ensures repo.Valid()
      ensures var s := UpdateUserStep(old(repo.rows), userId, data);
        repo.rows == s.rows && Agrees(r, s.result) && (r.Ok? ==> fresh(r.value))
    {
      ghost var rows := repo.rows;
      var existing := repo.GetById(userId);
      if existing == null {
        r := Err(ValueError, UserMissing);
        return;
      }
      ghost var u := repo.rows[userId];
      ghost var email := u.email;
      if data.email != "" && data.email != existing.email {
        var dup := repo.GetByEmail(data.email);
        if dup != null && dup.id != userId {
          assert HeldByOther(repo.rows, data.email, userId) by {
            assert repo.rows[dup.id].email == data.email;
          }
          assert UpdateUserStep(rows, userId, data) == Step(rows, Err(ValueError, EmailInUse));
          r := Err(ValueError, EmailInUse);
          return;
        }
        assert !HeldByOther(repo.rows, data.email, userId);
        existing.ChangeEmail(data.email);
        email := NormalizeEmail(data.email);
      }
      if data.names != "" {
        existing.names := data.names;
      }
      if data.lastnames != "" {
        existing.lastnames := data.lastnames;
      }
      // A UUID is always truthy, so role and area are always taken from the request.
      existing.roleId := data.roleId;
      existing.areaId := data.areaId;
      assert existing.Row() == Overwrite(u, data, email);
      assert UpdateUserStep(rows, userId, data) == Step(rows[userId := existing.Row()], Ok(existing.Row()));
      var updated := repo.Update(existing);
      r := Ok(updated);
    }

    /** `delete_user`: the repository's answer once the user is known to exist. */
    method DeleteUser(userId: Uuid) returns (r: Result<bool>)
      requires repo.Valid()
      modifies repo
      ensures repo.Valid()
      ensures var s := DeleteUserStep(old(repo.rows), userId); repo.rows == s.rows && r == s.result
    {
      var existing := repo.GetById(userId);
      if existing == null {
        r := Err(ValueError, UserMissing);
        return;
      }
      var removed := repo.Delete(userId);
      r := Ok(removed);
    }

    /** `get_users_by_role`. */
    method GetUsersByRole(roleId: Uuid) returns (users: seq<User>)
      requires repo.Valid()
      ensures forall i :: 0 <= i < |users| ==> fresh(users[i])
      ensures forall i :: 0 <= i < |users| ==> users[i].id in repo.rows && repo.rows[users[i].id] == users[i].Row()
      ensures forall i, j :: 0 <= i < j < |users| ==> users[i].id != users[j].id
      ensures (set r | r in RowsOf(users)) == (set id | id in repo.rows && repo.rows[id].roleId == roleId :: repo.rows[id])
    {
      users := repo.GetUsersByRole(roleId);
    }

    /** `get_users_by_area`. */
    method GetUsersByArea(areaId: Uuid) returns (users: seq<User>)
      requires repo.Valid()
      ensures forall i :: 0 <= i < |users| ==> fresh(users[i])
      ensures forall i :: 0 <= i < |users| ==> users[i].id in repo.rows && repo.rows[users[i].id] == users[i].Row()
      ensures forall i, j :: 0 <= i < j < |users| ==> users[i].id != users[j].id
      ensures (set r | r in RowsOf(users)) == (set id | id in repo.rows && repo.rows[id].areaId == areaId :: repo.rows[id])
    {
      users := repo.GetUsersByArea(areaId);
    }
  }
}

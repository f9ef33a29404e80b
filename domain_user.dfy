/**
 * The `User` domain entity: seven fields and one domain rule,
 * `change_email`, which stores the new address stripped and lower-cased.
 */
module Domain {
  import opened Wrappers
  import opened Text

  /** A UUID. The model only ever compares them for equality. */
  type Uuid = nat

  /** The seven fields of a user as a value: what the repository stores and reads back. */
  datatype UserRow = UserRow(
    id: Uuid,
    names: string,
    lastnames: string,
    email: string,
    roleId: Uuid,
    areaId: Uuid,
    authId: Option<Uuid>)

  /**
   * The normalisation of `change_email`, `e.strip().lower()`: the result has
   * no whitespace at either end and no upper-case letter, and is the
   * lower-cased interior of `e` between two runs of whitespace.
   */
  function NormalizeEmail(e: string): (r: string)
    ensures NoAsciiUpper(r)
    ensures r != [] ==> !IsSpace(r[0]) && !IsSpace(r[|r| - 1])
    ensures exists t :: TrimmedFrom(t, e) && r == Lower(t)
  {
    Lower(Strip(e))
  }

  /** Normalising an already normalised address changes nothing. */
  lemma NormalizeEmailIdempotent(e: string)
    ensures NormalizeEmail(NormalizeEmail(e)) == NormalizeEmail(e)
  {
    var n := NormalizeEmail(e);
    StripUnchanged(n);
    LowerIdempotent(Strip(e));
  }

  /** The domain entity; the service changes its fields in place before writing it back. */
  class User {
    var id: Uuid
    var names: string
    var lastnames: string
    var email: string
    var roleId: Uuid
    var areaId: Uuid
    var authId: Option<Uuid>

    /** The dataclass constructor; `auth_id` may be omitted and is then absent. */
    constructor (id: Uuid, names: string, lastnames: string, email: string,
                 roleId: Uuid, areaId: Uuid, authId: Option<Uuid> := None)
      ensures Row() == UserRow(id, names, lastnames, email, roleId, areaId, authId)
    {
      this.id := id;
      this.names := names;
      this.lastnames := lastnames;
      this.email := email;
      this.roleId := roleId;
      this.areaId := areaId;
      this.authId := authId;
    }

    /** The entity's current field values (its `__dict__`). */
    function Row(): UserRow
      reads this
    {
      UserRow(id, names, lastnames, email, roleId, areaId, authId)
    }

    /** `change_email`: only the email changes, to the normalised new address. */
    method ChangeEmail(newEmail: string)
      modifies this
      ensures Row() == old(Row()).(email := NormalizeEmail(newEmail))
    {
      email := NormalizeEmail(newEmail);
    }
  }

  /** A `User` built without an `auth_id` has none. */
  method NewUserWithoutAuthId(id: Uuid, names: string, lastnames: string, email: string,
                              roleId: Uuid, areaId: Uuid)
    returns (authId: Option<Uuid>)
    ensures authId == None
  {
    var u := new User(id, names, lastnames, email, roleId, areaId);
    authId := u.authId;
  }
}

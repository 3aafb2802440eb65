/**
 * The account model: the `User` record, its password operations, and the
 * `users` table with its primary key and its two unique columns.
 *
 * A `User` object built by the application is a class whose fields
 * `set_password` and the insert update in place. What the table holds is a
 * `UserRow` value per committed account; `UserTable.Commit` is the insert
 * that turns an object into a row.
 */
module UserModel {
  import opened Wrappers
  import opened Passwords

  /** A committed account, as the `users` table stores it. */
  datatype UserRow = UserRow(
    id: int,
    username: string,
    email: string,
    passwordHash: PasswordHash,
    createdAt: int,
    isActive: bool)
  {
    /**
     * check_password on a stored account: the stored hash verifies `password`
     * exactly when it is the hash of `password` under the salt it embeds.
     */
    function CheckPassword(password: string): (ok: bool)
      ensures ok <==> passwordHash == GeneratePasswordHash(password, passwordHash.salt)
    {
      CheckPasswordHash(passwordHash, password)
    }
  }

  /** The two unique, indexed text columns that `filter_by` looks up. */
  datatype Column = Username | Email

  function Key(u: UserRow, column: Column): string {
    match column
    case Username => u.username
    case Email => u.email
  }

  /**
   * The table's integrity constraints: the primary key and both unique
   * columns hold pairwise distinct values.
   */
  predicate Unique(rows: seq<UserRow>) {
    forall i, j :: 0 <= i < j < |rows| ==>
      && rows[i].id != rows[j].id
      && rows[i].username != rows[j].username
      && rows[i].email != rows[j].email
  }

  /** The constraints, plus every key lies below the next key to assign. */
  predicate WellFormed(rows: seq<UserRow>, nextId: int) {
    && Unique(rows)
    && 1 <= nextId
    && forall i :: 0 <= i < |rows| ==> 1 <= rows[i].id < nextId
  }

  /** `User.query.filter_by(<column>=value).first()`: the first row holding `value`. */
  function FindBy(rows: seq<UserRow>, column: Column, value: string): (r: Option<UserRow>)
    ensures r.Some? ==> r.value in rows && Key(r.value, column) == value
    ensures r.None? ==> forall u :: u in rows ==> Key(u, column) != value
  {
    if rows == [] then None
    else if Key(rows[0], column) == value then Some(rows[0])
    else FindBy(rows[1..], column, value)
  }

  /** load_user: `User.query.get(id)`, the row whose primary key is `id`. */
  function LoadUser(rows: seq<UserRow>, id: int): (r: Option<UserRow>)
    ensures r.Some? ==> r.value in rows && r.value.id == id
    ensures r.None? ==> forall u :: u in rows ==> u.id != id
  {
    if rows == [] then None
    else if rows[0].id == id then Some(rows[0])
    else LoadUser(rows[1..], id)
  }

  /** In a table that keeps its constraints, looking up a row's own key finds that row. */
  lemma FindByUniqueKey(rows: seq<UserRow>, u: UserRow, column: Column)
    requires Unique(rows)
    requires u in rows
    ensures FindBy(rows, column, Key(u, column)) == Some(u)
  {
  }

  /** In a table that keeps its constraints, load_user of a row's id finds that row. */
  lemma LoadUserFindsRow(rows: seq<UserRow>, u: UserRow)
    requires Unique(rows)
    requires u in rows
    ensures LoadUser(rows, u.id) == Some(u)
  {
  }

  /**
   * Appending a row whose username and email are not taken, under the next
   * key, keeps the table's constraints.
   */
  lemma AppendKeepsWellFormed(rows: seq<UserRow>, nextId: int, row: UserRow)
    requires WellFormed(rows, nextId)
    requires FindBy(rows, Username, row.username).None?
    requires FindBy(rows, Email, row.email).None?
    requires row.id == nextId
    ensures WellFormed(rows + [row], nextId + 1)
  {
    var rows' := rows + [row];
    forall i, j | 0 <= i < j < |rows'|
      ensures rows'[i].id != rows'[j].id
      ensures rows'[i].username != rows'[j].username
      ensures rows'[i].email != rows'[j].email
    {
      if j == |rows| {
        assert rows'[i] == rows[i] && rows[i] in rows;
        assert Key(rows[i], Username) != row.username;
        assert Key(rows[i], Email) != row.email;
      }
    }
  }

  /**
   * An account object as the application builds it. The columns that the
   * database fills in on insert (the key, the creation time and, through its
   * column default, the active flag) and the hash that `set_password` fills
   * in are `None` until then.
   */
  class User {
    var id: Option<int>
    var username: string
    var email: string
    var passwordHash: Option<PasswordHash>
    var createdAt: Option<int>
    var isActive: Option<bool>

    /** `User(username=..., email=...)`. */
    constructor (username: string, email: string)
      ensures this.username == username && this.email == email
      ensures id == None && passwordHash == None
      ensures createdAt == None && isActive == None
    {
      this.id := None;
      this.username := username;
      this.email := email;
      this.passwordHash := None;
      this.createdAt := None;
      this.isActive := None;
    }

    /**
     * set_password: store the hash of `password` under `salt`; no other
     * field changes, and the password now checks.
     */
    method SetPassword(password: string, salt: string)
      modifies this`passwordHash
      ensures passwordHash == Some(GeneratePasswordHash(password, salt))
      ensures id == old(id) && username == old(username) && email == old(email)
      ensures createdAt == old(createdAt) && isActive == old(isActive)
      ensures CheckPassword(password)
    {
      passwordHash := Some(GeneratePasswordHash(password, salt));
    }

    /**
     * check_password on the object: the hash it holds verifies `password`
     * exactly when it is the hash of `password` under the salt it embeds. It
     * reads the object and changes nothing.
     */
    function CheckPassword(password: string): (ok: bool)
      reads this
      requires passwordHash.Some?
      ensures ok <==> passwordHash.value == GeneratePasswordHash(password, passwordHash.value.salt)
    {
      CheckPasswordHash(passwordHash.value, password)
    }
  }

  /** The `users` table: its committed rows and the next primary key to assign. */
  class UserTable {
    var rows: seq<UserRow>
    var nextId: int

    ghost predicate Valid()
      reads this
    {
      WellFormed(rows, nextId)
    }

    constructor ()
      ensures Valid() && rows == [] && nextId == 1
    {
      rows := [];
      nextId := 1;
    }

    /**
     * `db.session.add(user)` then `db.session.commit()`. The insert applies
     * the column defaults (`is_active` true, `created_at` the clock reading
     * `now`), assigns the next key, and enforces NOT NULL on the hash and
     * UNIQUE on username and email. `failure` stands for every other reason
     * the commit may raise. On any failure the session rolls back: the table
     * and the object are as before.
     */
    method Commit(user: User, now: int, failure: bool) returns (ok: bool)
      requires Valid()
      requires user.id == None
      modifies this, user`id, user`createdAt, user`isActive
      ensures Valid()
      ensures ok <==>
        && !failure
        && old(user.passwordHash).Some?
        && FindBy(old(rows), Username, user.username).None?
        && FindBy(old(rows), Email, user.email).None?
      ensures ok ==>
        && rows == old(rows) + [UserRow(old(nextId), user.username, user.email,
                                        user.passwordHash.value, now,
                                        old(user.isActive).GetOr(true))]
        && nextId == old(nextId) + 1
        && user.id == Some(old(nextId))
        && user.createdAt == Some(now)
        && user.isActive == Some(old(user.isActive).GetOr(true))
      ensures !ok ==> rows == old(rows) && nextId == old(nextId)
      ensures !ok ==> user.id == old(user.id) && user.createdAt == old(user.createdAt)
                      && user.isActive == old(user.isActive)
    {
      if failure || user.passwordHash.None?
         || FindBy(rows, Username, user.username).Some?
         || FindBy(rows, Email, user.email).Some?
      {
        return false;
      }
      var active := user.isActive.GetOr(true);
      var row := UserRow(nextId, user.username, user.email, user.passwordHash.value, now, active);
      AppendKeepsWellFormed(rows, nextId, row);
      rows := rows + [row];
      user.id, user.createdAt, user.isActive := Some(nextId), Some(now), Some(active);
      nextId := nextId + 1;
      ok := true;
    }
  }
}

/**
 * The authentication routes: the login decision, registration, and the
 * session that login establishes and logout ends.
 *
 * Login only reads the table, so it is a function of the committed rows.
 * Registration changes the table, so it is a method over `UserTable`.
 * Form fields are what `request.form.get` returns: `None` when the field is
 * absent. A field is treated as missing when it is `None` or empty, as
 * Python's `not field` does.
 */
module Auth {
  import opened Wrappers
  import opened Passwords
  import opened UserModel
  import opened EmailPattern

  /** The field was submitted and is not empty. */
  predicate Filled(field: Option<string>) {
    field.Some? && field.value != ""
  }

  datatype LoginOutcome =
    | InvalidInput                  // a field is missing
    | InvalidCredentials            // no such account, or the password does not check
    | AccountDisabled               // the password checks but the account is inactive
    | Authenticated(user: UserRow)  // login_user is called for this account

  /** The column a login identifier is looked up in. */
  function LookupColumn(identifier: string): Column {
    if MatchesEmailRegex(identifier) then Email else Username
  }

  /**
   * `u` is the account that `identifier` names: by email when the identifier
   * matches the email pattern, by username otherwise.
   */
  predicate Identifies(identifier: string, u: UserRow) {
    if MatchesEmailRegex(identifier) then u.email == identifier else u.username == identifier
  }

  /**
   * The POST branch of `login`: missing fields are rejected before any
   * lookup; the identifier is looked up by email or by username; the
   * password is checked; and the active flag is consulted only once the
   * password has checked.
   */
  function Login(rows: seq<UserRow>, identifier: Option<string>, password: Option<string>): (r: LoginOutcome)
    ensures !Filled(identifier) || !Filled(password) ==> r == InvalidInput
    ensures r.Authenticated? ==>
      && Filled(identifier) && Filled(password)
      && r.user in rows
      && Identifies(identifier.value, r.user)
      && r.user.CheckPassword(password.value)
      && r.user.isActive
    ensures r.AccountDisabled? ==>
      && Filled(identifier) && Filled(password)
      && exists u :: u in rows && Identifies(identifier.value, u) && u.CheckPassword(password.value) && !u.isActive
  {
    if !Filled(identifier) || !Filled(password) then InvalidInput
    else
      var user := FindBy(rows, LookupColumn(identifier.value), identifier.value);
      if user.Some? && user.value.CheckPassword(password.value) then
        if user.value.isActive then Authenticated(user.value) else AccountDisabled
      else InvalidCredentials
  }

  /**
   * Non-enumeration: an identifier that names no account and a known one
   * given a wrong password produce the same outcome.
   */
  lemma NoAccountOrWrongPassword(rows: seq<UserRow>, identifier: Option<string>, password: Option<string>)
    requires Filled(identifier) && Filled(password)
    requires forall u :: u in rows && Identifies(identifier.value, u) ==> !u.CheckPassword(password.value)
    ensures Login(rows, identifier, password) == InvalidCredentials
  {
  }

  /**
   * Over a table that keeps its constraints, InvalidCredentials is returned
   * exactly when no account the identifier names accepts the password.
   */
  lemma InvalidCredentialsExactly(rows: seq<UserRow>, identifier: Option<string>, password: Option<string>)
    requires Unique(rows)
    ensures Login(rows, identifier, password) == InvalidCredentials <==>
      && Filled(identifier) && Filled(password)
      && forall u :: u in rows && Identifies(identifier.value, u) ==> !u.CheckPassword(password.value)
  {
    if Login(rows, identifier, password) == InvalidCredentials {
      forall u | u in rows && Identifies(identifier.value, u)
        ensures !u.CheckPassword(password.value)
      {
        FindByUniqueKey(rows, u, LookupColumn(identifier.value));
      }
    }
  }

  /**
   * Over a table that keeps its constraints, AccountDisabled is returned
   * exactly when the account the identifier names is inactive and the
   * password checks: a disabled account is disclosed only to a caller who
   * knows its password.
   */
  lemma DisabledOnlyAfterPassword(rows: seq<UserRow>, identifier: Option<string>, password: Option<string>)
    requires Unique(rows)
    ensures Login(rows, identifier, password) == AccountDisabled <==>
      && Filled(identifier) && Filled(password)
      && exists u :: u in rows && Identifies(identifier.value, u) && u.CheckPassword(password.value) && !u.isActive
  {
    if Filled(identifier) && Filled(password) {
      if u :| u in rows && Identifies(identifier.value, u) && u.CheckPassword(password.value) && !u.isActive {
        FindByUniqueKey(rows, u, LookupColumn(identifier.value));
      }
    }
  }

  /**
   * Over a table that keeps its constraints, login authenticates an account
   * exactly when the identifier names it, the password checks and the
   * account is active.
   */
  lemma AuthenticatesExactly(rows: seq<UserRow>, identifier: Option<string>, password: Option<string>, u: UserRow)
    requires Unique(rows)
    requires u in rows
    ensures Login(rows, identifier, password) == Authenticated(u) <==>
      && Filled(identifier) && Filled(password)
      && Identifies(identifier.value, u)
      && u.CheckPassword(password.value)
      && u.isActive
  {
    if Filled(identifier) && Filled(password) && Identifies(identifier.value, u) {
      FindByUniqueKey(rows, u, LookupColumn(identifier.value));
    }
  }

  /**
   * An account whose username matches the email pattern cannot sign in with
   * that username: such an identifier is looked up by email only.
   */
  lemma EmailShapedUsernameUnusable(rows: seq<UserRow>, u: UserRow, password: Option<string>)
    requires MatchesEmailRegex(u.username)
    requires u.email != u.username
    ensures Login(rows, Some(u.username), password) != Authenticated(u)
  {
  }

  /**
   * An active account whose password is `password` signs in both by its
   * username (unless that looks like an email address) and by its email
   * (when that looks like one).
   */
  lemma StoredAccountSignsIn(rows: seq<UserRow>, u: UserRow, password: string)
    requires Unique(rows)
    requires u in rows && u.isActive && u.CheckPassword(password)
    requires password != ""
    ensures u.username != "" && !MatchesEmailRegex(u.username) ==>
      Login(rows, Some(u.username), Some(password)) == Authenticated(u)
    ensures MatchesEmailRegex(u.email) ==>
      Login(rows, Some(u.email), Some(password)) == Authenticated(u)
  {
    AuthenticatesExactly(rows, Some(u.username), Some(password), u);
    if MatchesEmailRegex(u.email) {
      assert u.email != "";
      AuthenticatesExactly(rows, Some(u.email), Some(password), u);
    }
  }

  /** The session Flask-Login keeps: the signed-in account's key and the "remember me" flag. */
  datatype Session = Anonymous | SignedIn(userId: int, remember: bool)

  /**
   * `login_user(user, remember=remember)` on a successful login; any other
   * outcome leaves the session as it was.
   */
  function SessionAfterLogin(outcome: LoginOutcome, current: Session, remember: bool): (s: Session)
    ensures s != current ==> outcome.Authenticated?
  {
    match outcome
    case Authenticated(user) => SignedIn(user.id, remember)
    case _ => current
  }

  /**
   * After a successful login, the session's key loads back the account that
   * signed in (load_user is what the session layer calls on each request),
   * and the remember flag is passed through untouched.
   */
  lemma SignedInSessionLoadsAccount(rows: seq<UserRow>, identifier: Option<string>, password: Option<string>,
                                    current: Session, remember: bool)
    requires Unique(rows)
    requires Login(rows, identifier, password).Authenticated?
    ensures SessionAfterLogin(Login(rows, identifier, password), current, remember).SignedIn?
    ensures SessionAfterLogin(Login(rows, identifier, password), current, remember).remember == remember
    ensures LoadUser(rows, SessionAfterLogin(Login(rows, identifier, password), current, remember).userId)
            == Some(Login(rows, identifier, password).user)
  {
    LoadUserFindsRow(rows, Login(rows, identifier, password).user);
  }

  /**
   * `logout`: behind `login_required`, which lets only a signed-in session
   * through; `logout_user` then ends it. The table is not involved.
   */
  function Logout(session: Session): (s: Session)
    ensures !s.SignedIn?
  {
    match session
    case Anonymous => session
    case SignedIn(_, _) => Anonymous
  }

  datatype RegisterOutcome =
    | MissingFields
    | PasswordMismatch
    | UsernameTaken
    | EmailTaken
    | Registered(id: int)
    | CommitFailed

  predicate AllFilled(username: Option<string>, email: Option<string>,
                      password: Option<string>, confirmPassword: Option<string>)
  {
    Filled(username) && Filled(email) && Filled(password) && Filled(confirmPassword)
  }

  /**
   * The POST branch of `register`. The checks run in a fixed order (missing
   * field, password mismatch, username taken, email taken), each rejection
   * leaving the table as it was; the email is not checked against the email
   * pattern. Then a `User` is built, its password is set with `salt`, and it
   * is committed at clock reading `now`; `commitFails` says whether the
   * commit raises, in which case the session rolls back.
   */
  method Register(table: UserTable, username: Option<string>, email: Option<string>,
                  password: Option<string>, confirmPassword: Option<string>,
                  salt: string, now: int, commitFails: bool)
    returns (r: RegisterOutcome)
    requires table.Valid()
    modifies table
    ensures table.Valid()
    ensures r == MissingFields <==> !AllFilled(username, email, password, confirmPassword)
    ensures r == PasswordMismatch <==>
      AllFilled(username, email, password, confirmPassword) && password.value != confirmPassword.value
    ensures r == UsernameTaken <==>
      && AllFilled(username, email, password, confirmPassword) && password.value == confirmPassword.value
      && FindBy(old(table.rows), Username, username.value).Some?
    ensures r == EmailTaken <==>
      && AllFilled(username, email, password, confirmPassword) && password.value == confirmPassword.value
      && FindBy(old(table.rows), Username, username.value).None?
      && FindBy(old(table.rows), Email, email.value).Some?
    ensures r == CommitFailed <==>
      && AllFilled(username, email, password, confirmPassword) && password.value == confirmPassword.value
      && FindBy(old(table.rows), Username, username.value).None?
      && FindBy(old(table.rows), Email, email.value).None?
      && commitFails
    ensures !r.Registered? ==> table.rows == old(table.rows) && table.nextId == old(table.nextId)
    ensures r.Registered? ==>
      && r.id == old(table.nextId)
      && table.nextId == old(table.nextId) + 1
      && table.rows == old(table.rows) + [UserRow(r.id, username.value, email.value,
                                                  GeneratePasswordHash(password.value, salt), now, true)]
    ensures r.Registered? ==>
      && table.rows[|table.rows| - 1].CheckPassword(password.value)
      && table.rows[|table.rows| - 1].isActive
  {
    if !AllFilled(username, email, password, confirmPassword) {
      return MissingFields;
    }
    if password.value != confirmPassword.value {
      return PasswordMismatch;
    }
    if FindBy(table.rows, Username, username.value).Some? {
      return UsernameTaken;
    }
    if FindBy(table.rows, Email, email.value).Some? {
      return EmailTaken;
    }
    var newUser := new User(username.value, email.value);
    newUser.SetPassword(password.value, salt);
    var id := table.nextId;
    var ok := table.Commit(newUser, now, commitFails);
    if ok {
      r := Registered(id);
    } else {
      r := CommitFailed;
    }
  }

  /** The email that alice registers with is classified as an email; her username is not. */
  lemma AliceIdentifiersClassified()
    ensures MatchesEmailRegex("alice@example.com")
    ensures !MatchesEmailRegex("alice")
  {
    NoAtIsNotEmail("alice");
    var email := "alice@example.com";
    assert email[..5] == "alice" && email[6..13] == "example" && email[14..] == "com";
    assert SplitsAsEmail(email, 5, 13);
  }

  /**
   * Registering alice, registering her username again, and signing in by
   * username and by email.
   */
  method AliceSignsIn()
    returns (first: RegisterOutcome, again: RegisterOutcome, byName: LoginOutcome, byEmail: LoginOutcome)
    ensures first.Registered? && again == UsernameTaken
    ensures byName.Authenticated? && byName.user.username == "alice"
    ensures byEmail == byName
  {
    var table := new UserTable();
    first := Register(table, Some("alice"), Some("alice@example.com"), Some("Secr3t!"), Some("Secr3t!"),
                      "salt-1", 0, false);
    var u := table.rows[0];
    assert table.rows == [u] && u.username == "alice" && u.email == "alice@example.com";
    assert u.CheckPassword("Secr3t!") && u.isActive;
    assert FindBy(table.rows, Username, "alice") == Some(u);
    again := Register(table, Some("alice"), Some("alice2@example.com"), Some("other"), Some("other"),
                      "salt-2", 1, false);
    assert table.rows == [u];
    AliceIdentifiersClassified();
    StoredAccountSignsIn(table.rows, u, "Secr3t!");
    byName := Login(table.rows, Some("alice"), Some("Secr3t!"));
    byEmail := Login(table.rows, Some("alice@example.com"), Some("Secr3t!"));
  }
}

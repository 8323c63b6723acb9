/**
 * The account resolvers of src/resolvers/user.ts: `login`, `githubLogin`,
 * `me` and `register`, as steps on a user table and on the session slot
 * `req.session.userId`. The identity provider (email sign-in, email sign-up
 * and the GitHub exchange) is a function parameter: any answer it gives is
 * allowed, and the contracts hold for every one.
 */
module UserResolver {
  import opened Wrappers
  import opened UserUtilities

  /** A row of the `user` table; `githubLogin` is the column the GitHub resolver looks up. */
  datatype User = User(id: int, userId: string, username: string, email: string, githubLogin: Option<string>)

  /** What the identity provider reports back. */
  datatype AuthUser = AuthUser(id: string)
  datatype AuthSession = AuthSession(accessToken: string, refreshToken: string)
  datatype AuthError = AuthError(message: string)
  datatype AuthResult = AuthResult(user: Option<AuthUser>, session: Option<AuthSession>, error: Option<AuthError>)

  /** The GitHub exchange reports the GitHub login name beside the sign-in result. */
  datatype GithubResult = GithubResult(login: string, auth: AuthResult)

  /** `UserResponse`: every field is optional, as in the GraphQL object type. */
  datatype UserResponse = UserResponse(errors: Option<seq<FieldError>>, user: Option<User>, session: Option<AuthSession>)

  function Failure(errors: seq<FieldError>): UserResponse {
    UserResponse(Some(errors), None, None)
  }

  /** The pair returned both for an unknown username and for a refused sign-in. */
  const LoginErrors := [
    FieldError("username", "Please check username/email."),
    FieldError("password", "Please check username/password.")
  ]

  const NotRegisteredErrors := [FieldError("githubAccount", "Not currently registered")]

  /** `error || !user || !session`, negated: the provider accepted the credentials. */
  predicate SignedIn(a: AuthResult) {
    a.error.None? && a.user.Some? && a.session.Some?
  }

  /** `error?.message ?? ''` */
  function ErrorMessage(a: AuthResult): (m: string)
    ensures a.error.Some? ==> m == a.error.value.message
    ensures a.error.None? ==> m == ""
  {
    if a.error.Some? then a.error.value.message else ""
  }

  // ---------------------------------------------------------------------
  // The table as a value
  // ---------------------------------------------------------------------

  /**
   * What the table's constraints and its id sequence guarantee: ids are
   * positive and below the next id to be handed out, and no two rows share
   * an id, a username or an email.
   */
  ghost predicate WellFormed(rows: seq<User>, nextId: int) {
    nextId >= 1
    && (forall i :: 0 <= i < |rows| ==> 1 <= rows[i].id < nextId)
    && (forall i, j :: 0 <= i < j < |rows| ==>
          rows[i].id != rows[j].id && rows[i].username != rows[j].username && rows[i].email != rows[j].email)
  }

  function Emails(rows: seq<User>): (r: set<string>)
    ensures forall e :: e in r <==> exists i :: 0 <= i < |rows| && rows[i].email == e
  {
    set i | 0 <= i < |rows| :: rows[i].email
  }

  function Usernames(rows: seq<User>): (r: set<string>)
    ensures forall n :: n in r <==> exists i :: 0 <= i < |rows| && rows[i].username == n
  {
    set i | 0 <= i < |rows| :: rows[i].username
  }

  /** `findOne({ where: ... })`: the first row that satisfies the condition, if any. */
  function FirstWhere(rows: seq<User>, p: User -> bool): (r: Option<User>)
    ensures r.None? <==> forall i :: 0 <= i < |rows| ==> !p(rows[i])
    ensures r.Some? ==> p(r.value)
    ensures r.Some? ==> exists i :: 0 <= i < |rows| && rows[i] == r.value && forall k :: 0 <= k < i ==> !p(rows[k])
  {
    if rows == [] then None
    else if p(rows[0]) then Some(rows[0])
    else
      var r := FirstWhere(rows[1..], p);
      assert r.Some? ==> exists i :: 0 <= i < |rows[1..]| && rows[1..][i] == r.value
                                     && forall k :: 0 <= k < i ==> !p(rows[1..][k]);
      if r.Some? then
        var i :| 0 <= i < |rows[1..]| && rows[1..][i] == r.value && forall k :: 0 <= k < i ==> !p(rows[1..][k]);
        assert rows[i + 1] == r.value && forall k :: 0 <= k < i + 1 ==> !p(rows[k]);
        r
      else r
  }

  /** `User.findOne({ where: { username } })` */
  function FindByUsername(rows: seq<User>, username: string): (r: Option<User>)
    ensures r.None? <==> forall i :: 0 <= i < |rows| ==> rows[i].username != username
    ensures r.Some? ==> r.value in rows && r.value.username == username
  {
    FirstWhere(rows, (u: User) => u.username == username)
  }

  /** `User.findOne(id)` */
  function FindById(rows: seq<User>, id: int): (r: Option<User>)
    ensures r.None? <==> forall i :: 0 <= i < |rows| ==> rows[i].id != id
    ensures r.Some? ==> r.value in rows && r.value.id == id
  {
    FirstWhere(rows, (u: User) => u.id == id)
  }

  /** `User.findOne({ where: { githubLogin: login } })` */
  function FindByGithubLogin(rows: seq<User>, login: string): (r: Option<User>)
    ensures r.None? <==> forall i :: 0 <= i < |rows| ==> rows[i].githubLogin != Some(login)
    ensures r.Some? ==> r.value in rows && r.value.githubLogin == Some(login)
  {
    FirstWhere(rows, (u: User) => u.githubLogin == Some(login))
  }

  /** In a well-formed table a lookup by a unique column finds exactly the row that has the value. */
  lemma FindUnique(rows: seq<User>, nextId: int, u: User)
    requires WellFormed(rows, nextId) && u in rows
    ensures FindById(rows, u.id) == Some(u)
    ensures FindByUsername(rows, u.username) == Some(u)
  {
    var j :| 0 <= j < |rows| && rows[j] == u;
    var r := FindById(rows, u.id);
    var i :| 0 <= i < |rows| && rows[i] == r.value && forall k :: 0 <= k < i ==> rows[k].id != u.id;
    assert i == j;
    var r2 := FindByUsername(rows, u.username);
    var i2 :| 0 <= i2 < |rows| && rows[i2] == r2.value && forall k :: 0 <= k < i2 ==> rows[k].username != u.username;
    assert i2 == j;
  }

  /** Appending a row with a fresh id, username and email keeps the table well formed. */
  lemma AppendFresh(rows: seq<User>, nextId: int, u: User)
    requires WellFormed(rows, nextId)
    requires u.id == nextId && u.username !in Usernames(rows) && u.email !in Emails(rows)
    ensures WellFormed(rows + [u], nextId + 1)
  {
    var rows' := rows + [u];
    forall i, j | 0 <= i < j < |rows'|
      ensures rows'[i].id != rows'[j].id && rows'[i].username != rows'[j].username && rows'[i].email != rows'[j].email
    {
      if j == |rows| {
        assert rows'[i] == rows[i];
      }
    }
  }

  // ---------------------------------------------------------------------
  // The mutable state
  // ---------------------------------------------------------------------

  class UserTable {
    var rows: seq<User>
    var nextId: int

    ghost predicate Valid()
      reads this
    {
      WellFormed(rows, nextId)
    }

    constructor ()
      ensures Valid() && rows == [] && nextId == 1
    {
      rows := [];
      nextId := 1;
    }

    /** `User.create({ userId, email, username }).save()`: the new row gets the next id. */
    method Insert(userId: string, email: string, username: string) returns (u: User)
      requires Valid() && email !in Emails(rows) && username !in Usernames(rows)
      modifies this
      ensures Valid()
      ensures u == User(old(nextId), userId, username, email, None)
      ensures rows == old(rows) + [u] && nextId == old(nextId) + 1
    {
      u := User(nextId, userId, username, email, None);
      AppendFresh(rows, nextId, u);
      rows := rows + [u];
      nextId := nextId + 1;
    }
  }

  /** `req.session`: only the `userId` slot is modelled. */
  class Session {
    var userId: Option<int>

    constructor ()
      ensures userId == None
    {
      userId := None;
    }
  }

  /** A signed-in session names a user of the table. */
  ghost predicate SessionNamesUser(users: UserTable, session: Session)
    reads users, session
  {
    session.userId.Some? ==> exists i :: 0 <= i < |users.rows| && users.rows[i].id == session.userId.value
  }

  // ---------------------------------------------------------------------
  // The resolvers
  // ---------------------------------------------------------------------

  /**
   * `login`: the username format first, then the lookup, then the provider.
   * The session is written only when all three pass, and then with the id
   * of the row found.
   */
  method Login(users: UserTable, session: Session, username: string, password: string,
               signIn: (string, string) -> AuthResult) returns (r: UserResponse)
    modifies session
    ensures ValidLoginUsername(username).Rejected? ==>
              r == Failure(ValidLoginUsername(username).errors) && session.userId == old(session.userId)
    ensures ValidLoginUsername(username).Accepted? && FindByUsername(users.rows, username).None? ==>
              r == Failure(LoginErrors) && session.userId == old(session.userId)
    ensures ValidLoginUsername(username).Accepted? && FindByUsername(users.rows, username).Some? ==>
              var u := FindByUsername(users.rows, username).value;
              var a := signIn(u.email, password);
              if SignedIn(a) then
                r == UserResponse(None, Some(u), a.session) && session.userId == Some(u.id)
              else
                r == Failure(LoginErrors) && session.userId == old(session.userId)
    ensures SessionNamesUser(users, session) <== old(SessionNamesUser(users, session))
  {
    var check := ValidLoginUsername(username);
    if check.Rejected? {
      return Failure(check.errors);
    }
    var dbUser := FindByUsername(users.rows, username);
    if dbUser.None? {
      return Failure(LoginErrors);
    }
    var u := dbUser.value;
    var a := signIn(u.email, password);
    if !SignedIn(a) {
      return Failure(LoginErrors);
    }
    session.userId := Some(u.id);
    r := UserResponse(None, Some(u), a.session);
  }

  /**
   * `githubLogin`: the provider is asked first, but the table lookup is
   * judged first, so an unknown account is reported as such even when the
   * provider also failed.
   */
  method GithubLogin(users: UserTable, session: Session, accessToken: string, refreshToken: string,
                     exchange: (string, string) -> GithubResult) returns (r: UserResponse)
    modifies session
    ensures var g := exchange(accessToken, refreshToken);
            var dbUser := FindByGithubLogin(users.rows, g.login);
            if dbUser.None? then
              r == Failure(NotRegisteredErrors) && session.userId == old(session.userId)
            else if !SignedIn(g.auth) then
              r == Failure([FieldError("githubAccount", ErrorMessage(g.auth))]) && session.userId == old(session.userId)
            else
              r == UserResponse(None, dbUser, g.auth.session) && session.userId == Some(dbUser.value.id)
    ensures SessionNamesUser(users, session) <== old(SessionNamesUser(users, session))
  {
    var g := exchange(accessToken, refreshToken);
    var dbUser := FindByGithubLogin(users.rows, g.login);
    if dbUser.None? {
      return Failure(NotRegisteredErrors);
    }
    if !SignedIn(g.auth) {
      return Failure([FieldError("githubAccount", ErrorMessage(g.auth))]);
    }
    session.userId := Some(dbUser.value.id);
    r := UserResponse(None, dbUser, g.auth.session);
  }

  /**
   * `me`: no user for an empty session or a falsy id (0), otherwise the row
   * with that id, if there still is one.
   */
  function Me(users: UserTable, session: Session): (r: Option<User>)
    reads users, session
    ensures session.userId.None? || session.userId == Some(0) ==> r.None?
    ensures session.userId.Some? && session.userId.value != 0 ==>
              (r.Some? <==> exists i :: 0 <= i < |users.rows| && users.rows[i].id == session.userId.value)
    ensures r.Some? ==> r.value in users.rows && Some(r.value.id) == session.userId
  {
    if session.userId.None? || session.userId.value == 0 then None
    else FindById(users.rows, session.userId.value)
  }

  /**
   * `register`: the email check, then the username check, then the
   * provider's sign-up; only when all three pass is one row appended. The
   * session is not an argument: registering does not sign anybody in.
   */
  method Register(users: UserTable, email: string, password: string, username: string,
                  signUp: (string, string) -> AuthResult) returns (r: UserResponse)
    requires users.Valid()
    modifies users
    ensures users.Valid()
    ensures var emailCheck := ValidEmail(email, Emails(old(users.rows)));
            var nameCheck := ValidUsername(username, Usernames(old(users.rows)));
            var a := signUp(email, password);
            if emailCheck.Rejected? then
              r == Failure(emailCheck.errors) && unchanged(users)
            else if nameCheck.Rejected? then
              r == Failure(nameCheck.errors) && unchanged(users)
            else if a.error.Some? || a.user.None? then
              r == Failure([FieldError("password", ErrorMessage(a))]) && unchanged(users)
            else
              var u := User(old(users.nextId), a.user.value.id, username, email, None);
              r == UserResponse(None, Some(u), None)
              && users.rows == old(users.rows) + [u] && users.nextId == old(users.nextId) + 1
  {
    var emailCheck := ValidEmail(email, Emails(users.rows));
    if emailCheck.Rejected? {
      return Failure(emailCheck.errors);
    }
    var nameCheck := ValidUsername(username, Usernames(users.rows));
    if nameCheck.Rejected? {
      return Failure(nameCheck.errors);
    }
    var a := signUp(email, password);
    if a.error.Some? || a.user.None? {
      return Failure([FieldError("password", ErrorMessage(a))]);
    }
    var u := users.Insert(a.user.value.id, email, username);
    r := UserResponse(None, Some(u), None);
  }

  /** After a successful `login`, `me` returns the user who signed in. */
  method LoginThenMe(users: UserTable, session: Session, username: string, password: string,
                     signIn: (string, string) -> AuthResult) returns (r: UserResponse, me: Option<User>)
    requires users.Valid()
    modifies session
    ensures r.errors.None? ==> r.user.Some? && me == r.user
  {
    r := Login(users, session, username, password, signIn);
    if r.errors.None? {
      var u := r.user.value;
      assert u in users.rows && u.id >= 1;
      FindUnique(users.rows, users.nextId, u);
    }
    me := Me(users, session);
  }
}

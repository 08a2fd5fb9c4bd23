/** The account rules of the server: registration and login with their
    error order, the session after login and logout, the `login_required`
    and `admin_required` gates, and the user-management API with its
    self-deletion ban. The user table is a sequence of rows in id order;
    password hashing is an opaque pair of functions. */
module Auth {
  import opened Basics

  /** One row of the `user` table. */
  datatype UserRow = UserRow(id: int, username: string, passwordHash: string, isAdmin: bool)

  /** A user as the JSON API shows it: no password hash. */
  datatype UserView = UserView(id: int, username: string, isAdmin: bool)

  datatype Category = Success | Error

  /** A message queued with `flash(message, category)`. */
  datatype Flash = Flash(category: Category, message: string)

  /** The JSON bodies the routes return. */
  datatype Body =
    | Outcome(success: bool, text: string)
    | UserList(users: seq<UserView>, currentUserId: int)
    | Me(user: UserView)

  /** What a route hands back: a rendered template, a redirect to an
      endpoint, or a JSON body with its HTTP status. */
  datatype Response = Page(template: string) | Redirect(endpoint: string) | Json(status: int, body: Body)

  /** What a decorator decides: let the view run for this user, or answer
      in its place (after queueing a flash, for the admin gate). */
  datatype Gate = Pass(user: UserRow) | Deny(response: Response, flash: Option<Flash>)

  const LoginEndpoint: string := "auth.login"
  const IndexEndpoint: string := "index"
  const RegisterTemplate: string := "auth/register.html"
  const LoginTemplate: string := "auth/login.html"
  const AdminUsersTemplate: string := "admin/users.html"
  const UserIdKey: string := "user_id"

  // ---------------------------------------------------------------------
  // The user table

  /** Ids are positive and increase along the table; usernames are
      non-empty and unique. */
  predicate WellFormed(users: seq<UserRow>)
  {
    (forall i :: 0 <= i < |users| ==> users[i].id > 0 && users[i].username != []) &&
    (forall i, j :: 0 <= i < j < |users| ==> users[i].id < users[j].id && users[i].username != users[j].username)
  }

  /** `User.query.get(id)`. */
  function FindById(users: seq<UserRow>, id: int): (r: Option<UserRow>)
    ensures r.Some? ==> r.value in users && r.value.id == id
    ensures r.None? <==> forall u :: u in users ==> u.id != id
  {
    if users == [] then None
    else if users[0].id == id then Some(users[0])
    else FindById(users[1..], id)
  }

  /** `User.query.filter_by(username=name).first()`. */
  function FindByName(users: seq<UserRow>, name: string): (r: Option<UserRow>)
    ensures r.Some? ==> r.value in users && r.value.username == name
    ensures r.None? <==> forall u :: u in users ==> u.username != name
  {
    if users == [] then None
    else if users[0].username == name then Some(users[0])
    else FindByName(users[1..], name)
  }

  /** In a well-formed table the row with a given id is the one found. */
  lemma FindByIdUnique(users: seq<UserRow>, u: UserRow)
    requires WellFormed(users) && u in users
    ensures FindById(users, u.id) == Some(u)
  {
    var v := FindById(users, u.id).value;
    var i :| 0 <= i < |users| && users[i] == u;
    var j :| 0 <= j < |users| && users[j] == v;
    assert users[i].id == users[j].id;
  }

  /** The id SQLite gives a new row: one more than the largest id in the
      table, 1 in an empty table. */
  function NewId(users: seq<UserRow>): int
  {
    if users == [] then 1 else users[|users| - 1].id + 1
  }

  /** The new id is larger than every id of a well-formed table. */
  lemma NewIdFresh(users: seq<UserRow>)
    requires WellFormed(users)
    ensures NewId(users) > 0
    ensures forall u :: u in users ==> u.id < NewId(users)
  {
    forall u | u in users
      ensures u.id < NewId(users)
    {
      var i :| 0 <= i < |users| && users[i] == u;
      if i < |users| - 1 {
        assert users[i].id < users[|users| - 1].id;
      }
    }
  }

  /** A row put in front of a well-formed table whose rows all come after it
      keeps the table well formed. */
  lemma ConsWellFormed(h: UserRow, rest: seq<UserRow>)
    requires WellFormed(rest) && h.id > 0 && h.username != []
    requires forall v :: v in rest ==> h.id < v.id && h.username != v.username
    ensures WellFormed([h] + rest)
  {
    var s := [h] + rest;
    forall i, j | 0 <= i < j < |s|
      ensures s[i].id < s[j].id && s[i].username != s[j].username
    {
      if i == 0 {
        assert s[j] == rest[j - 1];
        assert rest[j - 1] in rest;
      } else {
        assert s[i] == rest[i - 1] && s[j] == rest[j - 1];
      }
    }
  }

  /** `db.session.delete(user)`: the table without the rows of that id. */
  function WithoutUser(users: seq<UserRow>, id: int): (r: seq<UserRow>)
    ensures forall v :: v in r <==> v in users && v.id != id
  {
    if users == [] then []
    else
      assert users == [users[0]] + users[1..];
      (if users[0].id != id then [users[0]] else []) + WithoutUser(users[1..], id)
  }

  /** Deleting an id no row has changes nothing. */
  lemma {:induction false} WithoutAbsent(users: seq<UserRow>, id: int)
    requires forall v :: v in users ==> v.id != id
    ensures WithoutUser(users, id) == users
  {
    if users != [] {
      WithoutAbsent(users[1..], id);
    }
  }

  /** The tail of a well-formed table is well formed, and its rows come
      after the head. */
  lemma WellFormedTail(users: seq<UserRow>)
    requires WellFormed(users) && users != []
    ensures WellFormed(users[1..])
    ensures forall v :: v in users[1..] ==> users[0].id < v.id && users[0].username != v.username
  {
    var tl := users[1..];
    forall i, j | 0 <= i < j < |tl|
      ensures tl[i].id < tl[j].id && tl[i].username != tl[j].username
    {
      assert tl[i] == users[i + 1] && tl[j] == users[j + 1];
    }
    forall v | v in tl
      ensures users[0].id < v.id && users[0].username != v.username
    {
      var k :| 0 <= k < |tl| && tl[k] == v;
      assert users[k + 1] == v;
    }
  }

  /** Deleting rows keeps the table well formed. */
  lemma {:induction false} WithoutUserWellFormed(users: seq<UserRow>, id: int)
    requires WellFormed(users)
    ensures WellFormed(WithoutUser(users, id))
  {
    if users != [] {
      var h, tl := users[0], users[1..];
      WellFormedTail(users);
      WithoutUserWellFormed(tl, id);
      if h.id != id {
        assert WithoutUser(users, id) == [h] + WithoutUser(tl, id);
        ConsWellFormed(h, WithoutUser(tl, id));
      }
    }
  }

  /** The rows of a table that have a given id. */
  function WithId(users: seq<UserRow>, id: int): (r: seq<UserRow>)
    ensures forall v :: v in r ==> v in users && v.id == id
  {
    if users == [] then []
    else (if users[0].id == id then [users[0]] else []) + WithId(users[1..], id)
  }

  /** Deleting an id splits the table into the rows kept and the rows of
      that id. */
  lemma {:induction false} WithoutSplits(users: seq<UserRow>, id: int)
    ensures multiset(users) == multiset(WithoutUser(users, id)) + multiset(WithId(users, id))
  {
    if users != [] {
      WithoutSplits(users[1..], id);
      assert users == [users[0]] + users[1..];
    }
  }

  /** In a well-formed table an id that is there has exactly one row. */
  lemma {:induction false} WithIdSingle(users: seq<UserRow>, id: int)
    requires WellFormed(users) && FindById(users, id).Some?
    ensures WithId(users, id) == [FindById(users, id).value]
  {
    WellFormedTail(users);
    if users[0].id == id {
      NoRowWithId(users[1..], id);
    } else {
      WithIdSingle(users[1..], id);
    }
  }

  /** No row has the id, so none is picked out. */
  lemma {:induction false} NoRowWithId(users: seq<UserRow>, id: int)
    requires forall v :: v in users ==> v.id != id
    ensures WithId(users, id) == []
  {
    if users != [] {
      assert users[0] in users;
      NoRowWithId(users[1..], id);
    }
  }

  /** Deleting an id of a well-formed table removes exactly the row found
      for it, and deleting a missing id changes nothing. */
  lemma WithoutUserExactly(users: seq<UserRow>, id: int)
    requires WellFormed(users)
    ensures FindById(users, id).None? ==> WithoutUser(users, id) == users
    ensures FindById(users, id).Some? ==>
      multiset(users) == multiset(WithoutUser(users, id)) + multiset{FindById(users, id).value}
  {
    if FindById(users, id).None? {
      WithoutAbsent(users, id);
    } else {
      WithoutSplits(users, id);
      WithIdSingle(users, id);
    }
  }

  /** Deleting one id leaves every lookup of another id as it was. */
  lemma {:induction false} WithoutUserKeepsOthers(users: seq<UserRow>, id: int, other: int)
    requires other != id
    ensures FindById(WithoutUser(users, id), other) == FindById(users, other)
  {
    if users != [] {
      var w, rest := WithoutUser(users, id), WithoutUser(users[1..], id);
      WithoutUserKeepsOthers(users[1..], id, other);
      if users[0].id != id {
        assert w == [users[0]] + rest;
        assert w[0] == users[0] && w[1..] == rest;
      } else {
        assert w == rest;
      }
    }
  }

  /** The rows as the JSON API lists them, in table order. */
  function UserViews(users: seq<UserRow>): (r: seq<UserView>)
    ensures |r| == |users|
    ensures forall i :: 0 <= i < |users| ==> r[i] == ViewOf(users[i])
  {
    seq(|users|, i requires 0 <= i < |users| => ViewOf(users[i]))
  }

  function ViewOf(u: UserRow): UserView
  {
    UserView(u.id, u.username, u.isAdmin)
  }

  // ---------------------------------------------------------------------
  // Session and gates

  /** `load_logged_in_user`: `g.user` from the session's `user_id`; a
      stale id of a deleted user gives no user. */
  function SessionUser(users: seq<UserRow>, session: map<string, int>): (r: Option<UserRow>)
    ensures r.Some? ==> UserIdKey in session && r.value in users && r.value.id == session[UserIdKey]
    ensures r.None? <==> UserIdKey !in session || forall u :: u in users ==> u.id != session[UserIdKey]
  {
    if UserIdKey in session then FindById(users, session[UserIdKey]) else None
  }

  /** `login_required`. */
  function LoginRequired(user: Option<UserRow>): Gate
  {
    if user.None? then Deny(Redirect(LoginEndpoint), None) else Pass(user.value)
  }

  /** `admin_required`. */
  function AdminRequired(user: Option<UserRow>): Gate
  {
    if user.None? then Deny(Redirect(LoginEndpoint), None)
    else if !user.value.isAdmin then Deny(Redirect(IndexEndpoint), Some(Flash(Error, "Admin access required.")))
    else Pass(user.value)
  }

  /** The two decorators stacked as the admin routes stack them:
      `login_required` outside, `admin_required` inside. */
  function LoginThenAdmin(user: Option<UserRow>): Gate
  {
    match LoginRequired(user)
    case Deny(resp, f) => Deny(resp, f)
    case Pass(u) => AdminRequired(Some(u))
  }

  /** The login gate lets through exactly the logged-in users, and sends
      everyone else to the login page. */
  lemma LoginGateDecides(user: Option<UserRow>)
    ensures LoginRequired(user).Pass? <==> user.Some?
    ensures LoginRequired(user).Pass? ==> user == Some(LoginRequired(user).user)
    ensures LoginRequired(user).Deny? ==> LoginRequired(user).response == Redirect(LoginEndpoint)
  {
  }

  /** Stacking the login gate over the admin gate decides as the admin gate
      alone: only admins reach the view, anonymous users go to the login
      page and other users to the index with an error flash. */
  lemma StackedGatesAreAdminGate(user: Option<UserRow>)
    ensures LoginThenAdmin(user) == AdminRequired(user)
    ensures AdminRequired(user).Pass? <==> user.Some? && user.value.isAdmin
    ensures AdminRequired(user).Pass? ==> user == Some(AdminRequired(user).user)
    ensures user.None? ==> AdminRequired(user) == Deny(Redirect(LoginEndpoint), None)
    ensures user.Some? && !user.value.isAdmin ==>
      AdminRequired(user).Deny? && AdminRequired(user).response == Redirect(IndexEndpoint) &&
      AdminRequired(user).flash.Some? && AdminRequired(user).flash.value.category == Error
  {
  }

  /** The flashes a gate queues. */
  function FlashesOf(g: Gate): seq<Flash>
  {
    if g.Deny? && g.flash.Some? then [g.flash.value] else []
  }

  // ---------------------------------------------------------------------
  // Registration and login, as decisions on the table

  /** The first complaint `register` has about a form, if any: empty
      username, then empty password, then a username already taken. */
  function RegisterError(users: seq<UserRow>, username: string, password: string): (r: Option<string>)
    ensures r == Some("Username is required.") <==> username == []
    ensures r == Some("Password is required.") <==> username != [] && password == []
    ensures r == Some("User " + username + " is already registered.") <==>
      username != [] && password != [] && exists u :: u in users && u.username == username
    ensures r.None? <==>
      username != [] && password != [] && forall u :: u in users ==> u.username != username
  {
    if username == [] then Some("Username is required.")
    else if password == [] then Some("Password is required.")
    else if FindByName(users, username).Some? then Some("User " + username + " is already registered.")
    else None
  }

  /** The row `register` adds for an accepted form. */
  function NewUser(users: seq<UserRow>, username: string, passwordHash: string): UserRow
  {
    UserRow(NewId(users), username, passwordHash, false)
  }

  /** What `login` decides: the user to log in, or the first complaint. */
  function LoginCheck(users: seq<UserRow>, username: string, password: string,
                      checks: (string, string) -> bool): (r: Reply<UserRow>)
    ensures r.Ok? ==> r.value in users && r.value.username == username && checks(r.value.passwordHash, password)
    ensures r.Ok? <==>
      FindByName(users, username).Some? && checks(FindByName(users, username).value.passwordHash, password)
    ensures r.Ok? ==> r.value == FindByName(users, username).value
    ensures r == Failed("Incorrect username.") <==> forall u :: u in users ==> u.username != username
    ensures r == Failed("Incorrect password.") <==>
      exists u :: u in users && u.username == username && !checks(FindByName(users, username).value.passwordHash, password)
  {
    match FindByName(users, username)
    case None => Failed("Incorrect username.")
    case Some(u) => if !checks(u.passwordHash, password) then Failed("Incorrect password.") else Ok(u)
  }

  /** In a well-formed table the row with a given name is the one found. */
  lemma FindByNameUnique(users: seq<UserRow>, u: UserRow)
    requires WellFormed(users) && u in users
    ensures FindByName(users, u.username) == Some(u)
  {
    var v := FindByName(users, u.username).value;
    var i :| 0 <= i < |users| && users[i] == u;
    var j :| 0 <= j < |users| && users[j] == v;
    assert users[i].username == users[j].username;
  }

  /** Every user of a well-formed table logs in as themselves with a
      password their hash accepts, and is refused with "Incorrect
      password." with any other. */
  lemma CorrectPasswordLogsIn(users: seq<UserRow>, u: UserRow, password: string,
                              checks: (string, string) -> bool)
    requires WellFormed(users) && u in users
    ensures checks(u.passwordHash, password) ==> LoginCheck(users, u.username, password, checks) == Ok(u)
    ensures !checks(u.passwordHash, password) ==>
      LoginCheck(users, u.username, password, checks) == Failed("Incorrect password.")
  {
    FindByNameUnique(users, u);
  }

  /** A form `register` accepts adds a well-formed row, and the table
      stays well formed. */
  lemma RegisterKeepsWellFormed(users: seq<UserRow>, username: string, password: string, hash: string -> string)
    requires WellFormed(users)
    requires RegisterError(users, username, password).None?
    ensures WellFormed(users + [NewUser(users, username, hash(password))])
  {
    NewIdFresh(users);
    var s := users + [NewUser(users, username, hash(password))];
    forall i, j | 0 <= i < j < |s|
      ensures s[i].id < s[j].id && s[i].username != s[j].username
    {
      if j == |users| {
        assert users[i] in users;
      }
    }
  }

  /** Registration round trip: after `register` accepts a username and
      password, `login` with the same pair logs in the new row, provided
      the hash checks against the password it was made from. */
  lemma RegisterThenLogin(users: seq<UserRow>, username: string, password: string,
                          hash: string -> string, checks: (string, string) -> bool)
    requires RegisterError(users, username, password).None?
    requires checks(hash(password), password)
    ensures LoginCheck(users + [NewUser(users, username, hash(password))], username, password, checks)
      == Ok(NewUser(users, username, hash(password)))
  {
    var row := NewUser(users, username, hash(password));
    FindNameAppended(users, row);
  }

  /** A name no row has is found at the row appended with it. */
  lemma {:induction false} FindNameAppended(users: seq<UserRow>, row: UserRow)
    requires forall u :: u in users ==> u.username != row.username
    ensures FindByName(users + [row], row.username) == Some(row)
  {
    if users != [] {
      assert (users + [row])[1..] == users[1..] + [row];
      FindNameAppended(users[1..], row);
    } else {
      assert users + [row] == [row];
    }
  }

  /** A logged-in session is only as good as its row: once the row of its
      `user_id` is deleted the session has no user, and the sessions of
      other users keep theirs. */
  lemma DeleteEndsOnlyThatSession(users: seq<UserRow>, session: map<string, int>, id: int)
    ensures UserIdKey in session && session[UserIdKey] == id ==> SessionUser(WithoutUser(users, id), session).None?
    ensures UserIdKey in session && session[UserIdKey] != id ==>
      SessionUser(WithoutUser(users, id), session) == SessionUser(users, session)
  {
    if UserIdKey in session && session[UserIdKey] != id {
      WithoutUserKeepsOthers(users, id, session[UserIdKey]);
    }
  }

  // ---------------------------------------------------------------------
  // The server

  /** The account part of the server: the `user` table, the signed
      session cookie of the one client talking to it (its `user_id` and its
      queued flashes) and the password hash functions. */
  class AuthService {
    var users: seq<UserRow>
    var session: map<string, int>
    var flashes: seq<Flash>
    /** `generate_password_hash`. */
    const hash: string -> string
    /** `check_password_hash(stored, given)`. */
    const checks: (string, string) -> bool

    ghost predicate Valid()
      reads this
    {
      WellFormed(users)
    }

    constructor(hash: string -> string, checks: (string, string) -> bool)
      ensures Valid()
      ensures users == [] && session == map[] && flashes == []
      ensures this.hash == hash && this.checks == checks
    {
      this.users := [];
      this.session := map[];
      this.flashes := [];
      this.hash := hash;
      this.checks := checks;
    }

    /** `g.user` for the current request. */
    function CurrentUser(): Option<UserRow>
      reads this
    {
      SessionUser(users, session)
    }

    /** Runs a route's decorators: the admin gate (under the login gate) or
      the login gate alone, queueing the admin gate's flash on refusal. */
    method Enter(adminOnly: bool) returns (gate: Gate)
      modifies this
      ensures gate == (if adminOnly then LoginThenAdmin(old(CurrentUser())) else LoginRequired(old(CurrentUser())))
      ensures flashes == old(flashes) + FlashesOf(gate)
      ensures users == old(users) && session == old(session)
    {
      gate := if adminOnly then LoginThenAdmin(CurrentUser()) else LoginRequired(CurrentUser());
      flashes := flashes + FlashesOf(gate);
    }

    /** `register`: a GET shows the form; a POST with a complaint flashes it
      and shows the form again with nothing added; an accepted POST adds
      one non-admin row with the hashed password and answers 201. */
    method Register(isPost: bool, username: string, password: string) returns (resp: Response)
      requires Valid()
      modifies this
      ensures Valid()
      ensures session == old(session)
      ensures !isPost ==> resp == Page(RegisterTemplate) && users == old(users) && flashes == old(flashes)
      ensures isPost && RegisterError(old(users), username, password).Some? ==>
        resp == Page(RegisterTemplate) && users == old(users) &&
        flashes == old(flashes) + [Flash(Error, RegisterError(old(users), username, password).value)]
      ensures isPost && RegisterError(old(users), username, password).None? ==>
        resp == Json(201, Outcome(true, "Registration successful!")) &&
        users == old(users) + [NewUser(old(users), username, hash(password))] &&
        flashes == old(flashes) + [Flash(Success, "Registration successful! Please log in.")]
    {
      resp := Page(RegisterTemplate);
      if isPost {
        var error := RegisterError(users, username, password);
        if error.None? {
          RegisterKeepsWellFormed(users, username, password, hash);
          users := users + [NewUser(users, username, hash(password))];
          flashes := flashes + [Flash(Success, "Registration successful! Please log in.")];
          resp := Json(201, Outcome(true, "Registration successful!"));
        } else {
          flashes := flashes + [Flash(Error, error.value)];
        }
      }
    }

    /** `login`: a GET shows the form; a refused POST flashes the complaint
      and leaves the session as it was; an accepted POST clears the session
      (queued flashes included) and keeps only the user's id, so the
      session's user is the one who logged in. */
    method Login(isPost: bool, username: string, password: string) returns (resp: Response)
      requires Valid()
      modifies this
      ensures Valid() && users == old(users)
      ensures !isPost ==> resp == Page(LoginTemplate) && session == old(session) && flashes == old(flashes)
      ensures isPost && LoginCheck(users, username, password, checks).Failed? ==>
        resp == Page(LoginTemplate) && session == old(session) &&
        flashes == old(flashes) + [Flash(Error, LoginCheck(users, username, password, checks).error)]
      ensures isPost && LoginCheck(users, username, password, checks).Ok? ==>
        resp == Json(201, Outcome(true, "Login successful!")) &&
        session == map[UserIdKey := LoginCheck(users, username, password, checks).value.id] &&
        flashes == [] &&
        CurrentUser() == Some(LoginCheck(users, username, password, checks).value)
    {
      resp := Page(LoginTemplate);
      if isPost {
        var check := LoginCheck(users, username, password, checks);
        if check.Ok? {
          FindByIdUnique(users, check.value);
          session := map[UserIdKey := check.value.id];
          flashes := [];
          resp := Json(201, Outcome(true, "Login successful!"));
        } else {
          flashes := flashes + [Flash(Error, check.error)];
        }
      }
    }

    /** `logout`: the session is cleared, so nobody is logged in, and the
      goodbye flash is the only thing queued. */
    method Logout() returns (resp: Response)
      requires Valid()
      modifies this
      ensures Valid() && users == old(users)
      ensures session == map[] && CurrentUser().None?
      ensures flashes == [Flash(Success, "You have been logged out")]
      ensures resp == Redirect(IndexEndpoint)
    {
      session := map[];
      flashes := [Flash(Success, "You have been logged out")];
      resp := Redirect(IndexEndpoint);
    }

    /** `admin_users`: the admin page, behind both gates. */
    method AdminUsersPage() returns (resp: Response)
      modifies this
      ensures users == old(users) && session == old(session)
      ensures var gate := AdminRequired(old(CurrentUser()));
        flashes == old(flashes) + FlashesOf(gate) &&
        resp == (if gate.Pass? then Page(AdminUsersTemplate) else gate.response)
    {
      var gate := Enter(true);
      StackedGatesAreAdminGate(old(CurrentUser()));
      resp := if gate.Pass? then Page(AdminUsersTemplate) else gate.response;
    }

    /** `api_users`: every user, in table order and without password
      hashes, and the id of the admin asking. */
    method ApiUsers() returns (resp: Response)
      modifies this
      ensures users == old(users) && session == old(session)
      ensures var gate := AdminRequired(old(CurrentUser()));
        flashes == old(flashes) + FlashesOf(gate) &&
        resp == (if gate.Pass? then Json(200, UserList(UserViews(users), gate.user.id)) else gate.response)
    {
      var gate := Enter(true);
      StackedGatesAreAdminGate(old(CurrentUser()));
      resp := if gate.Pass? then Json(200, UserList(UserViews(users), gate.user.id)) else gate.response;
    }

    /** `api_delete_user`: behind both gates, an admin cannot delete their
      own row (400) nor a missing one (404); any other id loses exactly
      its row and the answer names the deleted user. Whatever happens, the
      admin asking stays logged in. */
    method ApiDeleteUser(userId: int) returns (resp: Response)
      requires Valid()
      modifies this
      ensures Valid() && session == old(session)
      ensures var gate := AdminRequired(old(CurrentUser()));
        flashes == old(flashes) + FlashesOf(gate) &&
        (gate.Deny? ==> resp == gate.response && users == old(users)) &&
        (gate.Pass? && userId == gate.user.id ==>
          resp == Json(400, Outcome(false, "You cannot delete your own account.")) && users == old(users)) &&
        (gate.Pass? && userId != gate.user.id && FindById(old(users), userId).None? ==>
          resp == Json(404, Outcome(false, "User not found.")) && users == old(users)) &&
        (gate.Pass? && userId != gate.user.id && FindById(old(users), userId).Some? ==>
          resp == Json(200, Outcome(true, "User " + FindById(old(users), userId).value.username + " has been deleted.")) &&
          users == WithoutUser(old(users), userId) &&
          multiset(old(users)) == multiset(users) + multiset{FindById(old(users), userId).value})
      ensures CurrentUser() == old(CurrentUser())
    {
      var gate := Enter(true);
      StackedGatesAreAdminGate(old(CurrentUser()));
      if gate.Deny? {
        resp := gate.response;
      } else if userId == gate.user.id {
        resp := Json(400, Outcome(false, "You cannot delete your own account."));
      } else {
        var user := FindById(users, userId);
        if user.None? {
          resp := Json(404, Outcome(false, "User not found."));
        } else {
          DeleteRow(userId);
          resp := Json(200, Outcome(true, "User " + user.value.username + " has been deleted."));
        }
      }
    }

    /** `db.session.delete(user)` of a row that is there and is not the
      session's: exactly that row goes, and the session keeps its user. */
    method DeleteRow(userId: int)
      requires Valid() && FindById(users, userId).Some?
      requires UserIdKey in session ==> session[UserIdKey] != userId
      modifies this
      ensures Valid() && session == old(session) && flashes == old(flashes)
      ensures users == WithoutUser(old(users), userId)
      ensures multiset(old(users)) == multiset(users) + multiset{FindById(old(users), userId).value}
      ensures CurrentUser() == old(CurrentUser())
    {
      WithoutUserWellFormed(users, userId);
      WithoutUserExactly(users, userId);
      DeleteEndsOnlyThatSession(users, session, userId);
      users := WithoutUser(users, userId);
    }

    /** `api_current_user`: behind the login gate, the logged-in user. */
    method ApiCurrentUser() returns (resp: Response)
      modifies this
      ensures users == old(users) && session == old(session) && flashes == old(flashes)
      ensures old(CurrentUser()).None? ==> resp == Redirect(LoginEndpoint)
      ensures old(CurrentUser()).Some? ==>
        resp == Json(200, Me(ViewOf(old(CurrentUser()).value))) &&
        resp.body.user.id == session[UserIdKey]
    {
      var gate := Enter(false);
      resp := if gate.Pass? then Json(200, Me(ViewOf(gate.user))) else gate.response;
    }
  }
}

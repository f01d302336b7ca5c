/** The decision logic of `/register` and `/login` (Backend/routes/authRoutes.js).
    Registration changes the user collection and is a method of
    `AuthRoute.Accounts`; login only reads it and is a function here. */
module Auth {
  import opened Common
  import opened Users

  const MISSING_FIELDS := Response(BAD_REQUEST, "All fields are required")
  const USER_EXISTS := Response(BAD_REQUEST, "User already exists")
  const MISSING_LOGIN := Response(BAD_REQUEST, "Email and password are required")
  const INVALID_CREDENTIALS := Response(BAD_REQUEST, "Invalid credentials")

  /** The account `/register` creates from the request body. */
  function NewUser(id: nat, name: string, email: string, password: string, role: Role): User
  {
    User(id, name, email, HashPassword(password), role)
  }

  /** POST /login: an empty email or password is refused; an unknown email and a
      wrong password get the same answer, so nothing tells them apart. */
  function Login(users: seq<User>, email: string, password: string): (r: AuthReply)
    ensures email == "" || password == "" ==> r == Rejected(MISSING_LOGIN)
    ensures email != "" && password != "" && r.Rejected? ==> r.response == INVALID_CREDENTIALS
    ensures r.Authenticated? ==> r.status == OK && email != "" && password != ""
    ensures r.Authenticated? ==>
      exists u :: u in users && u.email == email && MatchPassword(u.password, password)
        && r.token == Token(u.id) && r.user == ViewOf(u)
    ensures (forall u :: u in users ==> u.email != email) ==> r.Rejected?
  {
    if email == "" || password == "" then Rejected(MISSING_LOGIN)
    else match FindByEmail(users, email)
      case None => Rejected(INVALID_CREDENTIALS)
      case Some(u) =>
        if !MatchPassword(u.password, password) then Rejected(INVALID_CREDENTIALS)
        else Authenticated(OK, Token(u.id), ViewOf(u))
  }

  /** With unique emails, login succeeds exactly when some account has that
      email and its stored credential matches the password. */
  lemma LoginSucceedsIffCredentialsMatch(users: seq<User>, email: string, password: string)
    requires EmailsUnique(users)
    requires email != "" && password != ""
    ensures Login(users, email, password).Authenticated? <==>
      exists u :: u in users && u.email == email && MatchPassword(u.password, password)
  {
    var found := FindByEmail(users, email);
    if found.Some? {
      forall u | u in users && u.email == email ensures u == found.value {
        var i :| 0 <= i < |users| && users[i] == u;
        var k :| 0 <= k < |users| && users[k] == found.value;
        assert i == k;
      }
    }
  }

  /** An account that has just registered can log in with the same email and
      password, and gets back the account registration created. */
  lemma LoginAfterRegister(users: seq<User>, id: nat, name: string, email: string, password: string, role: Role)
    requires forall u :: u in users ==> u.email != email
    requires email != "" && password != ""
    ensures Login(users + [NewUser(id, name, email, password, role)], email, password)
         == Authenticated(OK, Token(id), UserView(id, name, email, RoleName(role)))
  {
    var all := users + [NewUser(id, name, email, password, role)];
    assert forall j :: 0 <= j < |users| ==> all[j] in users;
    assert forall j :: 0 <= j < |users| ==> UserEmail(all[j]) != email;
    assert UserEmail(all[|users|]) == email;
    assert IndexOf(all, UserEmail, email) == Some(|users|);
  }

  /** Logging in with a password bcrypt tells apart from the registered one
      (their first 72 UTF-8 bytes differ) is refused with the same message as
      an unknown email. */
  lemma WrongPasswordAfterRegister(users: seq<User>, id: nat, name: string, email: string, password: string, other: string, role: Role)
    requires forall u :: u in users ==> u.email != email
    requires email != "" && other != "" && PasswordKey(other) != PasswordKey(password)
    ensures Login(users + [NewUser(id, name, email, password, role)], email, other) == Rejected(INVALID_CREDENTIALS)
  {
    var all := users + [NewUser(id, name, email, password, role)];
    assert forall j :: 0 <= j < |users| ==> all[j] in users;
    assert forall j :: 0 <= j < |users| ==> UserEmail(all[j]) != email;
    assert UserEmail(all[|users|]) == email;
    assert IndexOf(all, UserEmail, email) == Some(|users|);
  }

  /** A different password that shares the registered one's first 72 UTF-8
      bytes logs in as that account: bcrypt never reads the rest. */
  lemma SameKeyAcceptedAfterRegister(users: seq<User>, id: nat, name: string, email: string, password: string, other: string, role: Role)
    requires forall u :: u in users ==> u.email != email
    requires email != "" && other != "" && PasswordKey(other) == PasswordKey(password)
    ensures Login(users + [NewUser(id, name, email, password, role)], email, other)
         == Authenticated(OK, Token(id), UserView(id, name, email, RoleName(role)))
  {
    var all := users + [NewUser(id, name, email, password, role)];
    assert forall j :: 0 <= j < |users| ==> all[j] in users;
    assert forall j :: 0 <= j < |users| ==> UserEmail(all[j]) != email;
    assert UserEmail(all[|users|]) == email;
    assert IndexOf(all, UserEmail, email) == Some(|users|);
  }
}

/** The users collection as Backend/routes/authRoutes.js changes it: the
    register handler, which is the only writer of accounts. */
module AuthRoute {
  import opened Common
  import opened Users
  import opened Auth

  class Accounts {
    var users: seq<User>
    /** The next document id; ids are never reused. */
    var nextId: nat

    /** Increasing ids below `nextId`, one account per email. */
    ghost predicate Valid()
      reads this
    {
      IdsOrdered(users, UserId, nextId) && EmailsUnique(users)
    }

    constructor ()
      ensures Valid() && users == [] && nextId == 0
    {
      users, nextId := [], 0;
    }

    /** POST /register. Every field is required; a used email is refused with
        400 (not 409); a role outside the enum fails at save and answers 500. */
    method Register(name: string, email: string, password: string, role: string) returns (r: AuthReply)
      requires Valid()
      modifies this
      ensures Valid()
      ensures name == "" || email == "" || password == "" || role == "" ==> r == Rejected(MISSING_FIELDS)
      ensures name != "" && email != "" && password != "" && role != "" && FindByEmail(old(users), email).Some? ==>
        r == Rejected(USER_EXISTS)
      ensures (name != "" && email != "" && password != "" && role != "" && FindByEmail(old(users), email).None?
               && ParseRole(role).None?) ==> r == Rejected(ServerError)
      ensures r.Authenticated? <==>
        name != "" && email != "" && password != "" && role != "" && FindByEmail(old(users), email).None? && ParseRole(role).Some?
      ensures r.Authenticated? ==>
        && users == old(users) + [NewUser(old(nextId), name, email, password, ParseRole(role).value)]
        && nextId == old(nextId) + 1
        && r == Authenticated(CREATED, Token(old(nextId)), UserView(old(nextId), name, email, role))
      ensures r.Rejected? ==> users == old(users) && nextId == old(nextId)
    {
      if name == "" || email == "" || password == "" || role == "" {
        return Rejected(MISSING_FIELDS);
      }
      if FindByEmail(users, email).Some? {
        return Rejected(USER_EXISTS);
      }
      var parsed := ParseRole(role);
      if parsed.None? {
        return Rejected(ServerError);
      }
      var u := NewUser(nextId, name, email, password, parsed.value);
      IdsOrderedAppend(users, UserId, nextId, u);
      users := users + [u];
      nextId := nextId + 1;
      r := Authenticated(CREATED, Token(u.id), ViewOf(u));
    }
  }
}

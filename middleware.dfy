/** The two secretary gates: `secretaryMiddleware`
    (Backend/middleware/secretaryMiddleware.js) and `requireSecretary`
    (Backend/middleware/roleMiddleware.js). The caller id is what the
    authentication middleware put on the request, if anything. */
module Middleware {
  import opened Common
  import opened Users

  /** What a middleware does with a request: hand it on to `next()`, or answer it. */
  datatype Gate = Next | Halt(response: Response)

  /** `secretaryMiddleware`: only an existing secretary account passes. */
  function SecretaryGate(users: seq<User>, userId: Option<nat>): (g: Gate)
    ensures userId.None? ==> g == Halt(Response(UNAUTHORIZED, "Unauthorized"))
    ensures userId.Some? && CallerRole(users, userId.value).None? ==> g == Halt(Response(UNAUTHORIZED, "User not found"))
    ensures userId.Some? && CallerRole(users, userId.value) == Some(Student) ==>
      g == Halt(Response(FORBIDDEN, "Secretary privileges required"))
    ensures g.Next? <==> userId.Some? && CallerRole(users, userId.value) == Some(Secretary)
  {
    match userId
    case None => Halt(Response(UNAUTHORIZED, "Unauthorized"))
    case Some(id) =>
      match FindUser(users, id)
      case None => Halt(Response(UNAUTHORIZED, "User not found"))
      case Some(u) =>
        if u.role != Secretary then Halt(Response(FORBIDDEN, "Secretary privileges required"))
        else Next
  }

  /** The decision of `requireSecretary`; its messages differ from
      `secretaryMiddleware`'s, the statuses do not. */
  function RequireSecretaryGate(users: seq<User>, userId: Option<nat>): (g: Gate)
    ensures userId.None? || CallerRole(users, userId.value).None? ==> g == Halt(Response(UNAUTHORIZED, "Unauthorized"))
    ensures userId.Some? && CallerRole(users, userId.value) == Some(Student) ==> g == Halt(Response(FORBIDDEN, "Forbidden"))
    ensures g.Next? <==> userId.Some? && CallerRole(users, userId.value) == Some(Secretary)
  {
    match userId
    case None => Halt(Response(UNAUTHORIZED, "Unauthorized"))
    case Some(id) =>
      match FindUser(users, id)
      case None => Halt(Response(UNAUTHORIZED, "Unauthorized"))
      case Some(u) => if u.role != Secretary then Halt(Response(FORBIDDEN, "Forbidden")) else Next
  }

  /** The two gates let exactly the same requests through and answer the
      others with the same status. */
  lemma GatesAgreeOnStatus(users: seq<User>, userId: Option<nat>)
    ensures SecretaryGate(users, userId).Next? <==> RequireSecretaryGate(users, userId).Next?
    ensures SecretaryGate(users, userId).Halt? ==>
      SecretaryGate(users, userId).response.status == RequireSecretaryGate(users, userId).response.status
  {
  }

  /** The part of an Express request the gates look at and change. */
  class Request {
    const userId: Option<nat>
    var user: Option<User>

    constructor (userId: Option<nat>)
      ensures this.userId == userId && user.None?
    {
      this.userId := userId;
      user := None;
    }

    /** `requireSecretary`: on success `req.user` is the secretary's record;
        otherwise the request is answered and `req.user` is left alone. */
    method RequireSecretary(users: seq<User>) returns (g: Gate)
      modifies this`user
      ensures g == RequireSecretaryGate(users, userId)
      ensures g.Next? ==> user == FindUser(users, userId.value) && user.Some? && user.value.role == Secretary
      ensures g.Halt? ==> user == old(user)
    {
      if userId.None? {
        return Halt(Response(UNAUTHORIZED, "Unauthorized"));
      }
      var found := FindUser(users, userId.value);
      if found.None? {
        return Halt(Response(UNAUTHORIZED, "Unauthorized"));
      }
      if found.value.role != Secretary {
        return Halt(Response(FORBIDDEN, "Forbidden"));
      }
      user := found;
      g := Next;
    }
  }
}

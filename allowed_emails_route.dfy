/** The allow-list collection as Backend/routes/allowedEmailsRoutes.js changes
    it. Both writers sit behind the secretary middleware, which reads the
    accounts. */
module AllowedEmailsRoute {
  import opened Common
  import opened Users
  import opened Middleware
  import opened AllowedEmails

  class AllowList {
    var allowed: seq<AllowedEmail>
    /** The next document id; ids are never reused. */
    var nextId: nat

    /** Increasing ids below `nextId`; no email listed twice. */
    ghost predicate Valid()
      reads this
    {
      IdsOrdered(allowed, EntryId, nextId) && Unique(allowed)
    }

    constructor ()
      ensures Valid() && allowed == [] && nextId == 0
    {
      allowed, nextId := [], 0;
    }

    /** POST /allowed-emails: the secretary gate, then the handler. The body
        of a 201 is the new entry, not a message. */
    method Add(users: seq<User>, userId: Option<nat>, email: string) returns (resp: Response)
      requires Valid()
      modifies this
      ensures Valid()
      ensures SecretaryGate(users, userId).Halt? ==> resp == SecretaryGate(users, userId).response
      ensures SecretaryGate(users, userId).Next? && email == "" ==> resp == Response(BAD_REQUEST, "Email is required")
      ensures SecretaryGate(users, userId).Next? && email != "" && IsAllowed(old(allowed), email) ==>
        resp == Response(CONFLICT, "Email already allowed")
      ensures resp.status == CREATED <==> SecretaryGate(users, userId).Next? && email != "" && !IsAllowed(old(allowed), email)
      ensures resp.status == CREATED ==>
        allowed == old(allowed) + [AllowedEmail(old(nextId), email)] && nextId == old(nextId) + 1
      ensures resp.status != CREATED ==> allowed == old(allowed) && nextId == old(nextId)
    {
      var gate := SecretaryGate(users, userId);
      if gate.Halt? {
        return gate.response;
      }
      if email == "" {
        return Response(BAD_REQUEST, "Email is required");
      }
      if IsAllowed(allowed, email) {
        return Response(CONFLICT, "Email already allowed");
      }
      var entry := AllowedEmail(nextId, email);
      AddKeepsUnique(allowed, entry);
      IdsOrderedAppend(allowed, EntryId, nextId, entry);
      allowed := allowed + [entry];
      nextId := nextId + 1;
      resp := Response(CREATED, "");
    }

    /** DELETE /allowed-emails/:id: the secretary gate, then the handler. */
    method Remove(users: seq<User>, userId: Option<nat>, id: nat) returns (resp: Response)
      requires Valid()
      modifies this
      ensures Valid() && nextId == old(nextId)
      ensures SecretaryGate(users, userId).Halt? ==> resp == SecretaryGate(users, userId).response
      ensures SecretaryGate(users, userId).Next? && IndexOf(old(allowed), EntryId, id).None? ==>
        resp == Response(NOT_FOUND, "Email not found")
      ensures resp.status == OK <==> SecretaryGate(users, userId).Next? && IndexOf(old(allowed), EntryId, id).Some?
      ensures resp.status == OK ==>
        resp == Response(OK, "Email removed") && allowed == RemoveAt(old(allowed), IndexOf(old(allowed), EntryId, id).value)
      ensures resp.status != OK ==> allowed == old(allowed)
    {
      var gate := SecretaryGate(users, userId);
      if gate.Halt? {
        return gate.response;
      }
      var found := IndexOf(allowed, EntryId, id);
      if found.None? {
        return Response(NOT_FOUND, "Email not found");
      }
      RemoveKeepsUnique(allowed, found.value);
      IdsOrderedRemove(allowed, EntryId, nextId, found.value);
      allowed := RemoveAt(allowed, found.value);
      resp := Response(OK, "Email removed");
    }
  }
}

/** The complaints collection as Backend/controllers/complaintController.js
    changes it: submit, status update and reply. The accounts are read, never
    written; the mails a handler sends are returned beside its response. */
module ComplaintController {
  import opened Common
  import opened Users
  import opened ComplaintModel
  import opened Complaints

  const COMPLAINT_NOT_FOUND := Response(NOT_FOUND, "Complaint not found")
  const COMPLAINT_SUBMITTED := Response(CREATED, "Complaint submitted successfully")

  class ComplaintCollection {
    var complaints: seq<Complaint>
    /** The next document id; ids are never reused. */
    var nextId: nat

    ghost predicate Valid()
      reads this
    {
      IdsOrdered(complaints, ComplaintId, nextId)
    }

    constructor ()
      ensures Valid() && complaints == [] && nextId == 0
    {
      complaints, nextId := [], 0;
    }

    /** POST /complaints (`submitComplaint`): no role check. After saving, the
        first secretary is notified; looking up the caller's name for that mail
        throws when the caller has no account, so that request answers 500
        although the complaint is stored. */
    method SubmitComplaint(users: seq<User>, callerId: nat, text: string, imageUrl: Option<string>, now: int)
      returns (resp: Response, mails: seq<Mail>)
      requires Valid()
      modifies this
      ensures Valid()
      ensures text == "" ==> resp == ServerError && mails == [] && complaints == old(complaints) && nextId == old(nextId)
      ensures text != "" ==>
        && complaints == old(complaints) + [NewComplaint(old(nextId), callerId, text, imageUrl, now)]
        && nextId == old(nextId) + 1
      ensures text != "" && IndexOf(users, UserRole, Secretary).None? ==> resp == COMPLAINT_SUBMITTED && mails == []
      ensures text != "" && IndexOf(users, UserRole, Secretary).Some? && FindUser(users, callerId).None? ==>
        resp == ServerError && mails == []
      ensures var secretary := IndexOf(users, UserRole, Secretary);
        text != "" && secretary.Some? && FindUser(users, callerId).Some? ==>
          resp == COMPLAINT_SUBMITTED && mails == [Mail(users[secretary.value].email, "New Complaint Received")]
    {
      if text == "" {
        return ServerError, [];
      }
      var c := NewComplaint(nextId, callerId, text, imageUrl, now);
      IdsOrderedAppend(complaints, ComplaintId, nextId, c);
      complaints := complaints + [c];
      nextId := nextId + 1;
      var secretary := IndexOf(users, UserRole, Secretary);
      if secretary.None? {
        return COMPLAINT_SUBMITTED, [];
      }
      if FindUser(users, callerId).None? {
        return ServerError, [];
      }
      resp, mails := COMPLAINT_SUBMITTED, [Mail(users[secretary.value].email, "New Complaint Received")];
    }

    /** PUT /complaints/:complaintId (`updateComplaintStatus`): existence, then
        the caller's account, then the role checks. */
    method UpdateComplaintStatus(users: seq<User>, callerId: nat, complaintId: nat, status: string, now: int)
      returns (resp: Response)
      requires Valid()
      modifies this
      ensures Valid() && nextId == old(nextId)
      ensures IndexOf(old(complaints), ComplaintId, complaintId).None? ==> resp == COMPLAINT_NOT_FOUND
      ensures IndexOf(old(complaints), ComplaintId, complaintId).Some? && CallerRole(users, callerId).None? ==> resp == ServerError
      ensures var found := IndexOf(old(complaints), ComplaintId, complaintId);
        var role := CallerRole(users, callerId);
        found.Some? && role.Some? && StatusCheck(role.value, callerId, old(complaints)[found.value], status).Some? ==>
          resp == StatusCheck(role.value, callerId, old(complaints)[found.value], status).value
      ensures var found := IndexOf(old(complaints), ComplaintId, complaintId);
        var role := CallerRole(users, callerId);
        resp.status == OK <==>
          found.Some? && role.Some? && StatusCheck(role.value, callerId, old(complaints)[found.value], status).None?
      ensures var found := IndexOf(old(complaints), ComplaintId, complaintId);
        resp.status == OK ==>
          && resp == Response(OK, "Complaint updated successfully")
          && complaints == old(complaints)[found.value := WithStatus(old(complaints)[found.value], status, now)]
      ensures resp.status != OK ==> complaints == old(complaints)
    {
      var found := IndexOf(complaints, ComplaintId, complaintId);
      if found.None? {
        return COMPLAINT_NOT_FOUND;
      }
      var role := CallerRole(users, callerId);
      if role.None? {
        return ServerError;
      }
      var c := complaints[found.value];
      var refusal := StatusCheck(role.value, callerId, c, status);
      if refusal.Some? {
        return refusal.value;
      }
      IdsOrderedReplace(complaints, ComplaintId, nextId, found.value, WithStatus(c, status, now));
      complaints := complaints[found.value := WithStatus(c, status, now)];
      resp := Response(OK, "Complaint updated successfully");
    }

    /** POST /complaints/:complaintId/reply (`addReply`): the caller's account,
        then the message, then existence. No ownership check. The reply is
        written by `save`, which validates the whole document, so a complaint
        whose stored status is outside the enum cannot take a reply and the
        request answers 500. A secretary's reply mails the complaint's owner
        when that account exists. */
    method AddReply(users: seq<User>, callerId: nat, complaintId: nat, message: string, now: int)
      returns (resp: Response, mails: seq<Mail>)
      requires Valid()
      modifies this
      ensures Valid() && nextId == old(nextId)
      ensures CallerRole(users, callerId).None? ==> resp == ServerError
      ensures CallerRole(users, callerId).Some? && Blank(message) ==> resp == EMPTY_REPLY
      ensures CallerRole(users, callerId).Some? && !Blank(message) && IndexOf(old(complaints), ComplaintId, complaintId).None? ==>
        resp == COMPLAINT_NOT_FOUND
      ensures var found := IndexOf(old(complaints), ComplaintId, complaintId);
        CallerRole(users, callerId).Some? && !Blank(message) && found.Some? && old(complaints)[found.value].status.Unlisted? ==>
          resp == ServerError
      ensures var found := IndexOf(old(complaints), ComplaintId, complaintId);
        resp.status == OK <==>
          CallerRole(users, callerId).Some? && !Blank(message) && found.Some? && !old(complaints)[found.value].status.Unlisted?
      ensures var found := IndexOf(old(complaints), ComplaintId, complaintId);
        var role := CallerRole(users, callerId);
        resp.status == OK ==>
          var c := old(complaints)[found.value];
          && resp == Response(OK, "Reply added successfully")
          && complaints == old(complaints)[found.value := c.(replies := c.replies + [ReplyFrom(role.value, callerId, message, now)])]
          && mails == (if role.value == Secretary && FindUser(users, c.studentId).Some?
                       then [Mail(FindUser(users, c.studentId).value.email, "Reply to Your Complaint")]
                       else [])
      ensures resp.status != OK ==> complaints == old(complaints) && mails == []
    {
      var role := CallerRole(users, callerId);
      if role.None? {
        return ServerError, [];
      }
      if Blank(message) {
        return EMPTY_REPLY, [];
      }
      var found := IndexOf(complaints, ComplaintId, complaintId);
      if found.None? {
        return COMPLAINT_NOT_FOUND, [];
      }
      var c := complaints[found.value];
      if c.status.Unlisted? {
        return ServerError, [];
      }
      var replied := c.(replies := c.replies + [ReplyFrom(role.value, callerId, message, now)]);
      IdsOrderedReplace(complaints, ComplaintId, nextId, found.value, replied);
      complaints := complaints[found.value := replied];
      var owner := FindUser(users, c.studentId);
      mails := if role.value == Secretary && owner.Some? then [Mail(owner.value.email, "Reply to Your Complaint")] else [];
      resp := Response(OK, "Reply added successfully");
    }
  }
}

/** The notices collection as `createNotice` in
    Backend/controllers/noticeController.js changes it. */
module NoticeController {
  import opened Common
  import opened Users
  import opened Notices

  class NoticeCollection {
    var notices: seq<Notice>

    constructor ()
      ensures notices == []
    {
      notices := [];
    }

    /** POST /notices (`createNotice`): secretaries only. The broadcast to
        every student is not awaited, so the 201 does not depend on it. */
    method CreateNotice(users: seq<User>, callerId: nat, title: string, message: string, now: int)
      returns (resp: Response, mails: seq<Mail>)
      modifies this
      ensures CallerRole(users, callerId).None? ==> resp == ServerError
      ensures CallerRole(users, callerId) == Some(Student) ==> resp == Response(FORBIDDEN, "Only secretaries can create notices")
      ensures resp.status == CREATED <==> CallerRole(users, callerId) == Some(Secretary)
      ensures resp.status == CREATED ==>
        && resp == Response(CREATED, "Notice created and sent")
        && notices == old(notices) + [Notice(title, message, callerId, now)]
        && mails == MailsTo(StudentEmails(users), "Notice: " + title)
        && Notice(title, message, callerId, now) in NoticesNewestFirst(notices)
      ensures resp.status != CREATED ==> notices == old(notices) && mails == []
    {
      var role := CallerRole(users, callerId);
      if role.None? {
        return ServerError, [];
      }
      if role.value != Secretary {
        return Response(FORBIDDEN, "Only secretaries can create notices"), [];
      }
      CreatedNoticeIsListed(notices, Notice(title, message, callerId, now));
      notices := notices + [Notice(title, message, callerId, now)];
      mails := MailsTo(StudentEmails(users), "Notice: " + title);
      resp := Response(CREATED, "Notice created and sent");
    }
  }
}

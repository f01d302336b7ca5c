/** The decisions and queries of Backend/controllers/complaintController.js:
    who may set which status, what a status update writes, who a reply is
    attributed to, and the two listings. */
module Complaints {
  import opened Common
  import opened Users
  import opened Ordering
  import opened ComplaintModel

  /** The characters `String.prototype.trim` removes: ECMAScript's WhiteSpace
      (tab, vertical tab, form feed, space, no-break space, byte-order mark and
      the other space separators) and LineTerminator characters. */
  predicate IsTrimmable(c: char)
  {
    || c == '\t' || c == '\n' || c == '\U{000B}' || c == '\U{000C}' || c == '\r' || c == ' '
    || c == '\U{00A0}' || c == '\U{1680}' || ('\U{2000}' <= c <= '\U{200A}')
    || c == '\U{2028}' || c == '\U{2029}' || c == '\U{202F}' || c == '\U{205F}'
    || c == '\U{3000}' || c == '\U{FEFF}'
  }

  /** The leading-whitespace half of `trim`: the longest suffix that does not
      start with whitespace; empty exactly when every character is whitespace. */
  function TrimStart(s: string): (r: string)
    ensures |r| <= |s| && r == s[|s| - |r|..]
    ensures |r| > 0 ==> !IsTrimmable(r[0])
    ensures r == "" <==> forall i :: 0 <= i < |s| ==> IsTrimmable(s[i])
    decreases |s|
  {
    if |s| > 0 && IsTrimmable(s[0]) then
      assert forall i :: 1 <= i < |s| ==> s[i] == s[1..][i - 1];
      TrimStart(s[1..])
    else s
  }

  /** The trailing-whitespace half of `trim`: the longest prefix that does not
      end with whitespace; empty exactly when every character is whitespace. */
  function TrimEnd(s: string): (r: string)
    ensures |r| <= |s| && r == s[..|r|]
    ensures |r| > 0 ==> !IsTrimmable(r[|r| - 1])
    ensures r == "" <==> forall i :: 0 <= i < |s| ==> IsTrimmable(s[i])
    decreases |s|
  {
    if |s| > 0 && IsTrimmable(s[|s| - 1]) then
      assert forall i :: 0 <= i < |s| - 1 ==> s[i] == s[..|s| - 1][i];
      TrimEnd(s[..|s| - 1])
    else s
  }

  /** Everything `TrimStart` drops is whitespace. */
  lemma {:induction false} TrimStartDropsWhitespace(s: string)
    ensures forall i :: 0 <= i < |s| - |TrimStart(s)| ==> IsTrimmable(s[i])
    decreases |s|
  {
    if |s| > 0 && IsTrimmable(s[0]) {
      TrimStartDropsWhitespace(s[1..]);
      assert forall i :: 1 <= i < |s| ==> s[i] == s[1..][i - 1];
    }
  }

  /** Everything `TrimEnd` drops is whitespace. */
  lemma {:induction false} TrimEndDropsWhitespace(s: string)
    ensures forall i :: |TrimEnd(s)| <= i < |s| ==> IsTrimmable(s[i])
    decreases |s|
  {
    if |s| > 0 && IsTrimmable(s[|s| - 1]) {
      TrimEndDropsWhitespace(s[..|s| - 1]);
      assert forall i :: 0 <= i < |s| - 1 ==> s[i] == s[..|s| - 1][i];
    }
  }

  /** `String.prototype.trim`: no longer than `s`, neither starting nor
      ending with whitespace, and empty exactly when `s` is all whitespace. */
  function Trim(s: string): (r: string)
    ensures |r| <= |s|
    ensures |r| > 0 ==> !IsTrimmable(r[0]) && !IsTrimmable(r[|r| - 1])
    ensures r == "" <==> forall i :: 0 <= i < |s| ==> IsTrimmable(s[i])
  {
    var t := TrimStart(s);
    var r := TrimEnd(t);
    assert |r| > 0 ==> r[0] == t[0];
    r
  }

  /** `!message || message.trim() === ''`. */
  predicate Blank(message: string)
  {
    Trim(message) == ""
  }

  /** A message is blank exactly when it is empty or nothing but whitespace. */
  lemma BlankIffWhitespace(message: string)
    ensures Blank(message) <==> forall i :: 0 <= i < |message| ==> IsTrimmable(message[i])
  {
  }

  const EMPTY_REPLY := Response(BAD_REQUEST, "Reply message cannot be empty")
  const NOT_OWNER := Response(FORBIDDEN, "You can only update your own complaints")
  const STUDENT_REOPENS := Response(FORBIDDEN, "Students can only mark complaints as resolved")

  /** The reply `addReply` appends: attributed through `secretaryId` for a
      secretary and through `studentId` for a student, never both. */
  function ReplyFrom(role: Role, userId: nat, message: string, now: int): (r: ComplaintReply)
    ensures r.secretaryId.Some? <==> !r.studentId.Some?
    ensures r.secretaryId == Some(userId) <==> role == Secretary
    ensures r.studentId == Some(userId) <==> role == Student
    ensures r.message == message && r.repliedAt == now
  {
    match role
    case Secretary => ComplaintReply(Some(userId), None, message, now)
    case Student => ComplaintReply(None, Some(userId), message, now)
  }

  /** The two role checks of `updateComplaintStatus`: a student may touch only
      their own complaint and may not ask for `pending`; a secretary may set any
      status on any complaint. `None` lets the update through. */
  function StatusCheck(role: Role, callerId: nat, c: Complaint, status: string): (r: Option<Response>)
    ensures r.None? <==> role == Secretary || (c.studentId == callerId && status != "pending")
    ensures role == Student && c.studentId != callerId ==> r == Some(NOT_OWNER)
    ensures role == Student && c.studentId == callerId && status == "pending" ==> r == Some(STUDENT_REOPENS)
  {
    match role
    case Secretary => None
    case Student =>
      if c.studentId != callerId then Some(NOT_OWNER)
      else if status == "pending" then Some(STUDENT_REOPENS)
      else None
  }

  /** What `findByIdAndUpdate(complaintId, { status, resolvedAt })` writes:
      the requested status, `resolvedAt` stamped when it is 'resolved' and
      cleared otherwise, and nothing else. */
  function WithStatus(c: Complaint, status: string, now: int): (r: Complaint)
    ensures r.status == StatusOf(status)
    ensures r.resolvedAt.Some? <==> r.status == Resolved
    ensures r.resolvedAt.Some? ==> r.resolvedAt.value == now
    ensures r.(status := c.status, resolvedAt := c.resolvedAt) == c
  {
    c.(status := StatusOf(status), resolvedAt := if status == "resolved" then Some(now) else None)
  }

  /** The transitions the two checks allow, as a table over the stored
      status: the owner moves a complaint to `resolved`; only a secretary
      moves it back to `pending`; nobody else changes it. */
  lemma TransitionTable(c: Complaint, callerId: nat, now: int)
    ensures StatusCheck(Student, c.studentId, c, "resolved").None?
    ensures WithStatus(c, "resolved", now).status == Resolved && WithStatus(c, "resolved", now).resolvedAt == Some(now)
    ensures StatusCheck(Student, callerId, c, "pending").Some?
    ensures StatusCheck(Secretary, callerId, c, "pending").None?
    ensures WithStatus(c, "pending", now).status == Pending && WithStatus(c, "pending", now).resolvedAt.None?
    ensures callerId != c.studentId ==> StatusCheck(Student, callerId, c, "resolved") == Some(NOT_OWNER)
  {
  }

  /** GET /complaints: secretaries only. A caller without an account makes
      `user.role` throw, which the handler answers with 500. */
  function AllComplaints(users: seq<User>, complaints: seq<Complaint>, callerId: nat): (r: Listing<Complaint>)
    ensures r.Listed? <==> CallerRole(users, callerId) == Some(Secretary)
    ensures r.Listed? ==> r.items == complaints
    ensures CallerRole(users, callerId) == Some(Student) ==> r == Refused(Response(FORBIDDEN, "Only secretaries can view complaints"))
    ensures CallerRole(users, callerId).None? ==> r == Refused(ServerError)
  {
    match CallerRole(users, callerId)
    case None => Refused(ServerError)
    case Some(role) =>
      if role != Secretary then Refused(Response(FORBIDDEN, "Only secretaries can view complaints"))
      else Listed(complaints)
  }

  /** `Complaint.find({ studentId })`, in insertion order. */
  function OwnedBy(complaints: seq<Complaint>, studentId: nat): (r: seq<Complaint>)
    ensures forall c :: c in r <==> c in complaints && c.studentId == studentId
    ensures forall c :: multiset(r)[c] == if c.studentId == studentId then multiset(complaints)[c] else 0
    ensures multiset(r) <= multiset(complaints)
    decreases |complaints|
  {
    if |complaints| == 0 then []
    else
      assert complaints == [complaints[0]] + complaints[1..];
      var rest := OwnedBy(complaints[1..], studentId);
      if complaints[0].studentId == studentId then [complaints[0]] + rest else rest
  }

  /** GET /complaints/my-complaints: exactly the caller's complaints, newest first. */
  function MyComplaints(complaints: seq<Complaint>, studentId: nat): (r: seq<Complaint>)
    ensures forall c :: c in r <==> c in complaints && c.studentId == studentId
    ensures multiset(r) == multiset(OwnedBy(complaints, studentId))
    ensures SortedDesc(r, ComplaintCreatedAt)
  {
    var r := SortDesc(OwnedBy(complaints, studentId), ComplaintCreatedAt);
    assert forall c :: c in r <==> c in multiset(r);
    r
  }
}

/** Record shapes of Backend/models/Complaint.js. */
module ComplaintModel {
  import opened Common

  /** The schema's enum is `pending`/`resolved`. `updateComplaintStatus` writes
      through `findByIdAndUpdate`, which runs no validators, so any other text
      it is given is stored as it is: `Unlisted` holds such a text. */
  datatype ComplaintStatus = Pending | Resolved | Unlisted(text: string)

  /** The status a text denotes once stored. */
  function StatusOf(s: string): (r: ComplaintStatus)
    ensures r == Pending <==> s == "pending"
    ensures r == Resolved <==> s == "resolved"
    ensures r.Unlisted? ==> r.text == s
  {
    if s == "pending" then Pending
    else if s == "resolved" then Resolved
    else Unlisted(s)
  }

  /** The schema's default status. */
  const DEFAULT_STATUS: ComplaintStatus := Pending

  /** A reply: two optional author fields, a required message, the time it was
      added. The schema does not make the author fields exclusive. */
  datatype ComplaintReply = ComplaintReply(
    secretaryId: Option<nat>,
    studentId: Option<nat>,
    message: string,
    repliedAt: int)

  datatype Complaint = Complaint(
    id: nat,
    studentId: nat,
    text: string,
    imageUrl: Option<string>,
    status: ComplaintStatus,
    replies: seq<ComplaintReply>,
    createdAt: int,
    resolvedAt: Option<int>)

  function ComplaintId(c: Complaint): nat { c.id }
  function ComplaintCreatedAt(c: Complaint): int { c.createdAt }

  /** A complaint as `submitComplaint` creates it: owned by the caller, in the
      default status, without replies or resolution time. */
  function NewComplaint(id: nat, studentId: nat, text: string, imageUrl: Option<string>, now: int): Complaint
  {
    Complaint(id, studentId, text, imageUrl, DEFAULT_STATUS, [], now, None)
  }
}

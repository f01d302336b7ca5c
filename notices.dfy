/** The notice log of Backend/controllers/noticeController.js. The Notice
    schema file is not part of this model, so no field is validated. */
module Notices {
  import opened Ordering

  datatype Notice = Notice(title: string, message: string, createdBy: nat, createdAt: int)

  function NoticeCreatedAt(n: Notice): int { n.createdAt }

  /** GET /notices: every notice, newest first; the route has no gate. */
  function NoticesNewestFirst(notices: seq<Notice>): (r: seq<Notice>)
    ensures multiset(r) == multiset(notices)
    ensures SortedDesc(r, NoticeCreatedAt)
  {
    SortDesc(notices, NoticeCreatedAt)
  }

  /** Creating a notice, then listing: the new notice is listed, and when it
      is stamped no earlier than every logged notice it heads the listing
      (up to another notice with the same time). */
  lemma CreatedNoticeIsListed(notices: seq<Notice>, n: Notice)
    ensures n in NoticesNewestFirst(notices + [n])
    ensures (forall i :: 0 <= i < |notices| ==> notices[i].createdAt <= n.createdAt) ==>
      NoticesNewestFirst(notices + [n])[0].createdAt == n.createdAt
  {
    var all := notices + [n];
    var r := NoticesNewestFirst(all);
    assert n in multiset(all);
    assert n in multiset(r);
    var k :| 0 <= k < |r| && r[k] == n;
    assert NoticeCreatedAt(r[0]) >= NoticeCreatedAt(r[k]);
    assert r[0] in multiset(all);
    var j :| 0 <= j < |all| && all[j] == r[0];
    if j < |notices| {
      assert all[j] == notices[j];
    }
  }
}

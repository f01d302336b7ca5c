/** The allow-list of Backend/routes/allowedEmailsRoutes.js (shape from
    Backend/models/AllowedEmail.js): emails permitted to self-register. */
module AllowedEmails {
  import opened Common

  datatype AllowedEmail = AllowedEmail(id: nat, email: string)

  function EntryId(a: AllowedEmail): nat { a.id }
  function EntryEmail(a: AllowedEmail): string { a.email }

  /** The schema's `unique: true` on email. */
  ghost predicate Unique(list: seq<AllowedEmail>)
  {
    forall i, j :: 0 <= i < j < |list| ==> list[i].email != list[j].email
  }

  /** `AllowedEmail.findOne({ email })` found something. */
  predicate IsAllowed(list: seq<AllowedEmail>, email: string)
  {
    exists i :: 0 <= i < |list| && list[i].email == email
  }

  /** Adding an email that is not listed keeps emails unique. */
  lemma AddKeepsUnique(list: seq<AllowedEmail>, entry: AllowedEmail)
    requires Unique(list) && !IsAllowed(list, entry.email)
    ensures Unique(list + [entry])
    ensures IsAllowed(list + [entry], entry.email)
  {
    var all := list + [entry];
    assert all[|list|] == entry;
    forall i, j | 0 <= i < j < |all| ensures all[i].email != all[j].email {
      assert all[i] == list[i];
      if j < |list| { assert all[j] == list[j]; }
    }
  }

  /** Removing an entry keeps emails unique, and its email is no longer listed. */
  lemma RemoveKeepsUnique(list: seq<AllowedEmail>, i: nat)
    requires Unique(list) && i < |list|
    ensures Unique(RemoveAt(list, i))
    ensures !IsAllowed(RemoveAt(list, i), list[i].email)
  {
    var r := RemoveAt(list, i);
    forall a, b | 0 <= a < b < |r| ensures r[a].email != r[b].email {
      var a' := if a < i then a else a + 1;
      var b' := if b < i then b else b + 1;
      assert r[a] == list[a'] && r[b] == list[b'];
    }
    forall a | 0 <= a < |r| ensures r[a].email != list[i].email {
      var a' := if a < i then a else a + 1;
      assert r[a] == list[a'];
    }
  }

  /** GET /allowed-emails: every entry, with no gate. */
  function ListAllowed(list: seq<AllowedEmail>): seq<AllowedEmail>
  {
    list
  }
}

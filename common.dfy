/** Shared vocabulary of the backend model: optional values, the status and
    message of a JSON response, and lookups in document collections that are
    kept in insertion order. */
module Common {

  datatype Option<+T> = None | Some(value: T)

  /** The HTTP status of a handler's answer and the `message` of its JSON body. */
  datatype Response = Response(status: nat, message: string)

  const OK: nat := 200
  const CREATED: nat := 201
  const BAD_REQUEST: nat := 400
  const UNAUTHORIZED: nat := 401
  const FORBIDDEN: nat := 403
  const NOT_FOUND: nat := 404
  const CONFLICT: nat := 409
  const SERVER_ERROR: nat := 500

  /** Any failure the handler's `catch` block turns into a 500. */
  const ServerError := Response(SERVER_ERROR, "Server error")

  /** The answer of a read handler: the documents, or an error response. */
  datatype Listing<T> = Listed(items: seq<T>) | Refused(response: Response)

  /** Position of the first document whose key is `k`, as `findOne` and
      `findIndex` return the first match. */
  function IndexOf<T, K(==)>(s: seq<T>, key: T -> K, k: K): (r: Option<nat>)
    ensures r.Some? ==> r.value < |s| && key(s[r.value]) == k
    ensures r.Some? ==> forall j :: 0 <= j < r.value ==> key(s[j]) != k
    ensures r.None? <==> forall j :: 0 <= j < |s| ==> key(s[j]) != k
    decreases |s|
  {
    if |s| == 0 then None
    else if key(s[0]) == k then Some(0)
    else match IndexOf(s[1..], key, k)
      case None => None
      case Some(j) => Some(j + 1)
  }

  /** Document ids are assigned from one counter: in every collection they are
      strictly increasing in insertion order and below the counter. */
  ghost predicate IdsOrdered<T>(s: seq<T>, id: T -> nat, bound: nat)
  {
    && (forall i, j :: 0 <= i < j < |s| ==> id(s[i]) < id(s[j]))
    && (forall i :: 0 <= i < |s| ==> id(s[i]) < bound)
  }

  /** With ordered ids, the document carrying an id is the one `IndexOf` finds. */
  lemma IdLookupIsExact<T>(s: seq<T>, id: T -> nat, bound: nat, i: nat)
    requires IdsOrdered(s, id, bound) && i < |s|
    ensures IndexOf(s, id, id(s[i])) == Some(i)
  {
  }

  /** A document stamped with the counter's value may be appended once the
      counter moves on. */
  lemma IdsOrderedAppend<T>(s: seq<T>, id: T -> nat, bound: nat, x: T)
    requires IdsOrdered(s, id, bound) && id(x) == bound
    ensures IdsOrdered(s + [x], id, bound + 1)
  {
  }

  /** Rewriting a document in place under its own id keeps the ids ordered. */
  lemma IdsOrderedReplace<T>(s: seq<T>, id: T -> nat, bound: nat, i: nat, x: T)
    requires IdsOrdered(s, id, bound) && i < |s| && id(x) == id(s[i])
    ensures IdsOrdered(s[i := x], id, bound)
  {
    var r := s[i := x];
    assert forall k :: 0 <= k < |s| ==> id(r[k]) == id(s[k]);
  }

  /** The collection without its `i`-th document, as `findByIdAndDelete` leaves it. */
  function RemoveAt<T>(s: seq<T>, i: nat): (r: seq<T>)
    requires i < |s|
    ensures |r| == |s| - 1
    ensures forall j :: 0 <= j < i ==> r[j] == s[j]
    ensures forall j :: i <= j < |r| ==> r[j] == s[j + 1]
  {
    s[..i] + s[i + 1..]
  }

  lemma IdsOrderedRemove<T>(s: seq<T>, id: T -> nat, bound: nat, i: nat)
    requires IdsOrdered(s, id, bound) && i < |s|
    ensures IdsOrdered(RemoveAt(s, i), id, bound)
  {
    var r := RemoveAt(s, i);
    forall a, b | 0 <= a < b < |r| ensures id(r[a]) < id(r[b]) {
      var a' := if a < i then a else a + 1;
      var b' := if b < i then b else b + 1;
      assert r[a] == s[a'] && r[b] == s[b'];
    }
  }

  /** One email handed to `sendEmail`, which swallows delivery errors: a send
      never fails the request that triggers it. */
  datatype Mail = Mail(to: string, subject: string)

  /** One mail per recipient, in recipient order. */
  function MailsTo(recipients: seq<string>, subject: string): (r: seq<Mail>)
    ensures |r| == |recipients|
    ensures forall i :: 0 <= i < |r| ==> r[i] == Mail(recipients[i], subject)
  {
    seq(|recipients|, i requires 0 <= i < |recipients| => Mail(recipients[i], subject))
  }
}

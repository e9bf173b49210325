/**
 * The ticket collection as a value: its records, the two store operations the
 * routine uses on it (an equality query reduced to its first document, and a
 * partial update by `$id`), and the invariants a well-kept collection has.
 */
module TicketDocs {
  import opened JsValues

  /** The store-assigned `$id` of a record (opaque; only equality matters). */
  type DocId = nat

  /** A ticket record: `$id`, sequence number `id`, `gh_user`, `aw_email`, `name`. */
  datatype Ticket = Ticket(
    docId: DocId,
    id: int,
    ghUser: Option<string>,
    awEmail: Option<string>,
    name: Option<string>)

  /** The identity attributes an update payload may write. */
  datatype Patch = Patch(ghUser: Write, awEmail: Write)

  function Written(f: Option<string>, w: Write): Option<string>
  {
    match w
    case Keep => f
    case Put(v) => v
  }

  /** `updateDocument` on one record: only the properties present in the payload change. */
  function ApplyPatch(t: Ticket, p: Patch): (r: Ticket)
    ensures r.docId == t.docId && r.id == t.id && r.name == t.name
    ensures p.ghUser.Keep? ==> r.ghUser == t.ghUser
    ensures p.awEmail.Keep? ==> r.awEmail == t.awEmail
    ensures p.ghUser.Put? ==> r.ghUser == p.ghUser.value
    ensures p.awEmail.Put? ==> r.awEmail == p.awEmail.value
  {
    t.(ghUser := Written(t.ghUser, p.ghUser), awEmail := Written(t.awEmail, p.awEmail))
  }

  /** `updateDocument(key, p)` on the collection: every record stored under `key` is patched. */
  function UpdateById(docs: seq<Ticket>, key: DocId, p: Patch): seq<Ticket>
  {
    seq(|docs|, i requires 0 <= i < |docs| =>
      if docs[i].docId == key then ApplyPatch(docs[i], p) else docs[i])
  }

  /** The attributes the routine queries on. */
  datatype Attr = GhUser | AwEmail

  function Field(t: Ticket, a: Attr): Option<string>
  {
    match a
    case GhUser => t.ghUser
    case AwEmail => t.awEmail
  }

  /**
   * `Query.equal(a, v)`: the attribute equals the string `v`. A `null` or
   * `undefined` filter value matches no record.
   */
  predicate Matches(t: Ticket, a: Attr, v: JsStr)
  {
    v.Str? && Field(t, a) == Some(v.s)
  }

  /**
   * `listDocuments` with `Query.equal(a, v)` followed by `documents[0]`:
   * the position of the first record, in insertion order, that matches.
   */
  function FirstMatch(docs: seq<Ticket>, a: Attr, v: JsStr): (r: Option<nat>)
    ensures r.Some? ==> r.value < |docs| && Matches(docs[r.value], a, v)
    ensures r.Some? ==> forall j | 0 <= j < r.value :: !Matches(docs[j], a, v)
    ensures r.None? ==> forall j | 0 <= j < |docs| :: !Matches(docs[j], a, v)
  {
    if docs == [] then None
    else if Matches(docs[0], a, v) then Some(0)
    else
      match FirstMatch(docs[1..], a, v)
      case None => None
      case Some(k) => Some(k + 1)
  }

  /** The store keeps `$id`s unique. */
  ghost predicate UniqueKeys(docs: seq<Ticket>)
  {
    forall i, j | 0 <= i < j < |docs| :: docs[i].docId != docs[j].docId
  }

  /** At most one record carries a given (truthy) value of attribute `a`. */
  ghost predicate UniqueOn(docs: seq<Ticket>, a: Attr)
  {
    forall i, j | 0 <= i < |docs| && 0 <= j < |docs| && i != j && Present(Field(docs[i], a)) ::
      Field(docs[i], a) != Field(docs[j], a)
  }

  /** Sequence numbers are 1, 2, ..., N in insertion order. */
  ghost predicate Sequenced(docs: seq<Ticket>)
  {
    forall i | 0 <= i < |docs| :: docs[i].id == i + 1
  }

  /** No two records share a sequence number. */
  ghost predicate DistinctIds(docs: seq<Ticket>)
  {
    forall i, j | 0 <= i < j < |docs| :: docs[i].id != docs[j].id
  }

  /** With unique `$id`s an update by `$id` rewrites exactly one position. */
  lemma UpdateAt(docs: seq<Ticket>, i: nat, p: Patch)
    requires UniqueKeys(docs) && i < |docs|
    ensures UpdateById(docs, docs[i].docId, p) == docs[i := ApplyPatch(docs[i], p)]
  {
    var u := UpdateById(docs, docs[i].docId, p);
    forall j | 0 <= j < |docs|
      ensures u[j] == docs[i := ApplyPatch(docs[i], p)][j]
    {
      if j != i {
        assert docs[j].docId != docs[i].docId by {
          if j < i {} else {}
        }
      }
    }
  }

  /** An update never changes a `$id`, so unique `$id`s stay unique. */
  lemma UpdateKeepsKeys(docs: seq<Ticket>, key: DocId, p: Patch)
    requires UniqueKeys(docs)
    ensures UniqueKeys(UpdateById(docs, key, p))
    ensures forall i | 0 <= i < |docs| :: UpdateById(docs, key, p)[i].docId == docs[i].docId
  {
  }
}

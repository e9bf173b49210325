/**
 * The decision `getTicketDocByUser` makes, as a function of the collection it
 * reads: the two guarded lookups, the choice between merge, backfill,
 * pass-through and create, and the collection and record that result.
 */
module Reconciliation {
  import opened JsValues
  import opened TicketDocs

  /**
   * The partially known user: `github.login`, `github.name`, `appwrite.$id`,
   * `appwrite.email` and `appwrite.name`. A missing `github` or `appwrite`
   * object reads as `undefined` for each of its properties.
   */
  datatype User = User(ghLogin: JsStr, ghName: JsStr, awId: JsStr, awEmail: JsStr, awName: JsStr)

  /**
   * The GitHub lookup: run only when the login is truthy, on `gh_user`,
   * keeping the first match.
   */
  function GhLookup(docs: seq<Ticket>, user: User): (r: Option<nat>)
    ensures r.Some? ==> Truthy(user.ghLogin)
    ensures r.Some? ==> r.value < |docs| && docs[r.value].ghUser == Some(user.ghLogin.s)
    ensures r.Some? ==> forall j | 0 <= j < r.value :: docs[j].ghUser != Some(user.ghLogin.s)
    ensures r.None? && Truthy(user.ghLogin) ==>
      forall j | 0 <= j < |docs| :: docs[j].ghUser != Some(user.ghLogin.s)
  {
    if Truthy(user.ghLogin) then FirstMatch(docs, GhUser, user.ghLogin) else None
  }

  /**
   * The Appwrite lookup: guarded on `appwrite.$id` but filtering `aw_email`
   * by `appwrite.email`, keeping the first match.
   */
  function AwLookup(docs: seq<Ticket>, user: User): (r: Option<nat>)
    ensures r.Some? ==> Truthy(user.awId) && user.awEmail.Str?
    ensures r.Some? ==> r.value < |docs| && docs[r.value].awEmail == Some(user.awEmail.s)
    ensures r.Some? ==> forall j | 0 <= j < r.value :: docs[j].awEmail != Some(user.awEmail.s)
    ensures r.None? && Truthy(user.awId) && user.awEmail.Str? ==>
      forall j | 0 <= j < |docs| :: docs[j].awEmail != Some(user.awEmail.s)
  {
    if Truthy(user.awId) then FirstMatch(docs, AwEmail, user.awEmail) else None
  }

  /** `gh.id < aw.id ? gh.$id : aw.$id` */
  function Oldest(g: Ticket, a: Ticket): DocId
  {
    if g.id < a.id then g.docId else a.docId
  }

  /** `gh.id > aw.id ? gh.$id : aw.$id` */
  function Newest(g: Ticket, a: Ticket): DocId
  {
    if g.id > a.id then g.docId else a.docId
  }

  /** `gh_doc ?? aw_doc` */
  function Pick<T>(gh: Option<T>, aw: Option<T>): Option<T>
  {
    if gh.Some? then gh else aw
  }

  /** `!doc.gh_user || !doc.aw_email` */
  predicate MissingKey(doc: Ticket)
  {
    !Present(doc.ghUser) || !Present(doc.awEmail)
  }

  /** The payload `{ gh_user: null, aw_email: null }` that orphans a record. */
  function OrphanPatch(): Patch
  {
    Patch(Put(None), Put(None))
  }

  /** The payload `{ gh_user: user.github?.login, aw_email: user.appwrite?.email }`. */
  function KeyPatch(user: User): Patch
  {
    Patch(Serialised(user.ghLogin), Serialised(user.awEmail))
  }

  /** The record `createDocument` stores when `total` records exist already. */
  function NewTicket(key: DocId, total: nat, user: User): Ticket
  {
    Ticket(
      key,
      total + 1,
      Stored(Coalesce(user.ghLogin, Undefined)),
      Stored(Coalesce(user.awEmail, Undefined)),
      Stored(Coalesce(user.awName, user.ghName)))
  }

  /** The collection afterwards, the record returned, and how many writes were issued. */
  datatype Outcome = Outcome(docs: seq<Ticket>, doc: Ticket, writes: nat)

  /** Whether the run takes the merge branch. */
  predicate IsMerge(docs: seq<Ticket>, user: User)
  {
    var gh, aw := GhLookup(docs, user), AwLookup(docs, user);
    gh.Some? && aw.Some? && docs[gh.value].docId != docs[aw.value].docId
  }

  /**
   * `getTicketDocByUser(user)` on a collection `docs`, where `freshKey` is the
   * `$id` that `ID.unique()` would produce.
   */
  function Reconciled(docs: seq<Ticket>, freshKey: DocId, user: User): (o: Outcome)
    ensures o.writes <= 2
    ensures o.writes == 2 <==> IsMerge(docs, user)
    ensures o.writes == 0 ==> o.docs == docs
  {
    var gh, aw := GhLookup(docs, user), AwLookup(docs, user);
    if gh.Some? || aw.Some? then
      if IsMerge(docs, user) then
        var g, a := docs[gh.value], docs[aw.value];
        var oldest, newest := Oldest(g, a), Newest(g, a);
        var after := UpdateById(UpdateById(docs, oldest, OrphanPatch()), newest, KeyPatch(user));
        Outcome(after, after[if newest == g.docId then gh.value else aw.value], 2)
      else
        var at := Pick(gh, aw).value;
        if MissingKey(docs[at]) then
          var after := UpdateById(docs, docs[at].docId, KeyPatch(user));
          Outcome(after, after[at], 1)
        else
          Outcome(docs, docs[at], 0)
    else
      var t := NewTicket(freshKey, |docs|, user);
      Outcome(docs + [t], t, 1)
  }
}

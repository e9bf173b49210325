/**
 * The ticket collection as mutable state, with the store calls the routine
 * issues, and `getTicketDocByUser` as a method that issues them in the
 * routine's order. Its effect is proved equal to `Reconciled`.
 */
module TicketStore {
  import opened JsValues
  import opened TicketDocs
  import opened Reconciliation
  import ReconcileProperties

  class Collection {
    /** The records, in insertion order. */
    var docs: seq<Ticket>
    /** The `$id` the next `ID.unique()` hands out. */
    var nextKey: DocId
    /** The number of `updateDocument` and `createDocument` calls so far. */
    ghost var writes: nat

    ghost predicate Valid()
      reads this
    {
      && UniqueKeys(docs)
      && forall i | 0 <= i < |docs| :: docs[i].docId < nextKey
    }

    constructor ()
      ensures Valid() && docs == [] && writes == 0
    {
      docs := [];
      nextKey := 0;
      writes := 0;
    }

    /** `listDocuments([Query.equal(a, v)]).documents[0]`, undefined when nothing matches. */
    method ListFirst(a: Attr, v: JsStr) returns (r: Option<Ticket>)
      ensures r.Some? ==> Matches(r.value, a, v)
      ensures r.Some? ==>
        exists i | 0 <= i < |docs| :: r.value == docs[i] && forall j | 0 <= j < i :: !Matches(docs[j], a, v)
      ensures r.None? <==> forall j | 0 <= j < |docs| :: !Matches(docs[j], a, v)
    {
      var i := FirstMatch(docs, a, v);
      r := if i.Some? then Some(docs[i.value]) else None;
    }

    /** `listDocuments().total` */
    method Total() returns (n: nat)
      ensures n == |docs|
    {
      n := |docs|;
    }

    /** `ID.unique()`: a `$id` no record has. */
    method UniqueId() returns (k: DocId)
      requires Valid()
      modifies this`nextKey
      ensures Valid()
      ensures forall i | 0 <= i < |docs| :: docs[i].docId != k
      ensures nextKey == old(nextKey) + 1 && k == old(nextKey)
    {
      k := nextKey;
      nextKey := nextKey + 1;
    }

    /** `createDocument(t.docId, ...)`: appends the record and returns it. */
    method CreateDocument(t: Ticket) returns (created: Ticket)
      requires Valid()
      requires t.docId < nextKey && forall i | 0 <= i < |docs| :: docs[i].docId != t.docId
      modifies this`docs, this`writes
      ensures Valid()
      ensures docs == old(docs) + [t] && created == t
      ensures writes == old(writes) + 1
    {
      docs := docs + [t];
      writes := writes + 1;
      created := t;
    }

    /** `updateDocument(key, p)`: patches the record stored under `key` and returns it. */
    method UpdateDocument(key: DocId, p: Patch) returns (updated: Ticket)
      requires Valid()
      requires exists i | 0 <= i < |docs| :: docs[i].docId == key
      modifies this`docs, this`writes
      ensures Valid()
      ensures docs == UpdateById(old(docs), key, p)
      ensures forall i | 0 <= i < |docs| && docs[i].docId == key :: updated == docs[i]
      ensures writes == old(writes) + 1
    {
      var i :| 0 <= i < |docs| && docs[i].docId == key;
      UpdateKeepsKeys(docs, key, p);
      docs := UpdateById(docs, key, p);
      writes := writes + 1;
      updated := docs[i];
    }

    /**
     * The merge branch: orphan the record with the smaller sequence number, then
     * write the user's keys to the one with the larger and return it.
     */
    method MergeMatches(g: Ticket, a: Ticket, user: User) returns (doc: Ticket)
      requires Valid() && IsMerge(docs, user)
      requires g == docs[GhLookup(docs, user).value] && a == docs[AwLookup(docs, user).value]
      modifies this`docs, this`writes
      ensures Valid()
      ensures var o := Reconciled(old(docs), nextKey, user);
        docs == o.docs && doc == o.doc && writes == old(writes) + o.writes
    {
      ReconcileProperties.MergeShape(docs, nextKey, user);
      var oldest := Oldest(g, a);
      var newest := Newest(g, a);
      var _ := UpdateDocument(oldest, OrphanPatch());
      doc := UpdateDocument(newest, KeyPatch(user));
    }

    /** The backfill branch: write the user's defined keys to a record missing one. */
    method BackfillKeys(d: Ticket, user: User) returns (doc: Ticket)
      requires Valid() && !IsMerge(docs, user) && MissingKey(d)
      requires Pick(GhLookup(docs, user), AwLookup(docs, user)).Some?
      requires d == docs[Pick(GhLookup(docs, user), AwLookup(docs, user)).value]
      modifies this`docs, this`writes
      ensures Valid()
      ensures var o := Reconciled(old(docs), nextKey, user);
        docs == o.docs && doc == o.doc && writes == old(writes) + o.writes
    {
      ReconcileProperties.SingleMatchBackfills(docs, nextKey, user);
      doc := UpdateDocument(d.docId, KeyPatch(user));
    }

    /** The count-and-create branch: count the records, then create one numbered one past the count. */
    method CreateTicket(user: User) returns (doc: Ticket)
      requires Valid() && GhLookup(docs, user).None? && AwLookup(docs, user).None?
      modifies this
      ensures Valid()
      ensures var o := Reconciled(old(docs), old(nextKey), user);
        docs == o.docs && doc == o.doc && writes == old(writes) + o.writes
      ensures nextKey == old(nextKey) + 1
    {
      var total := Total();
      var key := UniqueId();
      doc := CreateDocument(NewTicket(key, total, user));
    }

    /**
     * The routine: both guarded lookups on the same state, then merge,
     * backfill, pass-through or count-and-create.
     */
    method GetTicketDocByUser(user: User) returns (doc: Ticket)
      requires Valid()
      modifies this
      ensures Valid()
      ensures var o := Reconciled(old(docs), old(nextKey), user);
        && docs == o.docs
        && doc == o.doc
        && writes == old(writes) + o.writes
      ensures nextKey == old(nextKey) + (|docs| - |old(docs)|)
    {
      ghost var gi, ai := GhLookup(docs, user), AwLookup(docs, user);
      var gh: Option<Ticket> := None;
      if Truthy(user.ghLogin) {
        gh := ListFirst(GhUser, user.ghLogin);
      }
      var aw: Option<Ticket> := None;
      if Truthy(user.awId) {
        aw := ListFirst(AwEmail, user.awEmail);
      }
      assert gh.Some? <==> gi.Some?;
      assert gh.Some? ==> gh.value == docs[gi.value];
      assert aw.Some? <==> ai.Some?;
      assert aw.Some? ==> aw.value == docs[ai.value];
      if gh.Some? || aw.Some? {
        if gh.Some? && aw.Some? && gh.value.docId != aw.value.docId {
          doc := MergeMatches(gh.value, aw.value, user);
          return;
        }
        var d := Pick(gh, aw).value;
        if MissingKey(d) {
          doc := BackfillKeys(d, user);
          return;
        }
        doc := d;
      } else {
        doc := CreateTicket(user);
      }
    }
  }
}

/**
 * What `getTicketDocByUser` guarantees, stated over `Reconciled`: the outcome
 * of each branch, what no branch touches, the store invariants it keeps, and
 * that a second run for a fully known user writes nothing.
 */
module ReconcileProperties {
  import opened JsValues
  import opened TicketDocs
  import opened Reconciliation

  /**
   * `oldest` and `newest` name different records exactly when the sequence
   * numbers differ; on a tie both name the Appwrite match.
   */
  lemma OldestNewest(g: Ticket, a: Ticket)
    requires g.docId != a.docId
    ensures Oldest(g, a) != Newest(g, a) <==> g.id != a.id
    ensures g.id < a.id ==> Oldest(g, a) == g.docId && Newest(g, a) == a.docId
    ensures g.id > a.id ==> Oldest(g, a) == a.docId && Newest(g, a) == g.docId
    ensures g.id == a.id ==> Oldest(g, a) == a.docId && Newest(g, a) == a.docId
  {
  }

  /**
   * No lookup hit: exactly one record is appended, numbered one past the
   * current count, keyed by the login and the email (null when absent) and
   * named after the Appwrite name, else the GitHub name; nothing else changes.
   */
  lemma NoMatchCreates(docs: seq<Ticket>, key: DocId, user: User)
    requires GhLookup(docs, user).None? && AwLookup(docs, user).None?
    ensures var o := Reconciled(docs, key, user);
      && o.docs == docs + [o.doc]
      && o.doc.docId == key
      && o.doc.id == |docs| + 1
      && o.doc.ghUser == (if user.ghLogin.Str? then Some(user.ghLogin.s) else None)
      && o.doc.awEmail == (if user.awEmail.Str? then Some(user.awEmail.s) else None)
      && o.doc.name == (if user.awName.Str? then Some(user.awName.s)
                        else if user.ghName.Str? then Some(user.ghName.s) else None)
      && o.writes == 1
  {
  }

  /** A record is created on the no-match path and on no other. */
  lemma CreatesOnlyWhenNoMatch(docs: seq<Ticket>, key: DocId, user: User)
    ensures var o := Reconciled(docs, key, user);
      |o.docs| == |docs| + (if GhLookup(docs, user).None? && AwLookup(docs, user).None? then 1 else 0)
  {
  }

  /**
   * No path removes a record or changes a `$id`, a sequence number or a
   * name; only `gh_user` and `aw_email` are ever written.
   */
  lemma RecordsStable(docs: seq<Ticket>, key: DocId, user: User)
    ensures var o := Reconciled(docs, key, user);
      && |docs| <= |o.docs| <= |docs| + 1
      && forall i | 0 <= i < |docs| ::
           && o.docs[i].docId == docs[i].docId
           && o.docs[i].id == docs[i].id
           && o.docs[i].name == docs[i].name
  {
    var o := Reconciled(docs, key, user);
    var gh, aw := GhLookup(docs, user), AwLookup(docs, user);
    if IsMerge(docs, user) {
      var g, a := docs[gh.value], docs[aw.value];
      var mid := UpdateById(docs, Oldest(g, a), OrphanPatch());
      assert o.docs == UpdateById(mid, Newest(g, a), KeyPatch(user));
    }
  }

  /** The merge branch, both for distinct and for equal sequence numbers. */
  lemma MergeShape(docs: seq<Ticket>, key: DocId, user: User)
    requires UniqueKeys(docs) && IsMerge(docs, user)
    ensures var gi, ai := GhLookup(docs, user).value, AwLookup(docs, user).value;
      var lo := if docs[gi].id < docs[ai].id then gi else ai;
      var hi := if docs[gi].id > docs[ai].id then gi else ai;
      var o := Reconciled(docs, key, user);
      && o.docs == docs[lo := docs[lo].(ghUser := None, awEmail := None)]
                       [hi := docs[hi].(ghUser := Some(user.ghLogin.s), awEmail := Some(user.awEmail.s))]
      && o.doc == o.docs[hi]
      && o.writes == 2
  {
    var gi, ai := GhLookup(docs, user).value, AwLookup(docs, user).value;
    var g, a := docs[gi], docs[ai];
    var lo := if g.id < a.id then gi else ai;
    var hi := if g.id > a.id then gi else ai;
    assert Oldest(g, a) == docs[lo].docId;
    assert Newest(g, a) == docs[hi].docId;
    var mid := UpdateById(docs, docs[lo].docId, OrphanPatch());
    UpdateAt(docs, lo, OrphanPatch());
    UpdateKeepsKeys(docs, docs[lo].docId, OrphanPatch());
    UpdateAt(mid, hi, KeyPatch(user));
    var keyed := docs[hi].(ghUser := Some(user.ghLogin.s), awEmail := Some(user.awEmail.s));
    assert ApplyPatch(mid[hi], KeyPatch(user)) == keyed;
  }

  /**
   * Two distinct matches with different sequence numbers: the older record
   * is orphaned, the newer one carries the login and the email and is
   * returned, and no other record changes.
   */
  lemma MergeOrphansOlder(docs: seq<Ticket>, key: DocId, user: User)
    requires UniqueKeys(docs) && IsMerge(docs, user)
    requires docs[GhLookup(docs, user).value].id != docs[AwLookup(docs, user).value].id
    ensures var gi, ai := GhLookup(docs, user).value, AwLookup(docs, user).value;
      var older := if docs[gi].id < docs[ai].id then gi else ai;
      var newer := if docs[gi].id < docs[ai].id then ai else gi;
      var o := Reconciled(docs, key, user);
      && older != newer
      && |o.docs| == |docs|
      && o.docs[older] == docs[older].(ghUser := None, awEmail := None)
      && o.docs[newer] == docs[newer].(ghUser := Some(user.ghLogin.s), awEmail := Some(user.awEmail.s))
      && o.doc == o.docs[newer]
      && (forall j | 0 <= j < |docs| && j != older && j != newer :: o.docs[j] == docs[j])
      && o.writes == 2
  {
    MergeShape(docs, key, user);
  }

  /**
   * Two distinct matches with equal sequence numbers: both names resolve to
   * the Appwrite match, which ends re-keyed and is returned; the GitHub match
   * is untouched, so two records now carry the login.
   */
  lemma MergeTieKeepsGitHubMatch(docs: seq<Ticket>, key: DocId, user: User)
    requires UniqueKeys(docs) && IsMerge(docs, user)
    requires docs[GhLookup(docs, user).value].id == docs[AwLookup(docs, user).value].id
    ensures var gi, ai := GhLookup(docs, user).value, AwLookup(docs, user).value;
      var o := Reconciled(docs, key, user);
      && o.docs == docs[ai := docs[ai].(ghUser := Some(user.ghLogin.s), awEmail := Some(user.awEmail.s))]
      && o.doc == o.docs[ai]
      && o.docs[gi] == docs[gi]
      && gi != ai && o.docs[gi].ghUser == o.docs[ai].ghUser
      && o.writes == 2
  {
    MergeShape(docs, key, user);
  }

  /**
   * One record matched (possibly by both lookups): it is the GitHub match in
   * preference to the Appwrite one. If a key is missing, the user fields that
   * are defined are written to it and it is returned updated.
   */
  lemma SingleMatchBackfills(docs: seq<Ticket>, key: DocId, user: User)
    requires UniqueKeys(docs)
    requires GhLookup(docs, user).Some? || AwLookup(docs, user).Some?
    requires !IsMerge(docs, user)
    ensures var gh, aw := GhLookup(docs, user), AwLookup(docs, user);
      var at := if gh.Some? then gh.value else aw.value;
      var o := Reconciled(docs, key, user);
      && (gh.Some? && aw.Some? ==> gh.value == aw.value)
      && (MissingKey(docs[at]) ==>
            && o.docs == docs[at := o.doc]
            && o.doc.docId == docs[at].docId && o.doc.id == docs[at].id && o.doc.name == docs[at].name
            && o.doc.ghUser == (if user.ghLogin.Undefined? then docs[at].ghUser else Stored(user.ghLogin))
            && o.doc.awEmail == (if user.awEmail.Undefined? then docs[at].awEmail else Stored(user.awEmail))
            && o.writes == 1)
  {
    var gh, aw := GhLookup(docs, user), AwLookup(docs, user);
    var at := if gh.Some? then gh.value else aw.value;
    if gh.Some? && aw.Some? {
      assert docs[gh.value].docId == docs[aw.value].docId;
      if gh.value < aw.value {} else if aw.value < gh.value {}
    }
    UpdateAt(docs, at, KeyPatch(user));
  }

  /** A matched record that has both keys is returned as it is, with no write. */
  lemma FullyKeyedUnchanged(docs: seq<Ticket>, key: DocId, user: User)
    requires GhLookup(docs, user).Some? || AwLookup(docs, user).Some?
    requires !IsMerge(docs, user)
    requires !MissingKey(docs[Pick(GhLookup(docs, user), AwLookup(docs, user)).value])
    ensures var o := Reconciled(docs, key, user);
      && o.docs == docs
      && o.doc == docs[Pick(GhLookup(docs, user), AwLookup(docs, user)).value]
      && Present(o.doc.ghUser) && Present(o.doc.awEmail)
      && o.writes == 0
  {
  }

  /** Sequence numbers 1..N stay 1..N(+1): creation numbers records in order. */
  lemma SequencedPreserved(docs: seq<Ticket>, key: DocId, user: User)
    requires Sequenced(docs)
    ensures Sequenced(Reconciled(docs, key, user).docs)
  {
    RecordsStable(docs, key, user);
  }

  /** With a fresh `$id` for a created record, `$id`s stay unique. */
  lemma UniqueKeysPreserved(docs: seq<Ticket>, key: DocId, user: User)
    requires UniqueKeys(docs)
    requires forall i | 0 <= i < |docs| :: docs[i].docId != key
    ensures UniqueKeys(Reconciled(docs, key, user).docs)
  {
    RecordsStable(docs, key, user);
  }

  /** Writing `t` at `at` keeps attribute `a` unique if `t`'s value is new or was already there. */
  lemma UniqueAfterWrite(docs: seq<Ticket>, at: nat, t: Ticket, a: Attr)
    requires at < |docs| && UniqueOn(docs, a)
    requires Present(Field(t, a)) ==>
      Field(t, a) == Field(docs[at], a) ||
      forall j | 0 <= j < |docs| && j != at :: Field(docs[j], a) != Field(t, a)
    ensures UniqueOn(docs[at := t], a)
  {
  }

  /** Appending `t` keeps attribute `a` unique if `t`'s value is new. */
  lemma UniqueAfterAppend(docs: seq<Ticket>, t: Ticket, a: Attr)
    requires UniqueOn(docs, a)
    requires Present(Field(t, a)) ==> forall j | 0 <= j < |docs| :: Field(docs[j], a) != Field(t, a)
    ensures UniqueOn(docs + [t], a)
  {
    var s := docs + [t];
    forall i, j | 0 <= i < |s| && 0 <= j < |s| && i != j && Present(Field(s[i], a))
      ensures Field(s[i], a) != Field(s[j], a)
    {
      if i < |docs| && j < |docs| {
        assert s[i] == docs[i] && s[j] == docs[j];
      } else if i == |docs| {
        assert s[j] == docs[j];
      } else {
        assert s[i] == docs[i];
      }
    }
  }

  /**
   * The routine keeps at most one record per GitHub login, provided
   * sequence numbers are distinct (on a tie the login is duplicated, see
   * MergeTieKeepsGitHubMatch).
   */
  lemma GhUserStaysUnique(docs: seq<Ticket>, key: DocId, user: User)
    requires UniqueKeys(docs) && DistinctIds(docs) && UniqueOn(docs, GhUser)
    ensures UniqueOn(Reconciled(docs, key, user).docs, GhUser)
  {
    var gh, aw := GhLookup(docs, user), AwLookup(docs, user);
    var o := Reconciled(docs, key, user);
    if gh.None? && aw.None? {
      UniqueAfterAppend(docs, o.doc, GhUser);
    } else if IsMerge(docs, user) {
      MergeShape(docs, key, user);
      var gi, ai := gh.value, aw.value;
      var lo := if docs[gi].id < docs[ai].id then gi else ai;
      var hi := if docs[gi].id > docs[ai].id then gi else ai;
      assert lo != hi;
      var mid := docs[lo := docs[lo].(ghUser := None, awEmail := None)];
      UniqueAfterWrite(docs, lo, mid[lo], GhUser);
      var keyed := docs[hi].(ghUser := Some(user.ghLogin.s), awEmail := Some(user.awEmail.s));
      forall j | 0 <= j < |mid| && j != hi && j != lo
        ensures Field(mid[j], GhUser) != Field(keyed, GhUser)
      {
        assert Field(docs[gi], GhUser) == Field(keyed, GhUser);
      }
      UniqueAfterWrite(mid, hi, keyed, GhUser);
    } else {
      var at := if gh.Some? then gh.value else aw.value;
      SingleMatchBackfills(docs, key, user);
      if MissingKey(docs[at]) {
        UniqueAfterWrite(docs, at, o.doc, GhUser);
      }
    }
  }

  /**
   * The routine keeps at most one record per Appwrite email, provided the
   * email it may write was also looked up: the lookup runs only when
   * `appwrite.$id` is truthy.
   */
  lemma AwEmailStaysUnique(docs: seq<Ticket>, key: DocId, user: User)
    requires UniqueKeys(docs) && UniqueOn(docs, AwEmail)
    requires Truthy(user.awId) || !Truthy(user.awEmail)
    ensures UniqueOn(Reconciled(docs, key, user).docs, AwEmail)
  {
    var gh, aw := GhLookup(docs, user), AwLookup(docs, user);
    var o := Reconciled(docs, key, user);
    if gh.None? && aw.None? {
      UniqueAfterAppend(docs, o.doc, AwEmail);
    } else if IsMerge(docs, user) {
      MergeShape(docs, key, user);
      var gi, ai := gh.value, aw.value;
      var lo := if docs[gi].id < docs[ai].id then gi else ai;
      var hi := if docs[gi].id > docs[ai].id then gi else ai;
      var mid := docs[lo := docs[lo].(ghUser := None, awEmail := None)];
      UniqueAfterWrite(docs, lo, mid[lo], AwEmail);
      var keyed := docs[hi].(ghUser := Some(user.ghLogin.s), awEmail := Some(user.awEmail.s));
      if Present(Field(keyed, AwEmail)) && Field(keyed, AwEmail) != Field(mid[hi], AwEmail) {
        forall j | 0 <= j < |mid| && j != hi && j != lo
          ensures Field(mid[j], AwEmail) != Field(keyed, AwEmail)
        {
          assert Field(docs[ai], AwEmail) == Field(keyed, AwEmail);
        }
      }
      UniqueAfterWrite(mid, hi, keyed, AwEmail);
    } else {
      var at := if gh.Some? then gh.value else aw.value;
      SingleMatchBackfills(docs, key, user);
      if MissingKey(docs[at]) {
        UniqueAfterWrite(docs, at, o.doc, AwEmail);
      }
    }
  }

  /** On a collection where `c` alone carries the login and the email, the routine settles on `c`. */
  lemma SettledOn(docs: seq<Ticket>, key: DocId, user: User, c: nat)
    requires Truthy(user.ghLogin) && Truthy(user.awEmail)
    requires c < |docs| && docs[c].ghUser == Some(user.ghLogin.s) && docs[c].awEmail == Some(user.awEmail.s)
    requires UniqueOn(docs, GhUser)
    requires Truthy(user.awId) ==> UniqueOn(docs, AwEmail)
    ensures Reconciled(docs, key, user) == Outcome(docs, docs[c], 0)
  {
    var gh, aw := GhLookup(docs, user), AwLookup(docs, user);
    assert gh.Some?;
    assert Field(docs[gh.value], GhUser) == Field(docs[c], GhUser);
    if aw.Some? {
      assert Field(docs[aw.value], AwEmail) == Field(docs[c], AwEmail);
    }
  }

  /**
   * After a run for a user with a truthy login and email, the record returned
   * carries both (unless the run changed nothing).
   */
  lemma KeyedResult(docs: seq<Ticket>, key: DocId, user: User) returns (c: nat)
    requires UniqueKeys(docs)
    requires Truthy(user.ghLogin) && Truthy(user.awEmail)
    requires Reconciled(docs, key, user).writes != 0
    ensures var o := Reconciled(docs, key, user);
      && c < |o.docs| && o.docs[c] == o.doc
      && o.doc.ghUser == Some(user.ghLogin.s) && o.doc.awEmail == Some(user.awEmail.s)
  {
    var gh, aw := GhLookup(docs, user), AwLookup(docs, user);
    if gh.None? && aw.None? {
      c := |docs|;
    } else if IsMerge(docs, user) {
      MergeShape(docs, key, user);
      c := if docs[gh.value].id > docs[aw.value].id then gh.value else aw.value;
    } else {
      SingleMatchBackfills(docs, key, user);
      c := if gh.Some? then gh.value else aw.value;
    }
  }

  /**
   * Running the routine a second time for a user carrying both a login and
   * an email, with no write in between, changes nothing and returns the same
   * record.
   */
  lemma SecondRunWritesNothing(docs: seq<Ticket>, key: DocId, key2: DocId, user: User)
    requires UniqueKeys(docs) && DistinctIds(docs)
    requires UniqueOn(docs, GhUser) && UniqueOn(docs, AwEmail)
    requires Truthy(user.ghLogin) && Truthy(user.awEmail)
    ensures var o := Reconciled(docs, key, user);
      Reconciled(o.docs, key2, user) == Outcome(o.docs, o.doc, 0)
  {
    var o := Reconciled(docs, key, user);
    if o.writes != 0 {
      var c := KeyedResult(docs, key, user);
      GhUserStaysUnique(docs, key, user);
      if Truthy(user.awId) {
        AwEmailStaysUnique(docs, key, user);
      }
      SettledOn(o.docs, key2, user, c);
    }
  }
}

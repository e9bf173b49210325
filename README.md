# Ticket identity reconciliation

The model covers `getTicketDocByUser`, the routine behind the ticket endpoint. It receives a partially known
user. That user may have a GitHub login and name, and an Appwrite account `$id`, email and name.
The routine finds, merges, backfills or creates the single "ticket" record for that user in a document
collection. Each record has these fields:

- `$id`: the store's key.
- `id`: a sequence number.
- `gh_user`: a nullable GitHub login.
- `aw_email`: a nullable Appwrite email.
- `name`.

The model is layered as follows:

- `JsValues` holds the JavaScript values the routine handles. A user property is `undefined`, `null` or a
  string; only a non-empty string is truthy. `??` falls through on `null` and `undefined` only. A payload
  property that is `undefined` is dropped by serialisation, so the attribute is not written, whereas
  `null` clears it.
- `TicketDocs` holds the collection as a sequence of records in insertion order. It provides
  `Query.equal` reduced to its first document (`FirstMatch`), a partial update by `$id` (`UpdateById`,
  `ApplyPatch`), and the invariants of a well-kept collection: unique `$id`s, at most one record per
  truthy login or email, and sequence numbers 1..N.
- `Reconciliation` holds the pure parts of the routine:
  - the two guarded lookups (`GhLookup`, `AwLookup`);
  - `oldest` and `newest` (`Oldest`, `Newest`);
  - `gh_doc ?? aw_doc` (`Pick`);
  - the missing-key test (`MissingKey`);
  - the payloads (`OrphanPatch`, `KeyPatch`);
  - the created record (`NewTicket`).

  `Reconciled` combines them into the whole routine as a function of the collection it reads.
- `ReconcileProperties` proves what each branch does and which invariants the routine keeps. It also
  proves that a second run for a user who has both a login and an email writes nothing.
- `TicketStore.Collection` is the collection as mutable state. Its methods issue the store calls the
  routine makes, in the routine's order: up to two lookups, each run only when its guard holds, then two updates, one update, nothing, or a count
  followed by a create. `GetTicketDocByUser` is proved to leave the collection, return the record and
  issue the number of writes that `Reconciled` gives.

Points where the code is followed:

- **Appwrite lookup guard.** The lookup is guarded on `appwrite.$id` but filters on `appwrite.email`.
- **Missing-key test.** Any falsy `gh_user` or `aw_email` counts as missing, the empty string included.
  The record is then updated with whatever user fields are defined. There is no check that the user
  supplies the missing side, so a `null` login or email is written as `null`.
- **Equal sequence numbers.** When both matches have the same sequence number, both `oldest` and
  `newest` resolve to the Appwrite match. That record is orphaned and then re-keyed. The GitHub match
  keeps its login, so two records carry it (`MergeTieKeepsGitHubMatch`). Uniqueness of logins is
  therefore proved only for collections with distinct sequence numbers.
- **Email uniqueness.** Uniqueness of emails is kept only when the email that may be written was also
  looked up. That holds when `appwrite.$id` is truthy or the email is falsy.
- **Record name.** The created record's `name` is `appwrite.name ?? github.name`. It is null when both
  are missing.
- **No premium flag.** No premium-membership flag is read, compared or written.

## Model

| member | source | states |
|---|---|---|
| TicketDocs.ApplyPatch | src/routes/init/ticket/get-ticket-doc/+server.ts:55-63 | an attribute in the payload is set to the payload's value (null clears it), an attribute not in the payload keeps its value, and `$id`, `id` and `name` never change |
| TicketDocs.FirstMatch | src/routes/init/ticket/get-ticket-doc/+server.ts:10-14 | the position of the first record in insertion order whose attribute equals the query value, or none when no record does |
| Reconciliation.GhLookup | src/routes/init/ticket/get-ticket-doc/+server.ts:9-15 | the GitHub lookup hits only when the login is truthy, and then hits the first record whose `gh_user` is the login; a miss means no record has it |
| Reconciliation.AwLookup | src/routes/init/ticket/get-ticket-doc/+server.ts:16-22 | the Appwrite lookup hits only when `appwrite.$id` is truthy, and then hits the first record whose `aw_email` is `appwrite.email`; a miss means no record has it |
| Reconciliation.Reconciled | src/routes/init/ticket/get-ticket-doc/+server.ts:7-83 | at most two writes; two exactly on the merge path; a run with no write leaves the collection unchanged |
| ReconcileProperties.OldestNewest | src/routes/init/ticket/get-ticket-doc/+server.ts:30-31 | `oldest` and `newest` differ exactly when the sequence numbers differ; the smaller number is oldest; on a tie both are the Appwrite match |
| ReconcileProperties.NoMatchCreates | src/routes/init/ticket/get-ticket-doc/+server.ts:66-81 | with no hit, exactly one record is appended with the fresh `$id`, number count + 1, login and email (null when absent), and the Appwrite name falling back to the GitHub name; the existing records are unchanged |
| ReconcileProperties.CreatesOnlyWhenNoMatch | src/routes/init/ticket/get-ticket-doc/+server.ts:25-81 | the record count grows by one on the no-match path and stays the same on every other path |
| ReconcileProperties.RecordsStable | src/routes/init/ticket/get-ticket-doc/+server.ts:32-63 | no path removes a record or changes any `$id`, sequence number or name |
| ReconcileProperties.MergeShape | src/routes/init/ticket/get-ticket-doc/+server.ts:28-49 | on two distinct matches the collection afterwards is the old one with `oldest` nulled and then `newest` re-keyed; `newest` is returned; two writes |
| ReconcileProperties.MergeOrphansOlder | src/routes/init/ticket/get-ticket-doc/+server.ts:28-49 | with different sequence numbers the smaller-numbered record ends with both keys null and the larger-numbered one with the login and email; the latter is returned and no other record changes |
| ReconcileProperties.MergeTieKeepsGitHubMatch | src/routes/init/ticket/get-ticket-doc/+server.ts:30-49 | with equal sequence numbers only the Appwrite match changes, ending re-keyed and returned; the GitHub match is untouched and still carries the login |
| ReconcileProperties.SingleMatchBackfills | src/routes/init/ticket/get-ticket-doc/+server.ts:52-63 | with one matched record (GitHub match preferred; both hits are then the same record) that lacks a key, only that record changes, the defined user fields are written, and it is returned updated with one write |
| ReconcileProperties.FullyKeyedUnchanged | src/routes/init/ticket/get-ticket-doc/+server.ts:54-65 | a matched record that has both keys is returned as it is, with the collection unchanged and no write |
| ReconcileProperties.SequencedPreserved | src/routes/init/ticket/get-ticket-doc/+server.ts:67-78 | when the sequence numbers are 1..N in insertion order, they stay so: creating N records in turn numbers them 1..N |
| ReconcileProperties.UniqueKeysPreserved | src/routes/init/ticket/get-ticket-doc/+server.ts:71-74 | with a fresh `$id` for a created record, `$id`s stay unique |
| ReconcileProperties.GhUserStaysUnique | src/routes/init/ticket/get-ticket-doc/+server.ts:8-63 | with distinct sequence numbers, at most one record carries a given login afterwards if that held before |
| ReconcileProperties.AwEmailStaysUnique | src/routes/init/ticket/get-ticket-doc/+server.ts:16-63 | at most one record carries a given email afterwards if that held before, provided `appwrite.$id` is truthy or the email is falsy |
| ReconcileProperties.SecondRunWritesNothing | src/routes/init/ticket/get-ticket-doc/+server.ts:8-65 | after any run for a user with a truthy login and email, a second run with no write in between changes nothing, issues no write and returns the same record |
| TicketStore.Collection.ListFirst | src/routes/init/ticket/get-ticket-doc/+server.ts:17-21 | the returned document is the first matching record, and is absent exactly when none matches |
| TicketStore.Collection.UniqueId | src/routes/init/ticket/get-ticket-doc/+server.ts:74 | returns a `$id` that no record has |
| TicketStore.Collection.CreateDocument | src/routes/init/ticket/get-ticket-doc/+server.ts:71-81 | appends the record, returns it and counts one write |
| TicketStore.Collection.UpdateDocument | src/routes/init/ticket/get-ticket-doc/+server.ts:32-40 | patches the record under the `$id`, returns it as updated and counts one write |
| TicketStore.Collection.MergeMatches | src/routes/init/ticket/get-ticket-doc/+server.ts:28-49 | the two updates of the merge branch give the collection, record and write count of `Reconciled` |
| TicketStore.Collection.BackfillKeys | src/routes/init/ticket/get-ticket-doc/+server.ts:54-63 | the backfill update gives the collection, record and write count of `Reconciled` |
| TicketStore.Collection.CreateTicket | src/routes/init/ticket/get-ticket-doc/+server.ts:66-81 | the count then create gives the collection, record and write count of `Reconciled` |
| TicketStore.Collection.GetTicketDocByUser | src/routes/init/ticket/get-ticket-doc/+server.ts:7-83 | the routine leaves the collection as `Reconciled` says, returns its record and issues exactly its number of writes |

## Left out

- The `GET` handler (request parsing, `JSON.parse` of `user`, JSON responses) is HTTP glue.
- `getTicketDocById` is a single `getDocument` call plus logging.
- The Appwrite client, `Query`, `ID.unique()` and the environment constants are replaced by the in-memory collection. `ID.unique()` becomes a counter of `$id`s.
- Properties of `user` that are not strings after `JSON.parse` (numbers, objects) are not modelled.
- `Promise.all` is modelled as two reads of the same state. Cross-request races are not modelled, including duplicate creates and duplicate sequence numbers from count-then-create.
- Store and network failures are not modelled, including a first merge update that succeeds followed by a second that fails. `UpdateDocument` and `CreateDocument` therefore require an existing or fresh `$id`, where the real store would fail.
- The store's answer to a `Query.equal` whose value is `null` or `undefined` is not modelled. The Appwrite lookup sends `appwrite.email` whenever `appwrite.$id` is truthy, even when the email is missing; the model assumes such a query matches no record, so the lookup misses. A real store might reject the query instead.
- Paging is not modelled: `listDocuments` returns at most a page, but only `total` and `documents[0]` are used.
- Premium-membership syncing and the CRM contact upsert do not occur in this routine.
- SecondRunWritesNothing: requires unique `$id`s, distinct sequence numbers and at most one record per login and per email beforehand. Without them a tie or a third record carrying the login makes the second run write again, so the claim does not hold for every collection.
- GhUserStaysUnique: requires distinct sequence numbers, because on a tie the code leaves two records with the login.
- AwEmailStaysUnique: requires `appwrite.$id` to be truthy or the email to be falsy, because otherwise a created or backfilled email is written without having been looked up.

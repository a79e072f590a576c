# Verified model of the Verstak sync relay

A Dafny model of the relay's server: the operation log that devices push to and pull from, the
content-addressed blob store behind it, the rate limiter, sessions and reset tokens with their
retention, the migration of old databases, and the digit loop of the `Retry-After` header.
`dafny verify dfyconfig.toml` checks the whole project (Dafny 4.11).

## How it is laid out

| file | contents |
|---|---|
| `Schema.dfy` | rows, requests, and the WHERE clauses over `server_ops` with the laws of selecting by them |
| `Timestamps.dfy` | RFC 3339 text, the calendar behind it, and SQLite's text order |
| `PushSpec.dfy` | validation, blob-reference checks and the effect of one push in closed form |
| `OpLog.dfy` | the invariant of the log, its revisions and tombstones; user deletion |
| `BlobStore.dfy` | uploads, quotas, references, blob rows and files |
| `Relay.dfy` | the state machine: events, runs, and what every run keeps |
| `Replication.dfy` | pages, replicas, draining, and the two reads of a pull |
| `ExactlyOnce.dfy` | retries, stored replies and conflicts over whole runs |
| `Renumbering.dfy` | what is the same in two logs that differ in their sequences only: selections, pages, conflicts |
| `Isolation.dfy` | comparison of a run, with its replicas, with the same run without one user |
| `Access.dfy` | the two reads of an authentication and the transaction as separate steps; revoking and blocking in between |
| `RateLimiter.dfy` | the limiter object and its refinement of a replayed history |
| `RateRequests.dfy` | runs of requests of all actions, and whose sweeps disturb whom |
| `Accounts.dfy` | users, sessions, e-mail tokens, devices, and the unobservability of retention |
| `Migration.dfy` | the schema migration and the vault names of new devices |
| `Decimal.dfy` | `strconvItoa` |
| `Server.dfy` | the server object with its handlers, proved to take exactly the steps above |

## How the server is modelled

The source keeps its state in SQLite tables behind a single connection
(`internal/server/server.go:55`), so a transaction is one step. `Server.dfy` writes the handlers in
their imperative form: a transaction works on a copy of the tables and writes it back when it commits,
and `if *` stands for a statement that fails. Authentication is finished before the transaction begins,
so a transaction carries the scope it was granted, and nothing is assumed about revocations or deletions in
between. `Access.dfy` adds the authentication as two steps, since the source reads the device row and the user
row in separate statements and gives the connection back in between; the relay inside it runs through the
transactions of admitted requests (`SiteRefinesRelay`). Every claim about runs holds for any interleaving of such
steps.

A push is specified by what it leaves behind rather than by its loop: the operations of the batch that
are new, numbered consecutively from the AUTOINCREMENT counter. Revisions and tombstones are proved to
be functions of the log in every reachable state. The handler's loop, which sees the log grow under it,
is proved equal to that description.

Assumptions: commits are atomic and the AUTOINCREMENT counter never goes back; SHA-256 has no
collisions (a hash is modelled as the content it digests); generated tokens and ids are new; limits do not
change during a run; clock readings used by the limiter, the sessions and the reset tokens do not
decrease.

## Where the code and its comments or documentation part

- The limiter's comment says that buckets expire naturally. Each request sweeps all buckets with twice its own
  action's window, so one of a ten- or fifteen-minute action can delete a bucket of an hourly action whose window is
  still open. `RateRequests.FaithfulUnlessHourly` shows for every set of actions that runs of their requests are
  answered as each key's history demands except in exactly this case, where `EarlySweepRun` is a run that is not.
  `ForgettingIsUnobservableIffWindowOver` is the condition for one bucket.
- `strconvItoa` prints the least 64-bit integer as `-`. `PrintsItself` shows that this is its only exception.
- Retention may delete an e-mail confirmation token that the confirmation handler would still accept, at the
  one instant at which it expires (`SweptConfirmationStillGood`).
- Users are not fully isolated, in two ways. `op_id` is one primary key for all of them: up to sequences, and
  leaving the conflict lists of push replies out, a user can be observed if and only if a push that is carried out for
  someone else holds an op id that one of the user's operations in the log at that moment has
  (`UnobservableIffClashFree`). Disjoint ids are enough for that (`ErasingAUserIsUnobservable`) but not needed: with
  one id in common it depends on the order of the pushes (`SharedIdsInterfere`). And sequences are drawn from one
  counter: a conflict list differs, up to sequences, if and only if a last seen sequence lies between a rival's
  sequence and the lower one it has without the user (`UnobservableIffUndisturbed`, `SlipIsBetweenNumbers`);
  `LastSeenInterferes` is such a run, with all ids different.
- An operation with `last_seen_server_seq` 0 reports no conflicts, whatever the log holds (`ConflictsAreExact`).
- The documentation says that revoked devices and blocked users lose access immediately (the repository's
  `README.md:323-324`). A request of a revoked device gets through if and only if its device row was read before, and
  one of a blocked user if and only if the user row was read before, and it would have got through anyway
  (`OnlyEarlierRequestsGetThrough`); its push then commits, since the transaction looks at nothing that revoking or
  blocking changes (`CommitsIffGrantedBefore`). `RevokedDeviceStillCommits` is such a run. The two reads need not
  agree on one moment: in `TornReadCommits` a push is logged of a device that was at no moment unrevoked while its
  user was not blocked.
- `authenticateDevice` tries the legacy key after any error of the token query, not only when no row is found
  (`Server.ReadDevice`).

## Model

| member | source | states |
|---|---|---|
| Schema.SelectOrdered | internal/server/handlers_api.go:441-445 | selecting in table order is `ORDER BY server_sequence`: the result keeps strictly ascending sequences |
| Schema.SelectSplit | internal/server/handlers_api.go:568-572 | a cursor cuts a scope's log into the rows up to it and the rows after it, with nothing lost |
| Timestamps.CivilInverse | internal/server/retention.go:17-20 | converting an instant of the years 0 to 9999 to calendar fields and back gives the instant |
| Timestamps.CivilOfSeconds | internal/server/sessions.go:74-75 | the other way round: the calendar fields of an instant made from valid fields are those fields |
| Timestamps.SecondsOfFields | internal/server/retention.go:17-20 | the instant of calendar fields is the closed form of the Gregorian calendar, leap years and month lengths included |
| Timestamps.TimestampText | internal/server/retention.go:17-20 | a stored timestamp is the date and time in UTC, digit by digit, as section 5.6 of RFC 3339 lays it out |
| Timestamps.ParseFormat | internal/server/sessions.go:74-75 | parsing a stored timestamp gives back the instant it was made from, cut to the second |
| Timestamps.ParseIsExact | internal/server/sessions.go:74-75 | nothing else is parsed: a text is read as an instant iff it is what that instant, in whole seconds, is stored as |
| Timestamps.FormatOrder | internal/server/retention.go:13-22 | stored timestamps compare as text exactly as their instants compare in whole seconds |
| PushSpec.FirstBadOperationDecides | internal/server/sync_contract.go:44-88 | a batch passes validation iff every operation is well formed, and the first that is not decides the error code |
| PushSpec.OperationCode | internal/server/sync_contract.go:59-88 | which code an operation is refused with, from its fields: the text fields in order, the size of its payload, the syntax, the sequences |
| PushSpec.RequestCode | internal/server/sync_contract.go:44-88 | the number of operations comes first, then the device id and the key, then the first operation that is not well formed |
| PushSpec.ByteLengthBounds | internal/server/helpers.go:104-109 | lengths are in bytes of UTF-8: they add up, and are the number of characters iff all are ASCII |
| PushSpec.ShortestForm | internal/server/helpers.go:104-109 | a character counts as many bytes as the shortest form of UTF-8 that has room for it |
| PushSpec.CheckReferencesPass | internal/server/blobs.go:239-277 | a batch passes the reference check iff each of its operations does |
| PushSpec.FirstBadReferenceDecides | internal/server/blobs.go:239-277 | a batch is refused with the code of its first operation whose check fails |
| BlobStore.ReferenceCode | internal/server/blobs.go:239-277 | each code of the check, from the fields of the operation and the references with exactly its scope and hash |
| PushSpec.ConflictsIgnoreOwnRows | internal/server/handlers_api.go:441-445 | the conflict query answers the same on the log as it grows inside the loop as on the log before the push |
| PushSpec.NumberInserted | internal/server/handlers_api.go:477-508 | inserting with a NULL sequence and numbering by op id appends one numbered row and touches no other |
| OpLog.FreshMember | internal/server/handlers_api.go:477-494 | an operation is taken in iff its id is neither in the log nor on an earlier operation of the batch |
| OpLog.FreshInOrder | internal/server/handlers_api.go:439-518 | operations are taken in, and listed as accepted, in batch order |
| OpLog.CommitKeepsLog | internal/server/handlers_api.go:477-517 | a push keeps op ids unique, sequences ascending within the counter, and revisions and tombstones equal to those the log gives rise to |
| OpLog.CommitEffect | internal/server/handlers_api.go:477-508 | a push appends, for each operation taken in, a row with the next sequence and the device, scope, key and time of the push, and a revision to match, and leaves all else |
| OpLog.CommitStoresReply | internal/server/handlers_api.go:524-536 | the reply is stored under the scope and key of the push, none for an empty key, and no other stored reply changes |
| OpLog.DeletionKeepsLog | internal/server/handlers_admin.go:414-441 | the ordered deletes of a user deletion keep the same invariant |
| OpLog.DeletionIsExact | internal/server/handlers_admin.go:420-432 | of every table, a row survives a deletion iff it is another user's, unchanged |
| OpLog.OpRevisionBijection | internal/server/handlers_api.go:495-508 | every operation has exactly one revision that records its sequence, id and device, and every revision records an operation |
| OpLog.TombstoneIndex | internal/server/handlers_api.go:509-516 | an entity has a tombstone iff the log has a delete of it, and the tombstone has the id and time of the one with the highest sequence |
| BlobStore.UploadKeepsBlobs | internal/server/blobs.go:122-188 | whatever fails, an upload keeps every reference backed by a blob row and a file of the same size, and loses no file |
| BlobStore.UploadAnswers | internal/server/blobs.go:119-188 | what an upload answers: stored iff it is small enough, nothing fails, and the scope has a reference or room in both quotas; too large, over quota, or failed otherwise |
| BlobStore.UploadLeavesReference | internal/server/blobs.go:122-188 | a stored upload leaves a reference of exactly its scope, hash and size, used now, and every other reference as it was |
| BlobStore.UnstoredLeavesRows | internal/server/blobs.go:119-188 | an upload that is not stored changes no row, and at most leaves its own file behind when the last step fails |
| BlobStore.SumsOfRow | internal/server/blobs.go:145-152 | a reference is charged at its size to its own vault and its own user, and to nobody else |
| BlobStore.DownloadIsExact | internal/server/blobs.go:190-221 | a download gives a content iff a reference has exactly this scope, hash and size and the file holds it |
| BlobStore.FetchEffect | internal/server/blobs.go:190-221 | a served download notes the time in its own reference; one that is not served changes nothing |
| BlobStore.RefSizeIsExact | internal/server/blobs.go:129-133 | the size query answers for the references of this very scope and hash |
| BlobStore.WrapIsInt64 | internal/server/blobs.go:152 | the wrapped sum is the 64-bit integer that is equal to the sum modulo 2^64 |
| BlobStore.SizesAgree | internal/server/blobs.go:129-133 | all references to a hash have the size of its content, so the different-size error is unreachable |
| BlobStore.QuotaCheckIsExact | internal/server/blobs.go:145-154 | the 64-bit additions of the quota check do not overflow, and it refuses exactly the uploads that exceed a limit |
| BlobStore.UploadKeepsQuotas | internal/server/blobs.go:145-154 | an upload keeps every vault and every user within its limit |
| BlobStore.RefusalLeavesNothing | internal/server/blobs.go:119-154 | an upload refused for size or quota changes no row and no file |
| BlobStore.ReuploadIsFree | internal/server/blobs.go:129-141 | uploading content a scope already has changes no sum, no file and no size |
| BlobStore.LoggedBlobIsServed | internal/server/blobs.go:190-221 | the blob a logged file operation names downloads in full from the operation's scope |
| BlobStore.DeduplicationSaves | internal/server/blobs.go:159-180 | the bytes of distinct referenced contents never exceed the sum the quotas charge |
| Relay.RunKeepsInv | internal/server/handlers_api.go:408-541 | every run keeps the log invariant, the blob agreement and the restorability of the log |
| Relay.QuotasHold | internal/server/blobs.go:145-154 | in every state reachable from an empty store every vault and user is within its quota |
| Relay.EveryLoggedBlobIsServed | internal/server/blobs.go:235-277 | in every reachable state the blob of every logged file operation can be restored in its scope |
| Relay.VaultsAreSeparate | internal/server/blobs.go:196-200 | a scope that has not uploaded a content itself cannot download it, whatever other vaults of the same user hold |
| Relay.ForeignBlobIsRefused | internal/server/blobs.go:262-267 | nor can it push an operation that names it: nothing changes, and the code is `blob_not_owned` when no earlier check fails |
| Relay.UploadedIsServed | internal/server/blobs.go:122-221 | a stored upload can be downloaded from its scope in full until its user is deleted |
| Relay.FailuresAreReported | internal/server/handlers_api.go:408-541 | a step whose statements fail changes nothing and is reported as failed, and no other step is |
| Relay.ExpiryIsExact | internal/server/retention.go:20-22 | of the stored replies, retention keeps exactly those that were not stored in an earlier second than its cutoff |
| Relay.EveryRowWasPushed | internal/server/handlers_api.go:477-482 | every logged row records an operation some push carried, under that push's authenticated scope and device |
| Relay.SequencesAreNeverReused | internal/server/schema.go:97-101 | no committed sequence is issued twice, not even after its row was deleted |
| Relay.RunAppends | internal/server/handlers_api.go:477-508 | over a run that does not delete its user, a scope's log grows only at its end, past the counter |
| Replication.PageExtends | internal/server/handlers_api.go:568-608 | a page is the next stretch of the scope's log with no gap or repeat, and `has_more` means that more than a page was left |
| Replication.PageSize | internal/server/sync_contract.go:90-95 | a page limit that is absent, negative or too large means the maximum; a page has that many rows, or all that are left, and says whether more are |
| Replication.ReplicasFollowTheLog | internal/server/handlers_api.go:544-615 | in every interleaving a device that feeds back its cursor holds exactly its scope's operations up to it, in order |
| Replication.ReplicasArePrefixRelated | internal/server/handlers_api.go:568-608 | of two devices of one scope, one's history is a prefix of the other's |
| Replication.DrainIsComplete | internal/server/handlers_api.go:601-614 | pulling until `has_more` is false terminates and returns everything after the cursor, for any page size |
| Replication.LastPageCatchesUp | internal/server/handlers_api.go:561-608 | with transactions between its two reads, a pull without `has_more` has reached its `server_sequence` |
| ExactlyOnce.AcceptedOnce | internal/server/handlers_api.go:477-518 | an id accepted by one push is accepted by no later one while the user who pushed it exists |
| ExactlyOnce.AcceptedIdsDiffer | internal/server/handlers_api.go:492-517 | one reply lists no id twice |
| ExactlyOnce.AcceptedAreTheNewIds | internal/server/handlers_api.go:477-518 | accepted are exactly the ids of the batch that no user's log had |
| ExactlyOnce.RetryChangesNothing | internal/server/handlers_api.go:421-435 | pushing a committed batch again under any key is not refused, changes no log, revision or tombstone, and accepts nothing |
| ExactlyOnce.RetryAcceptsWhatWasLost | internal/server/handlers_api.go:477-518 | with deletions of other users in between, a retried batch accepts exactly its ids that such a deletion freed and no push logged again |
| ExactlyOnce.StoredReplyAnswers | internal/server/handlers_api.go:421-435 | until retention reaches it a stored reply answers every push of its scope under its key, and such a push changes nothing |
| ExactlyOnce.ReplayIsOfTheSameKey | internal/server/handlers_api.go:421-435 | a push that passes its checks is carried out, or it changes nothing and gets the answer of an earlier push of exactly its scope under exactly its key |
| ExactlyOnce.RetryGetsTheSameReply | internal/server/handlers_api.go:524-536 | an unchanged retry under its key passes validation again and gets the first reply |
| ExactlyOnce.DeletedRepliesAreOld | internal/server/retention.go:20-22 | a stored reply is deleted only when it is older than the configured hours, and always once it is a second older |
| ExactlyOnce.RetryWithinRetention | internal/server/retention.go:20-22 | within the configured hours, on the clock, a retry under its key is exactly idempotent |
| ExactlyOnce.ConflictsAreExact | internal/server/handlers_api.go:439-476 | each of the other devices' non-delete operations on the same entity that the device had not seen is reported, field by field, and each reported conflict is one |
| ExactlyOnce.ConflictsInOrder | internal/server/handlers_api.go:439-476 | a reply lists the conflicts of a batch in its order: those of a longer batch follow those of a shorter one |
| ExactlyOnce.ConflictsAscend | internal/server/handlers_api.go:441-445 | the conflicts of one operation come in ascending order of sequence |
| ExactlyOnce.LaterCommitterLearns | internal/server/handlers_api.go:439-476 | of two concurrent operations on an entity the later committer's reply has a conflict with the id, device, type and sequence of the earlier |
| Renumbering.PagesAlike | internal/server/handlers_api.go:568-608 | at the same place of two logs that differ in their sequences only, pages are the same up to sequences and move to the same place |
| Renumbering.ConflictsAlike | internal/server/handlers_api.go:439-476 | two such logs give a batch the same conflicts, up to sequences, iff no row is reported in the one while its counterpart is not in the other |
| Isolation.RunsAlike | internal/server/handlers_api.go:408-541 | from any two worlds that agree on everyone else's data, the others see the same iff no event disturbs, and then keep the same data and replicas |
| Isolation.UnobservableIffClashFree | internal/server/schema.go:43-44 | from an empty store, up to sequences and leaving conflict lists out, erasing one user changes no answer, page or download of anyone else iff no push carried out for someone else holds an op id that the user's log has at that moment |
| Isolation.UnobservableIffUndisturbed | internal/server/handlers_api.go:439-476 | the same with conflict lists compared up to sequences: iff in addition no operation is told of a conflict that it is not told of without the user |
| Isolation.SlipIsBetweenNumbers | internal/server/handlers_api.go:439-445 | that happens exactly when the operation's last seen sequence lies below a rival's sequence and not below the one the rival has without the user |
| Isolation.ClashShows | internal/server/handlers_api.go:477-494 | a clash shows in the reply at once: the operation is accepted without the user and left out with the user |
| Isolation.ClashFreeKeepsData | internal/server/blobs.go:129-152 | without a clash everyone else keeps the same log up to an increasing renumbering, the same tombstones and references, and replicas that hold the same |
| Isolation.ErasingAUserIsUnobservable | internal/server/handlers_api.go:423-425 | with the user's op ids disjoint from all others, erasing the user changes nobody's data and, conflict lists aside, nothing anyone sees; the lists agree up to sequences iff nothing slips |
| Isolation.ConflictsAreUnobservable | internal/server/handlers_api.go:439-476 | with last seen sequences translated to the other numbering everything agrees, conflicts up to sequences, iff nothing clashes or slips, and only clashes count when each such sequence is 0 or reaches a row |
| Isolation.SharedIdsInterfere | internal/server/schema.go:43-44 | with one op id in common a push shows to another user when it comes first, and does not when it comes second |
| Isolation.LastSeenInterferes | internal/server/handlers_api.go:439-445 | with all op ids different a user's push can still add a conflict to another user's reply |
| Access.OnlyTheEntitledGetIn | internal/server/middleware.go:24-92 | only the key of an unrevoked device is identified and only a user in good standing is admitted, under the scope of the device row |
| Access.HolderIsIdentified | internal/server/middleware.go:41-61 | the other direction: a key that opens one row only, by its token or as a marked legacy key, identifies that device unless it is revoked |
| Access.StrangerIsDenied | internal/server/middleware.go:41-61 | a key that opens no row is turned away, whatever fails |
| Access.AdmissionIsExact | internal/server/middleware.go:24-86 | an identified request is admitted iff its user exists and is not blocked, under that user and the row's or the legacy vault; each status code has its condition |
| Access.MigratedDeviceGetsIn | internal/server/schema.go:210-220 | every unrevoked device of a migrated database whose key is its own, not empty and not disabled is identified and admitted by it, if its user is in good standing |
| Access.EnrolledDeviceGetsIn | internal/server/handlers_api.go:358-379 | a new device gets in with its token under the vault it was enrolled for; enrolling fails iff the id is taken |
| Access.RevocationIsExact | internal/server/devices.go:28-41 | a revocation sets the time on its device and ends that device's sessions, and nothing else |
| Access.RemovalIsExact | internal/server/handlers_admin.go:216-235 | a removal takes the device's row and pairings, and nothing else |
| Access.SiteRefinesRelay | internal/server/handlers_api.go:386-408 | with the two reads of an authentication as steps of their own, the relay runs through the transactions of admitted requests, so every result on its runs carries over |
| Access.EveryRowWasGranted | internal/server/handlers_api.go:391-482 | every logged row carries the scope of a device that was enrolled and not revoked at one moment, of a user not blocked at a later one, both before its push |
| Access.OnlyEarlierRequestsGetThrough | internal/server/middleware.go:53-86 | after a revocation, removal, block or deletion a request of those kept out can be carried out iff its device row, or its user row, was read before and it could be without that step |
| Access.OpenUntilCarriedOut | internal/server/handlers_api.go:391-408 | an admitted request stays admitted until it is carried out, whatever happens to its device and user |
| Access.CommitsIffGrantedBefore | README.md:323-324 | a push of a revoked device or blocked user commits iff that row was read before, it could be carried out without the step, and the transaction goes through |
| Access.RequestsActForTheirDevice | internal/server/handlers_api.go:386-408 | an admitted request is carried out for the device and scope it was granted, once; one that is not admitted changes nothing |
| Access.FailedStepsChangeNothing | internal/server/devices.go:28-41 | an enrolment, revocation, removal, block, deletion or expiry that fails leaves everything as it was |
| Access.RevokedDeviceStillCommits | internal/server/devices.go:28-41 | the input on which immediate loss of access fails: the device row is read, the device revoked, the push committed; nothing is logged when the revocation comes first |
| Access.TornReadCommits | internal/server/middleware.go:53-86 | a run that logs the push of a device that at no moment was unrevoked with its user not blocked |
| RateLimiter.Limiter.OldestKey | internal/server/ratelimit.go:48-54 | the eviction loop finds a key seen least recently, in whatever order it visits the map |
| RateLimiter.Limiter.Allow | internal/server/ratelimit.go:37-70 | the method takes the step of the specification, evicts only when full, and keeps the bound on memory |
| RateLimiter.Limiter.Cleanup | internal/server/ratelimit.go:72-81 | the sweep deletes exactly the buckets whose last attempt is older than the age |
| RateLimiter.Limiter.RateRetryAfter | internal/server/rate.go:23-48 | the keys are consumed in order up to the first refusal, after a sweep with twice the action's window |
| RateLimiter.RefusalStopsConsuming | internal/server/rate.go:34-46 | a refusal under the client key leaves the account key unconsumed |
| RateLimiter.AttemptKeepsWellFormed | internal/server/ratelimit.go:44-69 | the number of buckets never exceeds the bound |
| RateLimiter.LimiterRefinesReplay | internal/server/ratelimit.go:37-81 | the limiter answers a key's attempts as a replay of its full history would, through sweeps of at least its window |
| RateLimiter.OnlyOwnHistoryMatters | internal/server/ratelimit.go:45-58 | evictions of other keys and all else that differs between two runs cannot be observed through a key |
| RateLimiter.WindowBound | internal/server/ratelimit.go:59-69 | each anchored window contains at most the limit of allowed attempts |
| RateLimiter.SlidingBound | internal/server/ratelimit.go:59-69 | any interval as long as the window contains at most twice the limit of allowed attempts |
| RateLimiter.ForgettingIsUnobservableIffWindowOver | internal/server/ratelimit.go:72-81 | deleting a bucket in use is unobservable iff its window is over |
| RateLimiter.EvictedOnlyWhenCrowded | internal/server/ratelimit.go:44-56 | a key is evicted only if as many other keys as fill the rest of the map were tried no earlier than its own last attempt |
| RateLimiter.LimiterRefinesReplayUncrowded | internal/server/ratelimit.go:37-70 | a key tried again before that many others have come in between is answered as its history demands, with no assumption on evictions |
| RateLimiter.LimiterBound | internal/server/ratelimit.go:37-70 | both bounds for the limiter's own answers in a run: the attempts it lets through per anchored window and in any interval of window length |
| RateLimiter.DisabledPolicyLetsAllThrough | internal/server/ratelimit.go:37-40 | a policy without a limit or a window limits nothing |
| RateRequests.RequestIsSweepAndConsume | internal/server/rate.go:23-48 | the limiter events of a request are exactly the sweep and the attempts of one call of the method, and the request gets through iff the call allows it |
| RateRequests.KeysAreInjective | internal/server/rate.go:30-36 | two requests share a client bucket iff they agree on action and address, an account bucket iff on action and account, and no client bucket is an account bucket |
| RateRequests.ClientsAreIndependent | internal/server/rate.go:23-48 | leaving all other clients' requests out of a run changes nothing about which of the given clients' requests get through, if they share no account, the action is not exposed and nothing is evicted |
| RateRequests.RequestsAreLegal | internal/server/rate.go:30-36 | every run of requests is a run of the limiter in which each key has one policy, since a key names its action |
| RateRequests.FaithfulUnlessHourly | internal/server/rate.go:10-48 | for every set of actions, runs of their requests answer the keys of an action as their histories demand iff it is not an hourly action among them together with a short one |
| RateRequests.EarlySweepRun | internal/server/rate.go:23-36 | the failing run of requests: a short action's sweep hands an hourly key a new window early |
| RateRequests.RequestBound | internal/server/ratelimit.go:37-70 | both bounds on what gets through, over requests of mixed actions |
| RateRequests.FirstWindowInMinutes | internal/server/rate.go:10-19 | the policies in numbers: how many requests of an action get through in the window the first one opens, and how many minutes it lasts |
| RateLimiter.AdvertisedWaitSuffices | internal/server/rate.go:37-46 | waiting the advertised whole seconds makes the refused key allowed again |
| RateLimiter.AdvertisedWaitIsTight | internal/server/rate.go:37-46 | the advertised seconds are at least one and exceed the wait by less than one, unless they are one |
| RateLimiter.RefusedUntilWindowEnds | internal/server/ratelimit.go:63-66 | before the reported wait is over a further attempt is refused |
| Accounts.SweptSessionsAreTheRefusedOnes | internal/server/sessions.go:166-169 | retention deletes exactly the sessions that are refused at its instant |
| Accounts.SweptResetsAreTheRefusedOnes | internal/server/password_reset.go:32-35 | retention deletes exactly the reset tokens that are refused at its instant |
| Accounts.SweptConfirmationStillGood | internal/server/handlers_auth.go:134-135 | retention takes a confirmation token that is still accepted iff it happens at the instant of its expiry |
| Accounts.SweepsAreExact | internal/server/retention.go:13-25 | on the clock, retention keeps exactly the sessions and tokens that expire in a later second and the audit rows that are not of an earlier one than its cutoff |
| Accounts.SweepsOnlyDelete | internal/server/retention.go:13-25 | what retention keeps it keeps unchanged |
| Accounts.ConfirmationIsExact | internal/server/handlers_auth.go:124-156 | a confirmation uses up its own token and confirms its own user, and nothing else |
| Accounts.ConfirmRoundTrip | internal/server/handlers_auth.go:124-156 | an issued token confirms its user up to and including the second it expires, iff that is what it was issued for |
| Accounts.BlockingIsExact | internal/server/handlers_admin.go:333-366 | blocking sets one user's flag and ends that user's sessions; unblocking ends none |
| Accounts.VisitIsExact | internal/server/sessions.go:61-87 | a visit notes the time in its own session or drops it when expired, and touches no other |
| Accounts.RetentionIsUnobservable | internal/server/retention.go:13-19 | over whole runs, with users blocked and deleted in between, retention changes no acceptance of a login, visit, token request, reset or confirmation |
| Accounts.ResetsUnchangedIffNoneSwept | internal/server/password_reset.go:24-35 | with the reasons of refusals, the results of resets are unchanged iff none comes with a token that retention has deleted |
| Accounts.SessionRoundTrip | internal/server/sessions.go:37-87 | a session token opens its own session, in its own scope, exactly until its lifetime ends |
| Accounts.ResetRoundTrip | internal/server/password_reset.go:24-68 | an issued reset token sets the password of its user exactly until it expires |
| Accounts.ResetChangesOneUser | internal/server/password_reset.go:24-68 | a reset changes one password and deletes exactly that user's reset tokens; a refused one changes nothing |
| Accounts.ResetTokensAreSingleUse | internal/server/password_reset.go:37-68 | a used reset token, and every other reset token of its user, is refused from then on |
| Migration.OwnerIsTheOnlyPairing | internal/server/schema.go:298-310 | the owner backfill applies iff a device is paired with exactly one user, and gives that user |
| Migration.MigratedDeviceIsExact | internal/server/schema.go:210-310 | of a device, migration fills in the only paired user where there is none, marks keys that are not disabled as legacy, and keeps the rest |
| Migration.DisabledKeys | internal/server/schema.go:214-219 | disabled keys are told by their prefix, whatever its case |
| Migration.RepliesAfterMigration | internal/server/schema.go:361-382 | the stored replies of the old table, which did not tell users apart, are dropped, and scoped ones kept |
| Migration.TokensAfterMigration | internal/server/schema.go:222-262 | every plain token is found under its hash with its row, and nothing else is |
| Migration.MigratedOpsKeepTheirDevicesScope | internal/server/schema.go:298-329 | an unscoped operation gets exactly the scope the server grants the device that pushed it, or none when it grants none |
| Migration.HalfScopedOpsKeepTheirHalf | internal/server/schema.go:312-329 | an operation with only a user or only a vault keeps it and takes the other half from its device; that is the device's own scope iff the half it had is the device's |
| Migration.OnlyEmptyHalvesAreFilled | internal/server/schema.go:312-329 | an operation keeps everything but an empty half of its scope, and gets no vault without a user |
| Migration.TombstonesSurvive | internal/server/schema.go:331-359 | every old tombstone whose operation has a scope survives under it, none lost to OR IGNORE |
| Migration.NoTombstoneAppears | internal/server/schema.go:349-356 | every migrated tombstone was there before |
| Migration.MigrationIsIdempotent | internal/server/schema.go:155-208 | migrating a migrated database changes nothing |
| Migration.RehashTokens | internal/server/schema.go:242-259 | the row loop stores each token's row under its hash and nothing else |
| Migration.RegisterImpliesPair | internal/server/handlers_api.go:320-332 | a vault that registration accepts is accepted by pairing under the same name |
| Migration.VaultNames | internal/server/handlers_api.go:68-76 | a vault name loses the space around it and is refused iff it is empty, starts with the legacy prefix or is too long; for registration the space counts |
| Migration.BlankIsTrimmedAway | internal/server/sync_contract.go:70-72 | a required field is blank iff trimming leaves nothing of it |
| Migration.EnrolledScopesAreNotLegacy | internal/server/handlers_api.go:68-76 | a newly enrolled device's scope is the vault it asked for and never a scope made up by the migration |
| Migration.EnrolledDeviceKeepsItsToken | internal/server/schema.go:210-220 | migrating again never marks the placeholder key of a new device as legacy: its token stays the only key that opens it |
| Decimal.StrconvItoa | internal/server/rate.go:73-93 | the loop stays within its 20-byte array and writes the canonical decimal, or a bare sign for the least integer |
| Decimal.PrintsItself | internal/server/rate.go:73-93 | parsing the result gives the number back iff it is not the least 64-bit integer |
| Decimal.NoLeadingZero | internal/server/rate.go:73-93 | the result has no leading zero |
| Server.Server.ReadDevice | internal/server/middleware.go:41-72 | the first reads identify what the specification identifies: only an unrevoked device of the key, and, when no query fails, every one that holds it alone |
| Server.Server.ReadUser | internal/server/middleware.go:24-39 | the later read admits what the specification admits: a user in good standing, always and only |
| Server.Server.EnrollDevice | internal/server/handlers_api.go:358-379 | the device and its pairing are added together or not at all, and never over an enrolled device |
| Server.Server.RevokeDevice | internal/server/devices.go:28-41 | the transaction revokes the device, or changes nothing; afterwards no row lets it in |
| Server.Server.ReadBlocked | internal/server/handlers_admin.go:335-347 | the toggle's first statement gives the flag of an existing user |
| Server.Server.SetBlocked | internal/server/handlers_admin.go:348-364 | the transaction sets the flag given together with the deletion of the user's sessions, or changes nothing; a blocked user is not admitted |
| Server.Server.SyncPush | internal/server/handlers_api.go:386-542 | the handler takes exactly the step of the state machine, or none when any statement fails |
| Server.Server.PushLoop | internal/server/handlers_api.go:436-518 | the loop over a growing log computes the closed form over the log it started from |
| Server.Server.ValidateScopedBlobReferences | internal/server/blobs.go:239-277 | the loop returns the code of the first operation whose reference check fails |
| Server.Server.ReadServerSequence | internal/server/handlers_api.go:562-567 | the first read is the highest sequence of the scope |
| Server.Server.ReadPage | internal/server/handlers_api.go:557-614 | the second read is the page of the specification, of exactly the rows left up to the limit asked for or the maximum; a page with more to come has moved the cursor |
| Server.Server.AttachBlob | internal/server/blobs.go:122-188 | the method's tables, files and result are those of the specification for some fault |
| Server.Server.BlobUpload | internal/server/blobs.go:30-115 | the handler takes the upload step of the state machine |
| Server.Server.BlobDownload | internal/server/blobs.go:190-233 | the handler takes the download step, and what it serves has the hash that was asked for |
| Server.Server.DeleteUser | internal/server/handlers_admin.go:412-444 | the deletes take effect together or not at all, and as the state machine says |
| Server.Server.CleanupRetention | internal/server/retention.go:13-45 | retention removes expired sessions and tokens, old replies, old audit rows and stale temporary uploads only, each as far as it got; operations, references and blobs stay |
| Server.Server.RetainedIsExact | internal/server/retention.go:13-25 | each table is swept as far as the job got, sessions and tokens by their own clock readings and audit rows by a cutoff of whole days |
| Server.Server.CreateSession | internal/server/sessions.go:37-59 | a session is stored for the admin and user scopes only, under the hash of its token |
| Server.Server.LoadSession | internal/server/sessions.go:61-87 | the method answers as specified whether or not its best-effort write succeeds |
| Server.Server.ResetPasswordWithToken | internal/server/password_reset.go:16-72 | the transaction is the specified reset, or nothing when a statement fails |

## Left out

- HTTP, JSON and multipart decoding, cookies, routing, templates, locales, SMTP, CSRF, proxies and the server lifecycle: library behaviour or presentation.
- Text is modelled as decoded characters and measured in UTF-8 bytes; error messages are left out and error codes kept.
- bcrypt, token generation and SHA-256: a password is its hash, generated tokens are new, and a hash is the content it digests.
- Passwords and rights behind pairing, revoking and blocking: in `Access.dfy` these are events that may happen at any time.
- The `last_seen` columns, and writing to `server_audit_log`: no other behaviour reads them.
- The commit-failure cleanup of `attachBlob` after the connection has been given back: an upload is one step here, so another upload between the failed commit and the removal of the file is not covered.
- Timestamps in other RFC 3339 forms, with an offset or a fraction: only the UTC form that the server writes is parsed.
- The AUTOINCREMENT limit of 2^63-1 and the 64-bit width of sequences: the counter is unbounded.
- `Retry-After` rounds a floating-point number of seconds up in the source; the model rounds exactly.
- Limiter times are unbounded integers, so overflow of Go durations is not modelled.
- A failing `ReadDir` or `Info` in retention is modelled as stopping there, and a missing blob directory as an empty one.
- Accounts.RetentionIsUnobservable: does not tell the two refusals of a reset apart; ResetsUnchangedIffNoneSwept says when they differ.

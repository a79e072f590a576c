/**
 Retries: an operation enters the log at most once, and pushing a committed batch again
 changes nothing. Conflicts: what a fresh reply reports about other devices' operations.
 */
module ExactlyOnce {
  import opened Schema
  import opened Timestamps
  import opened PushSpec
  import opened OpLog
  import opened BlobStore
  import opened Relay

  /** A push that is carried out: it did not fail, was not refused and did not find a stored reply. */
  predicate CarriedOut(limits: Limits, s: System, e: Event) {
    && e.PushEvent? && !e.fails
    && Refusal(limits, s.db, e.device, e.request) == ""
    && !IsReplay(s.db, e.device, e.request)
  }

  /** A push that is carried out and lists `id` as accepted. */
  predicate Accepts(limits: Limits, s: System, e: Event, id: string) {
    CarriedOut(limits, s, e) && id in FreshReply(s.db, e.device, e.request).accepted
  }

  predicate NoDeletions(es: seq<Event>) {
    forall e | e in es :: e.DeleteUserEvent? ==> e.fails
  }

  // ---------------------------------------------------------------- the log

  /** Every id of a batch that was carried out is in the log afterwards. */
  lemma CarriedOutIsLogged(limits: Limits, s: System, e: Event, id: string)
    requires CarriedOut(limits, s, e) && id in Ids(e.request.ops)
    ensures id in OpIds(Next(limits, s, e).db.ops)
  {
    FreshCovers(s.db.ops, e.request.ops, id);
    LoggedIds(s.db, e.device, e.request.key, e.at, e.request.ops, id);
  }

  lemma ChangeKeepsIds(before: Tables, after: Tables, c: LogChange)
    requires Changes(before, after, c) && !c.Drops?
    ensures OpIds(before.ops) <= OpIds(after.ops)
  {
    if c.Adds? {
      OpIdsAppend(before.ops, c.rows);
    }
  }

  lemma {:induction false} RunKeepsIds(limits: Limits, s: System, es: seq<Event>)
    requires NoDeletions(es)
    ensures OpIds(s.db.ops) <= OpIds(Run(limits, s, es).db.ops)
    decreases es
  {
    if es != [] {
      var c := LogAfter(limits, s, es[0]);
      ChangeKeepsIds(s.db, Next(limits, s, es[0]).db, c);
      RunKeepsIds(limits, Next(limits, s, es[0]), es[1..]);
    }
  }

  lemma AcceptedRow(limits: Limits, s: System, e: Event, id: string) returns (row: OpRow)
    requires Accepts(limits, s, e, id)
    ensures row in Next(limits, s, e).db.ops && row.op.opId == id && row.scope == e.device.scope
  {
    var added := Fresh(s.db.ops, e.request.ops);
    var i :| 0 <= i < |added| && Ids(added)[i] == id;
    row := RowOf(e.device, e.request.key, e.at, s.db.counter + 1 + i, added[i]);
    assert NewRows(e.device, e.request.key, e.at, s.db.counter + 1, added)[i] == row;
  }

  /** Accepted are exactly the batch's ids that the log did not have, whichever user logged them. */
  lemma AcceptedAreTheNewIds(t: Tables, d: Device, req: PushRequest, id: string)
    ensures id in FreshReply(t, d, req).accepted <==> id in Ids(req.ops) && id !in OpIds(t.ops)
  {
    FreshCovers(t.ops, req.ops, id);
    FreshIsNew(t.ops, req.ops);
    var added := Fresh(t.ops, req.ops);
    if id in Ids(added) {
      var i :| 0 <= i < |added| && Ids(added)[i] == id;
      assert added[i] in added;
    }
  }

  /** Exactly once: as long as the user who pushed it is not deleted, an id that one push has listed
      as accepted is never listed by another, from whatever user, device or batch. */
  lemma AcceptedOnce(limits: Limits, s: System, first: Event, es: seq<Event>, second: Event, id: string)
    requires Accepts(limits, s, first, id) && NeverDeletes(es, first.device.scope.user)
    ensures !Accepts(limits, Run(limits, Next(limits, s, first), es), second, id)
  {
    var row := AcceptedRow(limits, s, first, id);
    RowStays(limits, Next(limits, s, first), es, row);
    if second.PushEvent? {
      AcceptedAreTheNewIds(Run(limits, Next(limits, s, first), es).db, second.device, second.request, id);
    }
  }

  /** A logged row stays until its user is deleted. */
  lemma RowStays(limits: Limits, s: System, es: seq<Event>, row: OpRow)
    requires row in s.db.ops && NeverDeletes(es, row.scope.user)
    ensures row in Run(limits, s, es).db.ops
  {
    var more := RunAppends(limits, s, es, row.scope);
    SelectMember(InScope(row.scope), s.db.ops, row);
    SelectMember(InScope(row.scope), Run(limits, s, es).db.ops, row);
  }

  /** One reply lists no id twice. */
  lemma AcceptedIdsDiffer(t: Tables, d: Device, req: PushRequest)
    ensures var ids := FreshReply(t, d, req).accepted;
            forall i, j | 0 <= i < j < |ids| :: ids[i] != ids[j]
  {
    FreshIsNew(t.ops, req.ops);
  }

  lemma {:induction false} FreshOfKnown(log: seq<OpRow>, batch: seq<Operation>)
    requires forall id | id in Ids(batch) :: id in OpIds(log)
    ensures Fresh(log, batch) == []
  {
    if batch != [] {
      var before := batch[..|batch| - 1];
      forall id | id in Ids(before) ensures id in OpIds(log) {
        var i :| 0 <= i < |before| && Ids(before)[i] == id;
        assert Ids(batch)[i] == id;
      }
      FreshOfKnown(log, before);
      assert Ids(batch)[|batch| - 1] == batch[|batch| - 1].opId;
    }
  }

  // ---------------------------------------------------------------- references never shrink

  /** The check a batch has passed it passes again. */
  lemma ReferencesStillPass(a: seq<RefRow>, b: seq<RefRow>, scope: Scope, ops: seq<Operation>)
    requires CheckReferences(a, scope, ops) == "" && RefsKept(scope, a, b)
    ensures CheckReferences(b, scope, ops) == ""
  {
    CheckReferencesPass(a, scope, ops);
    CheckReferencesPass(b, scope, ops);
    forall op | op in ops ensures CheckReference(b, scope, op) == "" {
      ChecksCarryOver(a, b, scope, op);
    }
  }

  // ---------------------------------------------------------------- retries

  /** A batch whose ids are all in the log adds nothing to it. */
  lemma KnownBatchAddsNothing(limits: Limits, t: Tables, d: Device, req: PushRequest, at: Timestamp)
    requires Fresh(t.ops, req.ops) == [] && Refusal(limits, t, d, req) == ""
    ensures var (t', response) := Push(limits, t, d, req, at);
            && t'.ops == t.ops && t'.revisions == t.revisions
            && t'.counter == t.counter && t'.tombstones == t.tombstones
            && response.Replied?
            && (!IsReplay(t, d, req) ==> response.reply.accepted == [])
  {
    assert Extend(t, d, req.key, at, []) == t;
  }

  /** Pushing a committed batch again, from any device of its scope and under any key or none, leaves
      the log, the revisions, the counter and the tombstones as they are. If the retry is carried out
      rather than answered from a stored reply, it accepts nothing. */
  lemma {:induction false} RetryChangesNothing(limits: Limits, s: System, first: Event, es: seq<Event>, retry: Event)
    requires CarriedOut(limits, s, first) && NoDeletions(es)
    requires retry.PushEvent? && !retry.fails
    requires retry.device.scope == first.device.scope && retry.request.ops == first.request.ops
    requires ValidateSyncPush(limits, retry.request) == ""
    ensures var s2 := Run(limits, Next(limits, s, first), es);
            var (s3, outcome) := Step(limits, s2, retry);
            && s3.db.ops == s2.db.ops && s3.db.revisions == s2.db.revisions
            && s3.db.counter == s2.db.counter && s3.db.tombstones == s2.db.tombstones
            && outcome.Pushed? && outcome.push.Replied?
            && (CarriedOut(limits, s2, retry) ==> outcome.push.reply.accepted == [])
  {
    RetryFindsAll(limits, s, first, es);
    KnownBatchAddsNothing(limits, Run(limits, Next(limits, s, first), es).db, retry.device, retry.request, retry.at);
  }

  lemma {:induction false} RetryFindsAll(limits: Limits, s: System, first: Event, es: seq<Event>)
    requires CarriedOut(limits, s, first) && NoDeletions(es)
    ensures var db := Run(limits, Next(limits, s, first), es).db;
            Fresh(db.ops, first.request.ops) == []
            && CheckReferences(db.refs, first.device.scope, first.request.ops) == ""
  {
    var s1 := Next(limits, s, first);
    var s2 := Run(limits, s1, es);
    RunKeepsIds(limits, s1, es);
    forall id | id in Ids(first.request.ops) ensures id in OpIds(s2.db.ops) {
      CarriedOutIsLogged(limits, s, first, id);
    }
    FreshOfKnown(s2.db.ops, first.request.ops);
    RunKeepsRefs(limits, s1, es, first.device.scope);
    ReferencesStillPass(s1.db.refs, s2.db.refs, first.device.scope, first.request.ops);
  }

  /** A deletion that takes an operation with this id out of the log. */
  ghost predicate Frees(s: System, e: Event, id: string) {
    e.DeleteUserEvent? && !e.fails && exists row | row in s.db.ops :: row.op.opId == id && row.scope.user == e.user
  }

  /** Some event of a run frees the id, and no later one logs it again. */
  ghost predicate Lost(limits: Limits, s: System, es: seq<Event>, id: string) {
    es != [] &&
    var n := |es| - 1;
    var t := Run(limits, s, es[..n]);
    Frees(t, es[n], id) || (Lost(limits, s, es[..n], id) && !Accepts(limits, t, es[n], id))
  }

  /** What one event does to an id. */
  lemma IdAfterStep(limits: Limits, s: System, e: Event, id: string)
    requires LogInv(s.db)
    ensures id in OpIds(Next(limits, s, e).db.ops) <==>
            if id in OpIds(s.db.ops) then !Frees(s, e, id) else Accepts(limits, s, e, id)
  {
    var after := Next(limits, s, e).db;
    var c := LogAfter(limits, s, e);
    if c.Drops? {
      IdAfterDeletion(s.db.ops, c.user, id);
    } else {
      ChangeKeepsIds(s.db, after, c);
      if Accepts(limits, s, e, id) {
        var row := AcceptedRow(limits, s, e, id);
      } else if id !in OpIds(s.db.ops) && id in OpIds(after.ops) {
        var row :| row in after.ops && row.op.opId == id;
        NewIdWasAccepted(limits, s, e, row);
      }
      if Frees(s, e, id) {
        assert Next(limits, s, e).db == WithoutUser(s.db, e.user);
        IdAfterDeletion(s.db.ops, e.user, id);
      }
    }
  }

  lemma NewIdWasAccepted(limits: Limits, s: System, e: Event, row: OpRow)
    requires row in Next(limits, s, e).db.ops && row.op.opId !in OpIds(s.db.ops)
    ensures Accepts(limits, s, e, row.op.opId)
  {
    assert row !in s.db.ops;
    RowAfterStep(limits, s, e, row);
    assert Next(limits, s, e) != s;
    var i :| 0 <= i < |e.request.ops| && e.request.ops[i] == row.op;
    assert Ids(e.request.ops)[i] == row.op.opId;
    AcceptedAreTheNewIds(s.db, e.device, e.request, row.op.opId);
  }

  lemma IdAfterDeletion(log: seq<OpRow>, user: string, id: string)
    requires DistinctIds(log)
    ensures id in OpIds(Select(NotOfUser(user), log)) <==>
            id in OpIds(log) && !exists row | row in log :: row.op.opId == id && row.scope.user == user
  {
    forall row ensures row in Select(NotOfUser(user), log) <==> row in log && row.scope.user != user {
      SelectMember(NotOfUser(user), log, row);
    }
    forall x, y | x in log && y in log && x.op.opId == id && y.op.opId == id ensures x == y {
      var i :| 0 <= i < |log| && log[i] == x;
      var j :| 0 <= j < |log| && log[j] == y;
      assert i == j;
    }
  }

  /** A logged id is gone after a run iff the run lost it. */
  lemma {:induction false} IdAfterRun(limits: Limits, s: System, es: seq<Event>, id: string)
    requires SystemInv(s) && id in OpIds(s.db.ops)
    ensures id !in OpIds(Run(limits, s, es).db.ops) <==> Lost(limits, s, es, id)
  {
    if es != [] {
      var n := |es| - 1;
      assert es == es[..n] + [es[n]];
      RunLast(limits, s, es[..n], es[n]);
      IdAfterRun(limits, s, es[..n], id);
      RunKeepsInv(limits, s, es[..n]);
      IdAfterStep(limits, Run(limits, s, es[..n]), es[n], id);
    }
  }

  /** With deletions of other users in between: a retry that is carried out accepts exactly the ids of its batch that
      were freed by the deletion of whoever had logged them first and not logged again since. */
  lemma RetryAcceptsWhatWasLost(limits: Limits, s: System, first: Event, es: seq<Event>, retry: Event, id: string)
    requires SystemInv(s) && CarriedOut(limits, s, first) && NeverDeletes(es, first.device.scope.user)
    requires retry.PushEvent? && !retry.fails
    requires retry.device.scope == first.device.scope && retry.request.ops == first.request.ops
    requires ValidateSyncPush(limits, retry.request) == ""
    ensures var s1 := Next(limits, s, first);
            var s2 := Run(limits, s1, es);
            && Refusal(limits, s2.db, retry.device, retry.request) == ""
            && (Accepts(limits, s2, retry, id) <==>
                  CarriedOut(limits, s2, retry) && id in Ids(first.request.ops) && Lost(limits, s1, es, id))
  {
    var s1 := Next(limits, s, first);
    var s2 := Run(limits, s1, es);
    RunKeepsRefs(limits, s1, es, first.device.scope);
    ReferencesStillPass(s1.db.refs, s2.db.refs, first.device.scope, first.request.ops);
    AcceptedAreTheNewIds(s2.db, retry.device, retry.request, id);
    if id in Ids(first.request.ops) {
      CarriedOutIsLogged(limits, s, first, id);
      StepKeepsInv(limits, s, first);
      IdAfterRun(limits, s1, es, id);
    }
  }

  /** No retention run in `es` reaches a reply stored at `at`. */
  predicate NotExpired(es: seq<Event>, at: Timestamp) {
    forall e | e in es :: e.ExpireRepliesEvent? && !e.fails ==> !TextLess(at, e.cutoff)
  }

  lemma StepKeepsReply(limits: Limits, s: System, e: Event, key: ReplyKey)
    requires key in s.db.replies && !Deletes(e, key.scope.user) && NotExpired([e], s.db.replies[key].createdAt)
    ensures var after := Next(limits, s, e).db.replies; key in after && after[key] == s.db.replies[key]
  {
    assert e in [e];
    match e
    case PushEvent(d, req, at, fails) =>
    case UploadEvent(up, content, at, fault) => UploadCases(limits, s.db, s.files, up, content, at, fault);
    case DownloadEvent(_, _, _, _) =>
    case DeleteUserEvent(_, _) =>
    case ExpireRepliesEvent(_, _) =>
  }

  lemma {:induction false} RunKeepsReply(limits: Limits, s: System, es: seq<Event>, key: ReplyKey)
    requires key in s.db.replies && NeverDeletes(es, key.scope.user) && NotExpired(es, s.db.replies[key].createdAt)
    ensures var after := Run(limits, s, es).db.replies; key in after && after[key] == s.db.replies[key]
    decreases es
  {
    if es != [] {
      StepKeepsReply(limits, s, es[0], key);
      RunKeepsReply(limits, Next(limits, s, es[0]), es[1..], key);
    }
  }

  /** Until retention reaches it, a stored reply answers every later push of its scope under its key,
      whatever that push carries, and such a push changes nothing at all. */
  lemma {:induction false} StoredReplyAnswers(limits: Limits, s: System, first: Event, es: seq<Event>, later: Event)
    requires CarriedOut(limits, s, first) && first.request.key != ""
    requires NeverDeletes(es, first.device.scope.user) && NotExpired(es, first.at)
    requires later.PushEvent? && !later.fails
    requires later.device.scope == first.device.scope && later.request.key == first.request.key
    requires Refusal(limits, Run(limits, Next(limits, s, first), es).db, later.device, later.request) == ""
    ensures var s2 := Run(limits, Next(limits, s, first), es);
            Step(limits, s2, later) == (s2, Step(limits, s, first).1)
  {
    RunKeepsReply(limits, Next(limits, s, first), es, KeyOf(first.device, first.request));
  }

  /** In particular an unchanged retry under the same key gets the reply of the first attempt. */
  lemma {:induction false} RetryGetsTheSameReply(limits: Limits, s: System, first: Event, es: seq<Event>, retry: Event)
    requires CarriedOut(limits, s, first) && first.request.key != ""
    requires NeverDeletes(es, first.device.scope.user) && NotExpired(es, first.at)
    requires retry.PushEvent? && !retry.fails
    requires retry.device.scope == first.device.scope && retry.request == first.request
    ensures var s2 := Run(limits, Next(limits, s, first), es);
            Step(limits, s2, retry) == (s2, Step(limits, s, first).1)
  {
    var s1 := Next(limits, s, first);
    RunKeepsRefs(limits, s1, es, first.device.scope);
    ReferencesStillPass(s1.db.refs, Run(limits, s1, es).db.refs, first.device.scope, first.request.ops);
    StoredReplyAnswers(limits, s, first, es, retry);
  }

  /** Event `i` of a run carried out a push under this scope and key, and its reply is the one stored. */
  ghost predicate StoredBy(limits: Limits, s: System, es: seq<Event>, key: ReplyKey, stored: StoredReply, i: nat) {
    && i < |es| && CarriedOut(limits, Run(limits, s, es[..i]), es[i])
    && es[i].device.scope == key.scope && es[i].request.key == key.key
    && stored.createdAt == es[i].at
    && Step(limits, Run(limits, s, es[..i]), es[i]).1 == Pushed(Replied(stored.reply))
  }

  lemma ReplyAfterStep(limits: Limits, s: System, e: Event, key: ReplyKey)
    requires key in Next(limits, s, e).db.replies
    ensures var stored := Next(limits, s, e).db.replies[key];
            || (key in s.db.replies && s.db.replies[key] == stored)
            || (&& CarriedOut(limits, s, e) && e.device.scope == key.scope && e.request.key == key.key
                && stored.createdAt == e.at && Step(limits, s, e).1 == Pushed(Replied(stored.reply)))
  {
    match e
    case PushEvent(d, req, at, fails) =>
      if CarriedOut(limits, s, e) {
        CommitStoresReply(s.db, d, req, at, key);
        assert key.key == req.key && key.scope == d.scope ==> key == ReplyKey(d.scope, req.key);
      }
    case UploadEvent(up, content, at, fault) => UploadCases(limits, s.db, s.files, up, content, at, fault);
    case DownloadEvent(_, _, _, _) =>
    case DeleteUserEvent(_, _) =>
    case ExpireRepliesEvent(_, _) =>
  }

  /** Every stored reply is the reply of some push of the run that was carried out under its scope and key. */
  lemma {:induction false} StoredRepliesAreReplies(limits: Limits, es: seq<Event>, key: ReplyKey) returns (i: nat)
    requires key in Run(limits, INITIAL, es).db.replies
    ensures StoredBy(limits, INITIAL, es, key, Run(limits, INITIAL, es).db.replies[key], i)
  {
    i := 0;
    if es != [] {
      var n := |es| - 1;
      var before := Run(limits, INITIAL, es[..n]);
      assert es == es[..n] + [es[n]];
      RunLast(limits, INITIAL, es[..n], es[n]);
      ReplyAfterStep(limits, before, es[n], key);
      if key in before.db.replies && before.db.replies[key] == Run(limits, INITIAL, es).db.replies[key] {
        i := StoredRepliesAreReplies(limits, es[..n], key);
        assert es[..n][..i] == es[..i];
      } else {
        i := n;
      }
    }
  }

  /** No push is answered with the reply of another scope or another key: one that passes its checks is carried out, or
      it changes nothing and gets the answer of an earlier push of exactly its scope under exactly its key. */
  lemma ReplayIsOfTheSameKey(limits: Limits, es: seq<Event>, e: Event)
    requires e.PushEvent? && !e.fails && Refusal(limits, Run(limits, INITIAL, es).db, e.device, e.request) == ""
    ensures var s := Run(limits, INITIAL, es);
            || CarriedOut(limits, s, e)
            || (&& e.request.key != "" && Next(limits, s, e) == s
                && exists i: nat | i < |es| ::
                     && CarriedOut(limits, Run(limits, INITIAL, es[..i]), es[i])
                     && es[i].device.scope == e.device.scope && es[i].request.key == e.request.key
                     && Step(limits, s, e).1 == Step(limits, Run(limits, INITIAL, es[..i]), es[i]).1)
  {
    var s := Run(limits, INITIAL, es);
    if !CarriedOut(limits, s, e) {
      var i := StoredRepliesAreReplies(limits, es, KeyOf(e.device, e.request));
      assert es[i].device.scope == e.device.scope;
    }
  }

  /** Retention compares a reply's creation time with its cutoff as text. A reply it deletes is strictly
      older than the retention period, and one that is a second older than the period is deleted. */
  lemma DeletedRepliesAreOld(created: Instant, now: Instant, hours: nat)
    requires Formattable(created) && now >= hours * HOUR && Formattable(now - hours * HOUR)
    ensures TextLess(Format(created), Format(now - hours * HOUR)) ==> now - created > hours * HOUR
    ensures now - created >= hours * HOUR + SECOND ==> TextLess(Format(created), Format(now - hours * HOUR))
  {
    FormatOrder(created, now - hours * HOUR);
  }

  /** The cutoff of a retention run at `now`. */
  predicate IsCutoff(cutoff: Timestamp, now: Instant, hours: nat) {
    hours * HOUR <= now && Formattable(now - hours * HOUR) && cutoff == Format(now - hours * HOUR)
  }

  /** Every retention run in `es` happens no later than `hours` after `created`. */
  ghost predicate RetentionWithin(es: seq<Event>, created: Instant, hours: nat) {
    forall e | e in es && e.ExpireRepliesEvent? ::
      exists now: Instant :: IsCutoff(e.cutoff, now, hours) && now <= created + hours * HOUR
  }

  lemma {:induction false} YoungRepliesStay(es: seq<Event>, created: Instant, hours: nat)
    requires Formattable(created) && RetentionWithin(es, created, hours)
    ensures NotExpired(es, Format(created))
  {
    forall e | e in es && e.ExpireRepliesEvent? ensures !TextLess(Format(created), e.cutoff) {
      var now: Instant :| IsCutoff(e.cutoff, now, hours) && now <= created + hours * HOUR;
      DeletedRepliesAreOld(created, now, hours);
    }
  }

  /** For the whole retention period, measured on the clock, retrying a push under its key is exactly
      idempotent: same reply, no change. */
  lemma {:induction false} RetryWithinRetention(limits: Limits, s: System, first: Event, created: Instant, hours: nat,
                                                es: seq<Event>, retry: Event)
    requires CarriedOut(limits, s, first) && first.request.key != ""
    requires Formattable(created) && first.at == Format(created)
    requires NeverDeletes(es, first.device.scope.user) && RetentionWithin(es, created, hours)
    requires retry.PushEvent? && !retry.fails
    requires retry.device.scope == first.device.scope && retry.request == first.request
    ensures var s2 := Run(limits, Next(limits, s, first), es);
            Step(limits, s2, retry) == (s2, Step(limits, s, first).1)
  {
    YoungRepliesStay(es, created, hours);
    RetryGetsTheSameReply(limits, s, first, es, retry);
  }

  // ---------------------------------------------------------------- conflicts

  /** Another device's operation on the same entity, not a delete, that the pushing device had not seen. */
  predicate Rivalling(d: Device, op: Operation, row: OpRow) {
    && op.lastSeen > 0 && row.scope == d.scope && row.device != d.id
    && row.op.entityType == op.entityType && row.op.entityId == op.entityId && row.op.opType != "delete"
    && row.sequence.Some? && row.sequence.value > op.lastSeen
  }

  /** A reported conflict gives the id, device, type, sequence and entity of a logged operation. */
  predicate Describes(c: Conflict, row: OpRow) {
    && c.opId == row.op.opId && c.device == row.device && c.opType == row.op.opType
    && Some(c.sequence) == row.sequence
    && c.entityType == row.op.entityType && c.entityId == row.op.entityId
  }

  /** Conflict exactness: a reply reports exactly the rivals of the batch's operations in the log as it was before the
      push, and says of each what the log does. */
  lemma {:induction false} ConflictsAreExact(log: seq<OpRow>, d: Device, batch: seq<Operation>, c: Conflict)
    ensures c in Conflicts(log, d, batch) <==>
            exists op, row | op in batch && row in log :: Rivalling(d, op, row) && Describes(c, row)
  {
    if batch != [] {
      var before, op := batch[..|batch| - 1], batch[|batch| - 1];
      ConflictsAreExact(log, d, before, c);
      ConflictsOfOneExact(log, d, op, c);
      assert c in Conflicts(log, d, batch) <==> c in Conflicts(log, d, before) || c in ConflictsOf(log, d, op);
      assert forall o :: o in batch <==> o in before || o == op by {
        assert batch == before + [op];
      }
    }
  }

  lemma DescribedBy(d: Device, op: Operation, row: OpRow, c: Conflict)
    requires Rivalling(d, op, row)
    ensures Describes(c, row) <==> c == ConflictOf(op, row)
  {}

  lemma ConflictsOfOneExact(log: seq<OpRow>, d: Device, op: Operation, c: Conflict)
    ensures c in ConflictsOf(log, d, op) <==> exists row | row in log :: Rivalling(d, op, row) && Describes(c, row)
  {
    var rivals := Select(RivalsOf(d, op), log);
    forall row ensures row in rivals <==> row in log && Matches(RivalsOf(d, op), row) {
      SelectMember(RivalsOf(d, op), log, row);
    }
    forall row | row in log && Rivalling(d, op, row) ensures Describes(c, row) <==> c == ConflictOf(op, row) {
      DescribedBy(d, op, row, c);
    }
    if op.lastSeen > 0 {
      var list := ConflictsWith(op, rivals);
      forall row | row in log && Rivalling(d, op, row) ensures ConflictOf(op, row) in list {
        var i :| 0 <= i < |rivals| && rivals[i] == row;
        assert list[i] == ConflictOf(op, row);
      }
      if c in list {
        var i :| 0 <= i < |list| && list[i] == c;
        assert rivals[i] in rivals;
      }
    }
  }

  /** The conflicts of a longer batch follow those of a shorter one. */
  lemma {:induction false} ConflictsInOrder(log: seq<OpRow>, d: Device, a: seq<Operation>, b: seq<Operation>)
    ensures Conflicts(log, d, a) <= Conflicts(log, d, a + b)
  {
    if b == [] {
      assert a + b == a;
    } else {
      ConflictsInOrder(log, d, a, b[..|b| - 1]);
      assert (a + b)[..|a + b| - 1] == a + b[..|b| - 1];
    }
  }

  /** The conflicts of one operation come in ascending order of sequence. */
  lemma ConflictsAscend(t: Tables, d: Device, op: Operation)
    requires LogInv(t)
    ensures var list := ConflictsOf(t.ops, d, op);
            forall i, j | 0 <= i < j < |list| :: list[i].sequence < list[j].sequence
  {
    SelectOrdered(RivalsOf(d, op), t.ops, t.counter);
  }

  /** Of two concurrent operations on one entity, the one committed later learns of the earlier: if its
      device had seen some of the log, but not as far as the earlier operation, the fresh reply names it. */
  lemma LaterCommitterLearns(limits: Limits, s: System, row: OpRow, es: seq<Event>, e: Event, op: Operation)
    requires row in s.db.ops && NeverDeletes(es, row.scope.user)
    requires CarriedOut(limits, Run(limits, s, es), e) && op in e.request.ops
    requires Rivalling(e.device, op, row)
    ensures var outcome := Step(limits, Run(limits, s, es), e).1;
            && outcome.Pushed? && outcome.push.Replied?
            && exists c | c in outcome.push.reply.conflicts :: c.opId == row.op.opId && Describes(c, row)
  {
    RowStays(limits, s, es, row);
    DescribedBy(e.device, op, row, ConflictOf(op, row));
    ConflictsAreExact(Run(limits, s, es).db.ops, e.device, e.request.ops, ConflictOf(op, row));
  }
}

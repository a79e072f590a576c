/**
 The relay as a state machine. A transaction is one event, since the server holds a single
 database connection; any of its statements may fail, which leaves the tables as they were.
 Authentication happens before the transaction, so a push carries the scope it was granted
 and nothing is assumed about what was deleted or revoked in between.
 */
module Relay {
  import opened Schema
  import opened Timestamps
  import opened PushSpec
  import opened OpLog
  import opened BlobStore

  datatype System = System(db: Tables, files: Files)

  const INITIAL := System(EMPTY_TABLES, map[])

  datatype Event =
    | PushEvent(device: Device, request: PushRequest, at: Timestamp, fails: bool)
    | UploadEvent(scope: Scope, content: Content, at: Timestamp, fault: UploadFault)
    | DownloadEvent(scope: Scope, sha: Sha, at: Timestamp, fails: bool)
    | DeleteUserEvent(user: string, fails: bool)
    | ExpireRepliesEvent(cutoff: Timestamp, fails: bool)

  datatype Outcome =
    | Pushed(push: PushResponse)
    | Uploaded(upload: UploadResponse)
    | Downloaded(content: Option<Content>)
    | Done(failed: bool)

  /** DELETE FROM server_idempotency_keys WHERE created_at < cutoff */
  function WithoutOldReplies(replies: map<ReplyKey, StoredReply>, cutoff: Timestamp): map<ReplyKey, StoredReply> {
    map k | k in replies && !TextLess(replies[k].createdAt, cutoff) :: replies[k]
  }

  function Step(limits: Limits, s: System, e: Event): (System, Outcome) {
    match e
    case PushEvent(d, req, at, fails) =>
      if fails then (s, Pushed(InternalError))
      else
        var (db, response) := Push(limits, s.db, d, req, at);
        (s.(db := db), Pushed(response))
    case UploadEvent(scope, content, at, fault) =>
      var (db, files, response) := Upload(limits, s.db, s.files, scope, content, at, fault);
      (System(db, files), Uploaded(response))
    case DownloadEvent(scope, sha, at, fails) =>
      if fails then (s, Done(true))
      else
        var (db, content) := Fetch(s.db, s.files, scope, sha, at);
        (s.(db := db), Downloaded(content))
    case DeleteUserEvent(user, fails) =>
      if fails then (s, Done(true)) else (s.(db := WithoutUser(s.db, user)), Done(false))
    case ExpireRepliesEvent(cutoff, fails) =>
      if fails then (s, Done(true))
      else (s.(db := s.db.(replies := WithoutOldReplies(s.db.replies, cutoff))), Done(false))
  }

  function Next(limits: Limits, s: System, e: Event): System {
    Step(limits, s, e).0
  }

  function Run(limits: Limits, s: System, es: seq<Event>): System
    decreases es
  {
    if es == [] then s else Run(limits, Next(limits, s, es[0]), es[1..])
  }

  lemma {:induction false} RunLast(limits: Limits, s: System, es: seq<Event>, e: Event)
    ensures Run(limits, s, es + [e]) == Next(limits, Run(limits, s, es), e)
    decreases es
  {
    if es == [] {
      assert [e][1..] == [];
      assert es + [e] == [e];
    } else {
      assert (es + [e])[1..] == es[1..] + [e];
      RunLast(limits, Next(limits, s, es[0]), es[1..], e);
    }
  }

  predicate Deletes(e: Event, user: string) {
    e.DeleteUserEvent? && e.user == user && !e.fails
  }

  predicate NeverDeletes(es: seq<Event>, user: string) {
    forall e | e in es :: !Deletes(e, user)
  }

  /** Retention on the clock: it keeps exactly the replies that were not stored in an earlier second than its cutoff, as
      they were. */
  lemma ExpiryIsExact(replies: map<ReplyKey, StoredReply>, k: ReplyKey, stored: Instant, cutoff: Instant)
    requires Formattable(stored) && Formattable(cutoff)
    ensures var kept := WithoutOldReplies(replies, Format(cutoff));
            && (k in kept ==> k in replies && kept[k] == replies[k])
            && (k in replies && replies[k].createdAt == Format(stored) ==>
                  (k in kept <==> stored / SECOND >= cutoff / SECOND))
  {
    FormatOrder(stored, cutoff);
  }

  // ---------------------------------------------------------------- invariants of every run

  ghost predicate SystemInv(s: System) {
    LogInv(s.db) && BlobInv(s.db, s.files) && Restorable(s.db)
  }

  lemma PushKeepsInv(limits: Limits, s: System, e: Event)
    requires SystemInv(s) && e.PushEvent?
    ensures SystemInv(Next(limits, s, e))
  {
    if !e.fails && Refusal(limits, s.db, e.device, e.request) == "" && !IsReplay(s.db, e.device, e.request) {
      CommitKeepsLog(s.db, e.device, e.request, e.at);
      CommitKeepsRestorable(s.db, e.device, e.request, e.at);
    }
  }

  lemma StepKeepsInv(limits: Limits, s: System, e: Event)
    requires SystemInv(s)
    ensures SystemInv(Next(limits, s, e))
  {
    match e
    case PushEvent(_, _, _, _) => PushKeepsInv(limits, s, e);
    case UploadEvent(scope, content, at, fault) =>
      UploadCases(limits, s.db, s.files, scope, content, at, fault);
      UploadKeepsBlobs(limits, s.db, s.files, scope, content, at, fault);
      UploadKeepsRestorable(limits, s.db, s.files, scope, content, at, fault);
    case DownloadEvent(scope, sha, at, _) =>
      TouchKeepsBlobs(s.db, s.files, scope, sha, at);
      FetchKeepsRestorable(s.db, s.files, scope, sha, at);
    case DeleteUserEvent(user, _) =>
      DeletionKeepsLog(s.db, user);
      DeletionKeepsBlobs(s.db, s.files, user);
      DeletionKeepsRestorable(s.db, user);
    case ExpireRepliesEvent(_, _) =>
  }

  /** Every run keeps the log, its two indexes, the blob store and the restorability of the log. */
  lemma {:induction false} RunKeepsInv(limits: Limits, s: System, es: seq<Event>)
    requires SystemInv(s)
    ensures SystemInv(Run(limits, s, es))
    decreases es
  {
    if es != [] {
      StepKeepsInv(limits, s, es[0]);
      RunKeepsInv(limits, Next(limits, s, es[0]), es[1..]);
    }
  }

  lemma StepKeepsQuotas(limits: Limits, s: System, e: Event)
    requires FitsInt64(limits) && QuotaInv(limits, s.db)
    ensures QuotaInv(limits, Next(limits, s, e).db)
  {
    match e
    case PushEvent(_, _, _, _) =>
    case UploadEvent(scope, content, at, fault) =>
      UploadKeepsQuotas(limits, s.db, s.files, scope, content, at, fault);
    case DownloadEvent(scope, sha, at, _) =>
      FetchKeepsQuotas(limits, s.db, s.files, scope, sha, at);
    case DeleteUserEvent(user, _) =>
      DeletionKeepsQuotas(limits, s.db, user);
    case ExpireRepliesEvent(_, _) =>
  }

  lemma {:induction false} RunKeepsQuotas(limits: Limits, s: System, es: seq<Event>)
    requires FitsInt64(limits) && QuotaInv(limits, s.db)
    ensures QuotaInv(limits, Run(limits, s, es).db)
    decreases es
  {
    if es != [] {
      StepKeepsQuotas(limits, s, es[0]);
      RunKeepsQuotas(limits, Next(limits, s, es[0]), es[1..]);
    }
  }

  /** Quotas: in every state reachable from an empty store, every vault and every user is within its limit. */
  lemma QuotasHold(limits: Limits, es: seq<Event>, scope: Scope, user: string)
    requires Normalized(limits) && FitsInt64(limits)
    ensures Used(OfVault(scope), Run(limits, INITIAL, es).db.refs) <= limits.maxVaultBlobBytes
    ensures Used(OfOwner(user), Run(limits, INITIAL, es).db.refs) <= limits.maxUserBlobBytes
  {
    RunKeepsQuotas(limits, INITIAL, es);
  }

  /** Restorability over whole runs: whatever pushes, uploads, deletions, failures and crashes came
      before, the blob of a logged file operation downloads in full from the operation's own scope. */
  lemma EveryLoggedBlobIsServed(limits: Limits, es: seq<Event>, row: OpRow, claim: BlobClaim)
    requires row in Run(limits, INITIAL, es).db.ops
    requires row.op.entityType == "file" && row.op.payload.Fields? && row.op.payload.blob == Some(claim)
    ensures claim.sha.Digest? && claim.size == |claim.sha.content|
    ensures var s := Run(limits, INITIAL, es);
            Download(s.db, s.files, row.scope, claim.sha) == Some(claim.sha.content)
  {
    RunKeepsInv(limits, INITIAL, es);
    var s := Run(limits, INITIAL, es);
    LoggedBlobIsServed(s.db, s.files, row, claim);
  }

  // ---------------------------------------------------------------- whose blob is it

  lemma StepKeepsRefs(limits: Limits, s: System, e: Event, scope: Scope)
    requires !Deletes(e, scope.user)
    ensures RefsKept(scope, s.db.refs, Next(limits, s, e).db.refs)
  {
    match e
    case PushEvent(_, _, _, _) =>
    case UploadEvent(up, content, at, fault) =>
      UploadKeepsRefs(limits, s.db, s.files, up, content, at, fault, scope);
    case DownloadEvent(down, sha, at, _) =>
      TouchKeepsRefs(s.db.refs, down, sha, at, scope);
    case DeleteUserEvent(user, fails) =>
      if !fails {
        DeletionKeepsRefs(user, s.db.refs, scope);
      }
    case ExpireRepliesEvent(_, _) =>
  }

  lemma {:induction false} RunKeepsRefs(limits: Limits, s: System, es: seq<Event>, scope: Scope)
    requires NeverDeletes(es, scope.user)
    ensures RefsKept(scope, s.db.refs, Run(limits, s, es).db.refs)
    decreases es
  {
    if es != [] {
      StepKeepsRefs(limits, s, es[0], scope);
      RunKeepsRefs(limits, Next(limits, s, es[0]), es[1..], scope);
    }
  }

  predicate Uploads(e: Event, scope: Scope, sha: Sha) {
    e.UploadEvent? && e.scope == scope && Digest(e.content) == sha
  }

  lemma StepAddsNoRef(limits: Limits, s: System, e: Event, scope: Scope, sha: Sha)
    requires !HasRef(s.db.refs, scope, sha) && !Uploads(e, scope, sha)
    ensures !HasRef(Next(limits, s, e).db.refs, scope, sha)
  {
    match e
    case PushEvent(_, _, _, _) =>
    case UploadEvent(up, content, at, fault) =>
      UploadCases(limits, s.db, s.files, up, content, at, fault);
      TouchAddsNoRef(s.db.refs, up, Digest(content), at, scope, sha);
    case DownloadEvent(down, h, at, _) => TouchAddsNoRef(s.db.refs, down, h, at, scope, sha);
    case DeleteUserEvent(user, _) =>
      forall row | row in RefsWithout(user, s.db.refs) ensures row in s.db.refs {
        RefsOfOthers(user, s.db.refs, row);
      }
    case ExpireRepliesEvent(_, _) =>
  }

  /** A step whose statements fail changes nothing and says so, and no other step says so. */
  lemma FailuresAreReported(limits: Limits, s: System, e: Event)
    ensures e.PushEvent? && e.fails ==> Step(limits, s, e) == (s, Pushed(InternalError))
    ensures (e.DownloadEvent? || e.DeleteUserEvent? || e.ExpireRepliesEvent?) && e.fails ==>
              Step(limits, s, e) == (s, Done(true))
    ensures Step(limits, s, e).1 in {Pushed(InternalError), Done(true)} ==> !e.UploadEvent? && e.fails
  {}

  lemma TouchAddsNoRef(refs: seq<RefRow>, touched: Scope, h: Sha, at: Timestamp, scope: Scope, sha: Sha)
    requires !HasRef(refs, scope, sha)
    ensures !HasRef(Touch(refs, touched, h, at), scope, sha)
  {
    var after := Touch(refs, touched, h, at);
    TouchRows(refs, touched, h, at);
    forall row | row in after ensures row.scope != scope || row.sha != sha {
      var i :| 0 <= i < |after| && after[i] == row;
      assert refs[i] in refs;
    }
  }

  lemma {:induction false} OnlyUploadsAddRefs(limits: Limits, s: System, es: seq<Event>, scope: Scope, sha: Sha)
    requires !HasRef(s.db.refs, scope, sha) && forall e | e in es :: !Uploads(e, scope, sha)
    ensures !HasRef(Run(limits, s, es).db.refs, scope, sha)
    decreases es
  {
    if es != [] {
      StepAddsNoRef(limits, s, es[0], scope, sha);
      OnlyUploadsAddRefs(limits, Next(limits, s, es[0]), es[1..], scope, sha);
    }
  }

  /** Vaults are separate: a scope that has never uploaded a content itself cannot download it, whatever other scopes
      hold, those of the same user included. */
  lemma VaultsAreSeparate(limits: Limits, es: seq<Event>, scope: Scope, content: Content, at: Timestamp)
    requires forall e | e in es :: !Uploads(e, scope, Digest(content))
    ensures var s := Run(limits, INITIAL, es);
            && Download(s.db, s.files, scope, Digest(content)) == None
            && Step(limits, s, DownloadEvent(scope, Digest(content), at, false)) == (s, Downloaded(None))
  {
    var s := Run(limits, INITIAL, es);
    OnlyUploadsAddRefs(limits, INITIAL, es, scope, Digest(content));
    RunKeepsInv(limits, INITIAL, es);
    RefSizeIsExact(s.db.refs, scope, Digest(content), 0);
  }

  /** A file operation that refers to a content with a size that is not negative. */
  predicate RefersTo(op: Operation, content: Content) {
    && op.entityType == "file" && op.payload.Fields? && !op.payload.inline
    && op.payload.blob.Some? && op.payload.blob.value.sha == Digest(content) && op.payload.blob.value.size >= 0
  }

  lemma RefusedPush(limits: Limits, s: System, e: Event)
    requires e.PushEvent? && !e.fails && Refusal(limits, s.db, e.device, e.request) != ""
    ensures Step(limits, s, e) == (s, Pushed(Rejected(Refusal(limits, s.db, e.device, e.request))))
  {}

  /** Nor can it push an operation that refers to it. The push is refused, and with this very code when the operation
      is the first that fails. */
  lemma ForeignBlobIsRefused(limits: Limits, es: seq<Event>, e: Event, i: nat, content: Content)
    requires e.PushEvent? && !e.fails && i < |e.request.ops| && RefersTo(e.request.ops[i], content)
    requires forall u | u in es :: !Uploads(u, e.device.scope, Digest(content))
    ensures var s := Run(limits, INITIAL, es);
            var (s', outcome) := Step(limits, s, e);
            && s' == s && outcome.Pushed? && outcome.push.Rejected?
            && (ValidateSyncPush(limits, e.request) == ""
                && (forall j | 0 <= j < i :: CheckReference(s.db.refs, e.device.scope, e.request.ops[j]) == "") ==>
                  outcome.push.code == "blob_not_owned")
  {
    var s, op := Run(limits, INITIAL, es), e.request.ops[i];
    var refs, scope := s.db.refs, e.device.scope;
    OnlyUploadsAddRefs(limits, INITIAL, es, scope, Digest(content));
    RunKeepsInv(limits, INITIAL, es);
    ReferenceCode(refs, scope, op);
    CheckReferencesPass(refs, scope, e.request.ops);
    assert op in e.request.ops && CheckReference(refs, scope, op) == "blob_not_owned";
    FirstBadReferenceDecides(refs, scope, e.request.ops);
    RefusedPush(limits, s, e);
  }

  /** A stored upload can be downloaded from its scope until its user is deleted. */
  lemma UploadedIsServed(limits: Limits, s: System, up: Event, es: seq<Event>)
    requires SystemInv(s) && up.UploadEvent? && NeverDeletes(es, up.scope.user)
    requires var outcome := Step(limits, s, up).1; outcome.Uploaded? && outcome.upload.Stored?
    ensures var s' := Run(limits, Next(limits, s, up), es);
            Download(s'.db, s'.files, up.scope, Digest(up.content)) == Some(up.content)
  {
    var s1, sha := Next(limits, s, up), Digest(up.content);
    var s' := Run(limits, s1, es);
    StepKeepsInv(limits, s, up);
    RunKeepsInv(limits, s1, es);
    RunKeepsRefs(limits, s1, es, up.scope);
    UploadCases(limits, s.db, s.files, up.scope, up.content, up.at, up.fault);
    TouchSize(s.db.refs, up.scope, sha, up.at, up.scope, sha);
    RefAppended(s.db.refs, RefRow(up.scope, sha, |up.content|, up.at, up.at), OfAnyone, up.scope, sha);
    assert RefSize(s1.db.refs, up.scope, sha).Some?;
    RefSizeFound(s'.db.refs, up.scope, sha);
  }

  // ---------------------------------------------------------------- the log only grows

  /** `after` continues `before`: rows that are not old have sequences beyond the old counter. */
  ghost predicate Continues(before: Tables, after: Tables) {
    && before.counter <= after.counter
    && forall row | row in after.ops :: row in before.ops || Number(row) > before.counter
  }

  /** What an event does to the log of a user it does not delete: append rows numbered past the counter. */
  ghost predicate Appends(before: Tables, after: Tables, scope: Scope, more: seq<OpRow>) {
    && Select(InScope(scope), after.ops) == Select(InScope(scope), before.ops) + more
    && forall row | row in more :: row.sequence.Some? && Number(row) > before.counter
  }

  /** What a transaction does to the log. */
  datatype LogChange = Same | Adds(rows: seq<OpRow>) | Drops(user: string)

  ghost predicate Changes(before: Tables, after: Tables, c: LogChange) {
    match c
    case Same => after.ops == before.ops && after.counter == before.counter
    case Adds(rows) =>
      && after.ops == before.ops + rows && after.counter == before.counter + |rows|
      && forall row | row in rows :: row.sequence.Some? && Number(row) > before.counter
    case Drops(user) => after.ops == Select(NotOfUser(user), before.ops) && after.counter == before.counter
  }

  lemma NewRowsMember(d: Device, key: string, at: Timestamp, first: nat, added: seq<Operation>, row: OpRow)
    requires row in NewRows(d, key, at, first, added)
    ensures row.sequence.Some? && Number(row) >= first && row.scope == d.scope && row.device == d.id
    ensures row.key == key && row.pushedAt == at && row.op in added
  {}

  lemma LogAfterPush(limits: Limits, t: Tables, d: Device, req: PushRequest, at: Timestamp) returns (c: LogChange)
    ensures Changes(t, Push(limits, t, d, req, at).0, c) && !c.Drops?
    ensures c.Adds? ==> forall row | row in c.rows :: row.scope == d.scope && row.device == d.id
  {
    c := Same;
    var after := Push(limits, t, d, req, at).0;
    if after != t {
      assert after == Committed(t, d, req, at);
      var added := Fresh(t.ops, req.ops);
      assert after.ops == t.ops + NewRows(d, req.key, at, t.counter + 1, added) && after.counter == t.counter + |added|;
      c := Adds(NewRows(d, req.key, at, t.counter + 1, added));
      forall row | row in c.rows
        ensures row.sequence.Some? && Number(row) > t.counter && row.scope == d.scope && row.device == d.id
      {
        NewRowsMember(d, req.key, at, t.counter + 1, added, row);
      }
    }
  }

  lemma LogAfter(limits: Limits, s: System, e: Event) returns (c: LogChange)
    ensures Changes(s.db, Next(limits, s, e).db, c)
    ensures c.Drops? ==> Deletes(e, c.user)
    ensures c.Adds? ==> e.PushEvent? && forall row | row in c.rows :: row.scope == e.device.scope
  {
    c := Same;
    match e
    case PushEvent(d, req, at, fails) =>
      if !fails {
        c := LogAfterPush(limits, s.db, d, req, at);
      }
    case UploadEvent(scope, content, at, fault) => UploadCases(limits, s.db, s.files, scope, content, at, fault);
    case DownloadEvent(_, _, _, _) =>
    case DeleteUserEvent(user, fails) =>
      if !fails {
        c := Drops(user);
      }
    case ExpireRepliesEvent(_, _) =>
  }

  lemma ChangeContinues(before: Tables, after: Tables, c: LogChange)
    requires Changes(before, after, c)
    ensures Continues(before, after)
  {
    if c.Drops? {
      forall row | row in after.ops ensures row in before.ops {
        SelectMember(NotOfUser(c.user), before.ops, row);
      }
    }
  }

  lemma StepContinues(limits: Limits, s: System, e: Event)
    ensures Continues(s.db, Next(limits, s, e).db)
  {
    var c := LogAfter(limits, s, e);
    ChangeContinues(s.db, Next(limits, s, e).db, c);
  }

  lemma {:induction false} RunContinues(limits: Limits, s: System, es: seq<Event>)
    ensures Continues(s.db, Run(limits, s, es).db)
    decreases es
  {
    if es != [] {
      StepContinues(limits, s, es[0]);
      RunContinues(limits, Next(limits, s, es[0]), es[1..]);
    }
  }

  /** The push that a row records. */
  predicate RecordsPush(row: OpRow, e: Event) {
    && e.PushEvent? && !e.fails && row.op in e.request.ops
    && row.scope == e.device.scope && row.device == e.device.id && row.key == e.request.key && row.pushedAt == e.at
  }

  lemma RowAfterPush(limits: Limits, t: Tables, e: Event, row: OpRow)
    requires e.PushEvent? && !e.fails && row in Push(limits, t, e.device, e.request, e.at).0.ops
    ensures row in t.ops || RecordsPush(row, e)
  {
    if row !in t.ops {
      var added := Fresh(t.ops, e.request.ops);
      var after := Push(limits, t, e.device, e.request, e.at).0;
      assert after == Committed(t, e.device, e.request, e.at);
      assert after.ops == t.ops + NewRows(e.device, e.request.key, e.at, t.counter + 1, added);
      NewRowsMember(e.device, e.request.key, e.at, t.counter + 1, added, row);
      FreshMember(t.ops, e.request.ops, row.op);
    }
  }

  lemma RowAfterStep(limits: Limits, s: System, e: Event, row: OpRow)
    requires row in Next(limits, s, e).db.ops
    ensures row in s.db.ops || RecordsPush(row, e)
  {
    if e.PushEvent? {
      if !e.fails {
        RowAfterPush(limits, s.db, e, row);
      }
    } else {
      var c := LogAfter(limits, s, e);
      if c.Drops? {
        SelectMember(NotOfUser(c.user), s.db.ops, row);
      }
    }
  }

  /** Nothing is made up or relabelled: every row of the log records an operation that some push carried,
      under the scope and the device that push was authenticated for. */
  lemma {:induction false} EveryRowWasPushed(limits: Limits, s: System, es: seq<Event>, row: OpRow)
    requires row in Run(limits, s, es).db.ops
    ensures row in s.db.ops || exists e | e in es :: RecordsPush(row, e)
    decreases es
  {
    if es != [] {
      EveryRowWasPushed(limits, Next(limits, s, es[0]), es[1..], row);
      if row in Next(limits, s, es[0]).db.ops {
        RowAfterStep(limits, s, es[0], row);
      }
    }
  }

  /** No committed sequence is ever issued twice, not even after its row has been deleted. */
  lemma {:induction false} SequencesAreNeverReused(limits: Limits, s: System, es: seq<Event>, earlier: OpRow,
                                                   later: OpRow)
    requires SystemInv(s)
    requires earlier in s.db.ops && later in Run(limits, s, es).db.ops && Number(earlier) == Number(later)
    ensures earlier == later
  {
    RunContinues(limits, s, es);
    var i :| 0 <= i < |s.db.ops| && s.db.ops[i] == earlier;
    if later in s.db.ops {
      var j :| 0 <= j < |s.db.ops| && s.db.ops[j] == later;
      assert i == j;
    }
  }

  lemma ChangeAppends(before: Tables, after: Tables, c: LogChange, scope: Scope) returns (more: seq<OpRow>)
    requires Changes(before, after, c) && (c.Drops? ==> c.user != scope.user)
    ensures Appends(before, after, scope, more)
  {
    more := [];
    match c
    case Same =>
    case Adds(rows) =>
      SelectAppend(InScope(scope), before.ops, rows);
      more := Select(InScope(scope), rows);
      forall row | row in more ensures row in rows {
        SelectMember(InScope(scope), rows, row);
      }
    case Drops(user) => SelectWithin(InScope(scope), NotOfUser(user), before.ops);
  }

  lemma StepAppends(limits: Limits, s: System, e: Event, scope: Scope) returns (more: seq<OpRow>)
    requires !Deletes(e, scope.user)
    ensures Appends(s.db, Next(limits, s, e).db, scope, more)
  {
    var c := LogAfter(limits, s, e);
    more := ChangeAppends(s.db, Next(limits, s, e).db, c, scope);
  }

  /** Over a run that does not delete its user, a scope's log grows only at its end. */
  lemma {:induction false} RunAppends(limits: Limits, s: System, es: seq<Event>, scope: Scope)
    returns (more: seq<OpRow>)
    requires NeverDeletes(es, scope.user)
    ensures Appends(s.db, Run(limits, s, es).db, scope, more)
    decreases es
  {
    if es == [] {
      more := [];
    } else {
      var first := StepAppends(limits, s, es[0], scope);
      var s1 := Next(limits, s, es[0]);
      var rest := RunAppends(limits, s1, es[1..], scope);
      StepContinues(limits, s, es[0]);
      more := first + rest;
      AppendsCompose(s.db, s1.db, Run(limits, s1, es[1..]).db, scope, first, rest);
    }
  }

  lemma AppendsCompose(a: Tables, b: Tables, c: Tables, scope: Scope, first: seq<OpRow>, rest: seq<OpRow>)
    requires Appends(a, b, scope, first) && Appends(b, c, scope, rest) && a.counter <= b.counter
    ensures Appends(a, c, scope, first + rest)
  {}
}

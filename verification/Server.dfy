/**
 The server object and its handlers. A transaction works on a copy of the tables that is written
 back when it commits; `if *` stands for a statement that fails, which drops the copy. Each handler
 is proved to take exactly the step of the state machine in Relay, Replication, Accounts or Access.
 */
module Server {
  import opened Schema
  import opened Timestamps
  import opened PushSpec
  import opened OpLog
  import opened BlobStore
  import opened Relay
  import opened Replication
  import A = Accounts
  import G = Access
  import M = Migration

  const UPLOAD_PREFIX := ".upload-"

  predicate IsStaleUpload(name: string, modified: Instant, cutoff: int) {
    UPLOAD_PREFIX <= name && modified < cutoff
  }

  datatype Retention = Retention(idempotencyHours: nat, auditDays: nat, tempUploadHours: nat)

  /** One iteration of the push loop, in terms of the log the push started from. */
  lemma IterationEffect(start: Tables, d: Device, key: string, now: Timestamp, batch: seq<Operation>, i: nat)
    requires i < |batch|
    ensures var was := Logged(start, d, key, now, batch[..i]);
            && Conflicts(start.ops, d, batch[..i + 1])
               == Conflicts(start.ops, d, batch[..i]) + ConflictsOf(was.ops, d, batch[i])
            && (batch[i].opId in OpIds(was.ops) ==>
                  && Logged(start, d, key, now, batch[..i + 1]) == was
                  && Fresh(start.ops, batch[..i + 1]) == Fresh(start.ops, batch[..i]))
            && (batch[i].opId !in OpIds(was.ops) ==>
                  && Logged(start, d, key, now, batch[..i + 1]) == WithRow(was, d, key, now, batch[i])
                  && Ids(Fresh(start.ops, batch[..i + 1])) == Ids(Fresh(start.ops, batch[..i])) + [batch[i].opId])
  {
    var done, op := batch[..i], batch[i];
    assert batch[..i + 1] == done + [op];
    LoggedStep(start, d, key, now, done, op);
    ConflictsStep(start, d, key, now, done, op);
    assert Ids(Fresh(start.ops, done) + [op]) == Ids(Fresh(start.ops, done)) + [op.opId];
  }

  lemma ConflictsStep(start: Tables, d: Device, key: string, now: Timestamp, done: seq<Operation>, op: Operation)
    ensures Conflicts(start.ops, d, done + [op]) ==
            Conflicts(start.ops, d, done) + ConflictsOf(Logged(start, d, key, now, done).ops, d, op)
  {
    assert (done + [op])[..|done + [op]| - 1] == done;
    ConflictsIgnoreOwnRows(start, d, key, now, done, op);
  }

  lemma PageMovesOn(log: seq<OpRow>, counter: nat, scope: Scope, since: int, limit: nat, n: nat)
    requires Numbered(log, counter) && limit > 0
    ensures var page := Page(log, scope, since, limit, n);
            |page.ops| <= limit && (page.hasMore ==> page.pageLast > since)
  {
    PageExtends(log, counter, scope, since, limit, n);
  }

  ghost predicate Consistent(limits: Limits, s: System) {
    SystemInv(s) && (FitsInt64(limits) ==> QuotaInv(limits, s.db))
  }

  /** A step of the state machine keeps the object valid. */
  lemma StepKeepsConsistent(limits: Limits, s: System, e: Event)
    requires Consistent(limits, s)
    ensures Consistent(limits, Next(limits, s, e))
  {
    StepKeepsInv(limits, s, e);
    if FitsInt64(limits) {
      StepKeepsQuotas(limits, s, e);
    }
  }

  class Server {
    const limits: Limits
    const retention: Retention
    var db: Tables
    var files: Files
    var accounts: A.Accounts
    var entries: map<string, Instant>  // the blob directory's own entries and their modification times

    ghost predicate Valid()
      reads this
    {
      Normalized(limits) && Consistent(limits, System(db, files))
    }

    ghost function State(): System
      reads this
    {
      System(db, files)
    }

    constructor (limits: Limits, retention: Retention)
      requires Normalized(limits)
      ensures Valid() && State() == INITIAL && this.limits == limits && this.retention == retention
    {
      this.limits, this.retention := limits, retention;
      db, files := EMPTY_TABLES, map[];
      accounts := A.NO_ACCOUNTS;
      entries := map[];
    }

    // -------------------------------------------------------------- access

    /** The first reads of authenticateDevice, for the device row; other transactions may run before the next. A
        failing first query is not told apart from one that finds nothing. */
    method ReadDevice(key: string) returns (grant: G.Grant, ghost fault: G.Fault)
      ensures grant == G.ReadDevice(accounts, key, fault)
      ensures grant.Identified? ==> G.HoldsKey(accounts, grant.entry, key)
      ensures forall entry | fault == G.NO_FAULT && entry in accounts.devices && G.HoldsKey(accounts, entry, key) ::
                (forall other | other in accounts.devices && G.Opens(other.row, key) :: other == entry) ==>
                  grant == G.Identified(entry)
    {
      var tokenFails, keyFails := *, *;
      fault := G.Fault(tokenFails, keyFails);
      forall entry | fault == G.NO_FAULT && entry in accounts.devices && G.HoldsKey(accounts, entry, key)
        ensures (forall other | other in accounts.devices && G.Opens(other.row, key) :: other == entry) ==>
                  G.ReadDevice(accounts, key, fault) == G.Identified(entry)
      {
        if forall other | other in accounts.devices && G.Opens(other.row, key) :: other == entry {
          G.HolderIsIdentified(accounts, key, entry);
        }
      }
      if key == "" {
        return G.Denied(401), fault;
      }
      var found := None;
      if !tokenFails {
        found := G.ByToken(accounts.devices, key);
      }
      if found.None? && !keyFails {
        found := G.ByLegacyKey(accounts.devices, key);
      }
      if found.None? {
        return G.Denied(401), fault;
      }
      var row := found.value.row;
      if row.revokedAt.Some? && row.revokedAt.value != "" {
        return G.Denied(401), fault;
      }
      grant := G.Identified(found.value);
      G.OnlyTheEntitledGetIn(accounts, key, fault, accounts, false);
    }

    /** The read of the user row, and the rest of requireSyncScope. */
    method ReadUser(entry: DeviceEntry) returns (grant: G.Grant, ghost fails: bool)
      ensures grant == G.ReadUser(accounts, entry, fails)
      ensures grant.Open? <==> !fails && G.InGoodStanding(accounts, Text(entry.row.user)) && Text(entry.row.user) != ""
    {
      var user, vault := Text(entry.row.user), Text(entry.row.vault);
      fails := true;
      if user != "" {
        if * {
          return G.Denied(500), fails;
        }
        if user !in accounts.users {
          return G.Denied(500), fails;
        }
        if accounts.users[user].blocked {
          return G.Denied(403), false;
        }
      }
      if * {
        return G.Denied(500), fails;
      }
      fails := false;
      if user == "" {
        return G.Denied(403), fails;
      }
      vault := M.EffectiveVaultScope(user, vault);
      if vault == "" {
        assert false;  // a user without a vault has the legacy one, so this check never fails
      }
      grant := G.Open(Device(entry.id, Scope(user, vault)));
    }

    /** The transaction at the end of pairing and registration. */
    method EnrollDevice(id: string, user: string, vault: string, token: string) returns (failed: bool)
      modifies this`accounts
      ensures failed ==> accounts == old(accounts)
      ensures !failed ==> Some(accounts) == G.EnrollDevice(old(accounts), id, user, vault, token)
    {
      failed := true;
      if * { return; }
      var tx := accounts;
      if G.IsEnrolled(tx.devices, id) {
        return;
      }
      tx := tx.(devices := tx.devices + [DeviceEntry(id, M.EnrolledDevice(id, user, vault, token))]);
      if * { return; }
      if Pairing(user, id) !in tx.pairings {
        tx := tx.(pairings := tx.pairings + [Pairing(user, id)]);
      }
      if * { return; }
      accounts, failed := tx, false;
    }

    method RevokeDevice(id: string, at: Timestamp) returns (failed: bool)
      modifies this`accounts
      ensures accounts == if failed then old(accounts) else G.RevokeDevice(old(accounts), id, at)
      ensures !failed && at != "" ==> G.Stands(G.OfDevice(id), accounts)
    {
      failed := true;
      if * { return; }
      var tx := accounts;
      tx := tx.(devices := G.Revoked(tx.devices, id, at));
      if * { return; }
      tx := tx.(sessions := G.DeviceSessionsWithout(tx.sessions, id));
      if * { return; }
      accounts, failed := tx, false;
    }

    /** An administrator's toggle reads the flag in a statement of its own; other transactions may run before the
        next step, which sets the opposite of what was read. */
    method ReadBlocked(user: string) returns (blocked: Option<bool>)
      ensures blocked.Some? ==> user in accounts.users && blocked.value == accounts.users[user].blocked
      ensures user !in accounts.users ==> blocked.None?
    {
      blocked := None;
      if * { return; }
      if user in accounts.users {
        blocked := Some(accounts.users[user].blocked);
      }
    }

    method SetBlocked(user: string, blocked: bool) returns (failed: bool)
      modifies this`accounts
      ensures accounts == if failed then old(accounts) else A.SetBlocked(old(accounts), user, blocked)
      ensures !failed && blocked ==> G.Stands(G.OfUser(user), accounts)
    {
      failed := true;
      if * { return; }
      var tx := accounts;
      if user in tx.users {
        tx := tx.(users := tx.users[user := tx.users[user].(blocked := blocked)]);
      }
      if * { return; }
      if blocked {
        tx := tx.(sessions := A.SessionsWithout(tx.sessions, user));
        if * { return; }
      }
      accounts, failed := tx, false;
    }

    // -------------------------------------------------------------- push

    method ValidateScopedBlobReferences(tx: Tables, scope: Scope, ops: seq<Operation>) returns (code: string,
                                        failed: bool)
      ensures !failed ==> code == CheckReferences(tx.refs, scope, ops)
    {
      var i := 0;
      while i < |ops|
        invariant 0 <= i <= |ops|
        invariant CheckReferences(tx.refs, scope, ops) == CheckReferences(tx.refs, scope, ops[i..])
      {
        var op := ops[i];
        assert ops[i..][1..] == ops[i + 1..];
        i := i + 1;
        if op.entityType != "file" || op.payload.Blank? {
          continue;
        }
        if !op.payload.Fields? {
          return "invalid_payload", false;
        }
        if op.payload.inline {
          return "inline_binary_forbidden", false;
        }
        if op.payload.blob.None? {
          continue;
        }
        var claim := op.payload.blob.value;
        if !claim.sha.Digest? || claim.size < 0 {
          return "invalid_blob_reference", false;
        }
        if * {
          return "", true;
        }
        var stored := RefSize(tx.refs, scope, claim.sha);
        if stored.None? {
          return "blob_not_owned", false;
        }
        if stored.value != claim.size {
          return "invalid_blob_reference", false;
        }
      }
      code, failed := "", false;
    }

    /** The conflict query of one operation and the loop over its rows. */
    method CollectConflicts(tx: Tables, d: Device, op: Operation, conflicts: seq<Conflict>)
      returns (all: seq<Conflict>, failed: bool)
      ensures !failed ==> all == conflicts + ConflictsOf(tx.ops, d, op)
    {
      all, failed := conflicts, false;
      if op.lastSeen > 0 {
        if * {
          failed := true;
          return;
        }
        var rows := Select(RivalsOf(d, op), tx.ops);
        var i := 0;
        while i < |rows|
          invariant 0 <= i <= |rows|
          invariant all == conflicts + ConflictsWith(op, rows[..i])
        {
          assert rows[..i + 1] == rows[..i] + [rows[i]];
          all := all + [ConflictOf(op, rows[i])];
          i := i + 1;
        }
        assert rows[..i] == rows;
      }
    }

    /** The statements for one operation: insert or ignore, draw a sequence, number the row, bury a delete. */
    method LogOperation(tx: Tables, d: Device, key: string, now: Timestamp, op: Operation)
      returns (tx': Tables, inserted: bool, failed: bool)
      ensures !failed ==> inserted == (op.opId !in OpIds(tx.ops))
      ensures !failed ==> tx' == if inserted then WithRow(tx, d, key, now, op) else tx
    {
      tx', inserted, failed := tx, false, true;
      if * {
        return;
      }
      if op.opId in OpIds(tx.ops) {
        failed := false;
        return;
      }
      var row := OpRow(op, None, d.scope, d.id, key, now);
      tx' := tx'.(ops := tx'.ops + [row]);
      if * {
        return;
      }
      var n := tx'.counter + 1;
      tx' := tx'.(revisions := tx'.revisions + [Revision(n, op.opId, d.id)], counter := n);
      if * {
        return;
      }
      NumberInserted(tx.ops, row, n);
      tx' := tx'.(ops := AssignSequence(tx'.ops, op.opId, n));
      if op.opType == "delete" {
        if * {
          return;
        }
        tx' := tx'.(tombstones :=
          tx'.tombstones[EntityKey(d.scope, op.entityType, op.entityId) := Tombstone(op.opId, now)]);
      }
      inserted, failed := true, false;
    }

    method SyncPush(d: Device, req: PushRequest, now: Timestamp) returns (response: PushResponse)
      requires Valid()
      modifies this`db
      ensures Valid()
      ensures (State(), Pushed(response)) ==
              Step(limits, old(State()), PushEvent(d, req, now, response.InternalError?))
    {
      StepKeepsConsistent(limits, State(), PushEvent(d, req, now, false));
      var code := ValidateSyncPush(limits, req);
      if code != "" {
        return Rejected(code);
      }
      if * {
        return InternalError;
      }
      var tx := db;
      var failed;
      code, failed := ValidateScopedBlobReferences(tx, d.scope, req.ops);
      if failed {
        return InternalError;
      }
      if code != "" {
        return Rejected(code);
      }
      if req.key != "" {
        if * {
          return InternalError;
        }
        if KeyOf(d, req) in tx.replies {
          return Replied(tx.replies[KeyOf(d, req)].reply);
        }
      }
      var accepted, conflicts;
      tx, accepted, conflicts, failed := PushLoop(tx, d, req, now);
      if failed {
        return InternalError;
      }
      var reply := PushReply(accepted, conflicts);
      if req.key != "" {
        if * {
          return InternalError;
        }
        tx := tx.(replies := tx.replies[KeyOf(d, req) := StoredReply(reply, now)]);
      }
      if * {
        return InternalError;
      }
      db := tx;
      response := Replied(reply);
    }

    /** The loop over the batch. It sees the log grow, yet computes what Logged, Fresh and Conflicts
        say about the log it started from. */
    method PushLoop(start: Tables, d: Device, req: PushRequest, now: Timestamp)
      returns (tx: Tables, accepted: seq<string>, conflicts: seq<Conflict>, failed: bool)
      ensures !failed ==> tx == Logged(start, d, req.key, now, req.ops)
      ensures !failed ==> PushReply(accepted, conflicts) == FreshReply(start, d, req)
    {
      tx, accepted, conflicts, failed := start, [], [], true;
      var i := 0;
      assert req.ops[..0] == [];
      assert Extend(start, d, req.key, now, []) == start;
      while i < |req.ops|
        invariant 0 <= i <= |req.ops|
        invariant tx == Logged(start, d, req.key, now, req.ops[..i])
        invariant accepted == Ids(Fresh(start.ops, req.ops[..i]))
        invariant conflicts == Conflicts(start.ops, d, req.ops[..i])
      {
        var op := req.ops[i];
        IterationEffect(start, d, req.key, now, req.ops, i);
        var lost;
        conflicts, lost := CollectConflicts(tx, d, op, conflicts);
        if lost {
          return;
        }
        var inserted;
        tx, inserted, lost := LogOperation(tx, d, req.key, now, op);
        if lost {
          return;
        }
        i := i + 1;
        if !inserted {
          continue;
        }
        accepted := accepted + [op.opId];
      }
      assert req.ops[..i] == req.ops;
      failed := false;
    }

    // -------------------------------------------------------------- pull

    /** The first read of handleSyncPull; other transactions may run before the second. */
    method ReadServerSequence(scope: Scope) returns (n: nat)
      ensures n == ServerSequence(db.ops, scope)
      ensures forall row | row in db.ops && row.scope == scope :: Number(row) <= n
      ensures n == 0 || exists row | row in db.ops :: row.scope == scope && Number(row) == n
    {
      n := ServerSequence(db.ops, scope);
      MaxIsReached(Select(InScope(scope), db.ops));
      forall row ensures row in Select(InScope(scope), db.ops) <==> row in db.ops && row.scope == scope {
        SelectMember(InScope(scope), db.ops, row);
      }
    }

    /** The second read and the reply. */
    method ReadPage(scope: Scope, since: int, requested: int, serverSequence: nat) returns (reply: Option<PullReply>)
      requires Valid()
      ensures reply.None? <==> since < 0 || requested < 0
      ensures reply.Some? ==>
                reply.value == Page(db.ops, scope, since, PullPageLimit(limits, requested), serverSequence)
      ensures reply.Some? ==> reply.value.serverSequence == serverSequence
      ensures reply.Some? ==>
                var left := |RowsAfter(db.ops, scope, since)|;
                var limit := if 0 < requested <= limits.maxPullPage then requested else limits.maxPullPage;
                |reply.value.ops| == (if left <= limit then left else limit) && (reply.value.hasMore <==> left > limit)
      ensures reply.Some? && reply.value.hasMore ==> reply.value.pageLast > since
      ensures reply.Some? ==> |reply.value.ops| <= limits.maxPullPage
      ensures reply.Some? && requested > 0 ==> |reply.value.ops| <= requested
    {
      if since < 0 || requested < 0 {
        return None;
      }
      var limit := PullPageLimit(limits, requested);
      var rows := Take(Select(After(scope, since), db.ops), limit + 1);
      var ops := [];
      var i := 0;
      while i < |rows|
        invariant 0 <= i <= |rows| && ops == rows[..i]
      {
        ops := ops + [rows[i]];
        i := i + 1;
      }
      assert ops == rows;
      var hasMore := |ops| > limit;
      if hasMore {
        ops := ops[..limit];
      }
      var pageLast := since;
      if |ops| > 0 {
        pageLast := Number(ops[|ops| - 1]);
      }
      PageMovesOn(db.ops, db.counter, scope, since, limit, serverSequence);
      PageSize(db.ops, db.counter, limits, scope, since, requested, serverSequence);
      reply := Some(PullReply(serverSequence, pageLast, hasMore, ops));
    }

    // -------------------------------------------------------------- blobs

    method AttachBlob(scope: Scope, content: Content, now: Timestamp) returns (result: AttachResult,
                      ghost fault: UploadFault)
      modifies this`db, this`files
      ensures (db, files, result) == Attach(limits, old(db), old(files), scope, content, now, fault)
    {
      fault := Undone;
      result := AttachFailed;
      if * {
        return;
      }
      var tx := db;
      var sha := Digest(content);
      var existing := RefSize(tx.refs, scope, sha);
      if existing.Some? {
        if existing.value != |content| {
          return SizeMismatch, NoFault;
        }
        if * {
          return;
        }
        db := tx.(refs := Touch(tx.refs, scope, sha, now));
        return Attached, NoFault;
      }
      var vaultUsed := Used(OfVault(scope), tx.refs);
      var userUsed := Used(OfOwner(scope.user), tx.refs);
      if Wrap64(vaultUsed + |content|) > limits.maxVaultBlobBytes
         || Wrap64(userUsed + |content|) > limits.maxUserBlobBytes {
        return QuotaExceeded, NoFault;
      }
      var createdPhysical := false;
      if sha !in files {
        if * {
          return;
        }
        files := files[sha := content];
        createdPhysical := true;
      }
      var stopped := *;
      if !stopped {
        tx := tx.(blobs := InsertBlob(tx.blobs, BlobRow(sha, |content|, now)));
        stopped := *;
      }
      if !stopped {
        tx := tx.(refs := tx.refs + [RefRow(scope, sha, |content|, now, now)]);
        stopped := *;
      }
      if stopped {
        var removed := *;
        if createdPhysical && removed {
          files := files - {sha};
          assert files == old(files);
          return;
        }
        return AttachFailed, FileLeft;
      }
      db := tx;
      return Attached, NoFault;
    }

    /** handleBlobUpload once the file part has been read. */
    method BlobUpload(scope: Scope, content: Content, now: Timestamp) returns (response: UploadResponse,
                      ghost fault: UploadFault)
      requires Valid()
      modifies this`db, this`files
      ensures Valid()
      ensures (State(), Uploaded(response)) == Step(limits, old(State()), UploadEvent(scope, content, now, fault))
    {
      fault := NoFault;
      if |content| > limits.maxBlobBytes {
        return Refused("blob_too_large"), fault;
      }
      ghost var before := State();
      var result;
      result, fault := AttachBlob(scope, content, now);
      ghost var e := UploadEvent(scope, content, now, fault);
      StepKeepsConsistent(limits, before, e);
      assert State() == Next(limits, before, e);
      match result
      case Attached => response := Stored(Digest(content), |content|);
      case QuotaExceeded => response := Refused("quota_exceeded");
      case SizeMismatch => response := UploadFailed;
      case AttachFailed => response := UploadFailed;
    }

    /** handleBlobDownload. */
    method BlobDownload(scope: Scope, sha: Sha, now: Timestamp) returns (content: Option<Content>, failed: bool)
      requires Valid()
      modifies this`db
      ensures Valid()
      ensures (State(), if failed then Done(true) else Downloaded(content)) ==
              Step(limits, old(State()), DownloadEvent(scope, sha, now, failed))
      ensures content.Some? ==> sha == Digest(content.value)
    {
      StepKeepsConsistent(limits, State(), DownloadEvent(scope, sha, now, false));
      content, failed := None, false;
      if * {
        failed := true;
        return;
      }
      var size := RefSize(db.refs, scope, sha);
      if size.None? || sha !in files || |files[sha]| != size.value {
        return;
      }
      if * {
        failed := true;
        return;
      }
      content := Some(files[sha]);
      db := db.(refs := Touch(db.refs, scope, sha, now));
    }

    // -------------------------------------------------------------- user deletion

    /** The ordered deletes of handleAdminAPIUsers. */
    method DeleteUser(user: string) returns (failed: bool)
      requires Valid()
      modifies this`db, this`accounts
      ensures Valid()
      ensures (State(), Done(failed)) == Step(limits, old(State()), DeleteUserEvent(user, failed))
      ensures accounts == if failed then old(accounts) else A.WithoutUser(old(accounts), user)
    {
      StepKeepsConsistent(limits, State(), DeleteUserEvent(user, false));
      failed := true;
      var tx, a := db, accounts;
      if * { return; }
      a := a.(sessions := A.SessionsWithout(a.sessions, user));
      if * { return; }
      a := a.(tokens := A.TokensWithout(a.tokens, user));
      if * { return; }
      tx := tx.(refs := RefsWithout(user, tx.refs));
      if * { return; }
      tx := tx.(replies := RepliesWithout(user, tx.replies));
      if * { return; }
      tx := tx.(tombstones := TombstonesWithout(user, tx.tombstones));
      if * { return; }
      tx := tx.(revisions := RevisionsWithout(OpIds(Select(OfUser(user), tx.ops)), tx.revisions));
      if * { return; }
      tx := tx.(ops := Select(NotOfUser(user), tx.ops));
      if * { return; }
      a := a.(pairings := A.PairingsWithout(a.pairings, user));
      if * { return; }
      a := a.(devices := A.DevicesWithout(a.devices, user));
      if * { return; }
      a := a.(audit := A.AuditWithout(a.audit, user));
      if * { return; }
      a := a.(users := a.users - {user});
      if * { return; }
      db, accounts, failed := tx, a, false;
    }

    // -------------------------------------------------------------- retention

    /** CleanupRetention. The statements are not in one transaction: `completed` says how many of the four
        deletes were carried out before one failed. Operations, tombstones, blob rows, references and
        content files are never touched. */
    method CleanupRetention(now: Instant, sessionsAt: Instant) returns (failed: bool, ghost completed: nat)
      requires Valid() && now >= retention.idempotencyHours * HOUR && now >= retention.auditDays * 24 * HOUR
      modifies this`db, this`accounts, this`entries
      ensures Valid() && completed <= 4 && (!failed ==> completed == 4)
      ensures accounts == Retained(old(accounts), now, sessionsAt, completed)
      ensures (State(), Done(completed < 3)) ==
              Step(limits, old(State()),
                   ExpireRepliesEvent(Format(now - retention.idempotencyHours * HOUR), completed < 3))
      ensures forall name | name in entries :: name in old(entries) && entries[name] == old(entries)[name]
      ensures forall name | name in old(entries) && name !in entries ::
                ".upload-" <= name && old(entries)[name] < now - retention.tempUploadHours * HOUR
      ensures !failed ==> forall name | name in entries ::
                !(".upload-" <= name) || entries[name] >= now - retention.tempUploadHours * HOUR
    {
      completed, failed := 0, true;
      if * { return; }
      accounts := A.SweepSessions(accounts, sessionsAt);
      completed := 1;
      if * { return; }
      accounts := A.SweepTokens(accounts, now);
      completed := 2;
      if * { return; }
      db := db.(replies := WithoutOldReplies(db.replies, Format(now - retention.idempotencyHours * HOUR)));
      completed := 3;
      if * { return; }
      accounts := A.SweepAudit(accounts, Format(now - retention.auditDays * 24 * HOUR));
      completed := 4;
      if * { return; }
      failed := RemoveStaleUploads(now - retention.tempUploadHours * HOUR);
    }

    /** The account tables after the first `completed` deletes; the third one is not on them. */
    function Retained(a: A.Accounts, now: Instant, sessionsAt: Instant, completed: nat): A.Accounts
      requires now >= retention.auditDays * 24 * HOUR
    {
      var sessions := if completed >= 1 then A.SweepSessions(a, sessionsAt) else a;
      var tokens := if completed >= 2 then A.SweepTokens(sessions, now) else sessions;
      if completed >= 4 then A.SweepAudit(tokens, Format(now - retention.auditDays * 24 * HOUR)) else tokens
    }

    /** So each table is swept as far as the job got: sessions and tokens by their own clock readings, and audit rows by
        a cutoff of whole days. */
    lemma RetainedIsExact(a: A.Accounts, now: Instant, sessionsAt: Instant, completed: nat, row: AuditRow)
      requires now >= retention.auditDays * 24 * HOUR
      ensures var a' := Retained(a, now, sessionsAt, completed);
              && a'.sessions == (if completed == 0 then a else A.SweepSessions(a, sessionsAt)).sessions
              && a'.tokens == (if completed <= 1 then a else A.SweepTokens(a, now)).tokens
              && (row in a.audit ==>
                    (row in a'.audit <==>
                     completed < 4 || !TextLess(row.createdAt, Format(now - retention.auditDays * 24 * HOUR))))
              && a' == a.(sessions := a'.sessions, tokens := a'.tokens, audit := a'.audit)
    {
      A.AuditSwept(A.SweepTokens(A.SweepSessions(a, sessionsAt), now), Format(now - retention.auditDays * 24 * HOUR));
    }

    /** The loop over the blob directory's entries. */
    method RemoveStaleUploads(cutoff: int) returns (failed: bool)
      modifies this`entries
      ensures forall name | name in entries :: name in old(entries) && entries[name] == old(entries)[name]
      ensures forall name | name in old(entries) && name !in entries :: IsStaleUpload(name, old(entries)[name], cutoff)
      ensures !failed ==> forall name | name in entries :: !IsStaleUpload(name, entries[name], cutoff)
    {
      failed := true;
      var listed := entries;
      var rest := listed.Keys;
      while rest != {}
        invariant rest <= listed.Keys
        invariant forall name | name in entries :: name in listed && entries[name] == listed[name]
        invariant forall name | name in listed && name !in entries :: IsStaleUpload(name, listed[name], cutoff)
        invariant forall name | name in entries && name !in rest :: !IsStaleUpload(name, entries[name], cutoff)
        decreases rest
      {
        var name :| name in rest;
        rest := rest - {name};
        if !(UPLOAD_PREFIX <= name) {
          continue;
        }
        if * { return; }
        if listed[name] < cutoff {
          if * { return; }
          entries := entries - {name};
        }
      }
      failed := false;
    }

    // -------------------------------------------------------------- sessions and resets

    /** `token` and `csrf` are newly generated. */
    method CreateSession(scope: string, subject: string, token: string, csrf: string, now: Instant)
      returns (failed: bool)
      modifies this`accounts
      ensures failed ==> accounts == old(accounts)
      ensures !failed ==> Some(accounts) == A.CreateSession(old(accounts), token, csrf, scope, subject, now)
      ensures scope != "admin" && scope != "user" ==> failed
    {
      failed := true;
      if scope != "admin" && scope != "user" {
        return;
      }
      if * { return; }
      if HashOf(token) in accounts.sessions {
        return;
      }
      accounts := accounts.(sessions := accounts.sessions[HashOf(token) :=
        A.SessionRow(HashOf(csrf), scope, subject, Format(now + A.SESSION_LIFETIME), Format(now))]);
      failed := false;
    }

    method LoadSession(token: string, scope: string, now: Instant) returns (session: Option<A.SessionRow>,
                       ghost wrote: bool)
      modifies this`accounts
      ensures (accounts, session) == A.LoadSession(old(accounts), token, scope, now, wrote)
    {
      wrote := false;
      var h := HashOf(token);
      if token == "" || h !in accounts.sessions || accounts.sessions[h].scope != scope {
        return None, wrote;
      }
      var row := accounts.sessions[h];
      var done := *;
      wrote := done;
      if A.Expired(row.expiresAt, now) {
        if done {
          accounts := accounts.(sessions := accounts.sessions - {h});
        }
        return None, wrote;
      }
      if done {
        accounts := accounts.(sessions := accounts.sessions[h := row.(lastSeen := Format(now))]);
      }
      session := Some(row);
    }

    /** One transaction: the token must be there and good, exactly one row of it and of the user must change. */
    method ResetPasswordWithToken(token: string, password: string, now: Instant) returns (result: A.ResetResult,
                                  failed: bool)
      modifies this`accounts
      ensures if failed then accounts == old(accounts)
              else (accounts, result) == A.ResetPassword(old(accounts), token, password, now)
    {
      result, failed := A.ResetInvalid, true;
      if * { return; }
      var tx, h := accounts, HashOf(token);
      if h !in tx.tokens || tx.tokens[h].purpose != "reset" {
        return A.ResetInvalid, false;
      }
      var user := tx.tokens[h].user;
      if A.Expired(tx.tokens[h].expiresAt, now) {
        return A.ResetExpired, false;
      }
      if * { return; }
      tx := tx.(tokens := tx.tokens - {h});
      if * { return; }
      if user !in tx.users {
        return A.ResetInvalid, false;
      }
      tx := tx.(users := tx.users[user := tx.users[user].(password := password)]);
      if * { return; }
      tx := tx.(tokens := A.WithoutResets(tx.tokens, user));
      if * { return; }
      accounts := tx;
      return A.ResetDone(user), false;
    }
  }
}

/**
 The rows of the relay's tables, the requests that reach them, and the WHERE
 clauses its statements use. A table that is read in order is a sequence of
 rows in insertion order; a table that is only looked up by its primary key is
 a map from that key.
 */
module Schema {

  datatype Option<+T> = None | Some(value: T)

  newtype byte = x: int | 0 <= x < 256
  type Content = seq<byte>

  /** A hash column. SHA-256 is idealised as collision free, so a well-formed hash
      is the content it digests; any other text fails validSHA256. */
  datatype Sha = Digest(content: Content) | NotAHash(text: string)

  type Timestamp = string

  datatype Scope = Scope(user: string, vault: string)

  /** The result of requireSyncScope: an authenticated device and its scope. */
  datatype Device = Device(id: string, scope: Scope)

  datatype BlobClaim = BlobClaim(sha: Sha, size: int)

  /** The payload_json of an operation, as the two JSON decoders see it. */
  datatype Payload =
    | Blank
    | NotJson(bytes: nat)
    | Mistyped(bytes: nat)
    | Fields(bytes: nat, inline: bool, blob: Option<BlobClaim>)

  datatype Operation = Operation(
    opId: string, entityType: string, entityId: string, opType: string, payload: Payload,
    clientSequence: int, lastSeen: int, createdAt: Timestamp)

  datatype PushRequest = PushRequest(deviceId: string, key: string, ops: seq<Operation>)

  /** server_ops. `sequence` is NULL between the insert and the update that numbers the row. */
  datatype OpRow = OpRow(
    op: Operation, sequence: Option<nat>, scope: Scope, device: string, key: string, pushedAt: Timestamp)

  /** server_revisions */
  datatype Revision = Revision(id: nat, opId: string, device: string)

  datatype EntityKey = EntityKey(scope: Scope, entityType: string, entityId: string)

  /** server_tombstones, keyed by EntityKey */
  datatype Tombstone = Tombstone(opId: string, deletedAt: Timestamp)

  datatype Conflict = Conflict(
    opId: string, device: string, opType: string, sequence: nat, entityType: string, entityId: string)

  /** The JSON reply of a push; its `count` is |accepted|. */
  datatype PushReply = PushReply(accepted: seq<string>, conflicts: seq<Conflict>)

  datatype ReplyKey = ReplyKey(scope: Scope, key: string)

  /** server_idempotency_keys, keyed by ReplyKey */
  datatype StoredReply = StoredReply(reply: PushReply, createdAt: Timestamp)

  /** server_blobs */
  datatype BlobRow = BlobRow(sha: Sha, size: nat, createdAt: Timestamp)

  /** server_blob_refs */
  datatype RefRow = RefRow(scope: Scope, sha: Sha, size: nat, createdAt: Timestamp, lastAccessed: Timestamp)

  /** sha256Hex of a secret, idealised as injective. */
  datatype TokenHash = HashOf(token: string)

  /** server_email_tokens, keyed by TokenHash */
  datatype TokenRow = TokenRow(user: string, purpose: string, expiresAt: Timestamp, createdAt: Timestamp)

  /** server_devices, but for its primary key. A column an old schema lacks reads as NULL. */
  datatype DeviceRow = DeviceRow(
    user: Option<string>, vault: Option<string>, apiKey: string, legacyKey: bool,
    tokenHash: Option<TokenHash>, revokedAt: Option<Timestamp>)

  datatype DeviceEntry = DeviceEntry(id: string, row: DeviceRow)

  /** server_user_devices */
  datatype Pairing = Pairing(user: string, device: string)

  /** server_audit_log */
  datatype AuditRow = AuditRow(event: string, user: string, createdAt: Timestamp)

  /** COALESCE(column, '') */
  function Text(column: Option<string>): string {
    match column
    case None => ""
    case Some(s) => s
  }

  /** Everything a sync transaction reads or writes. `counter` is the AUTOINCREMENT
      high-water mark of server_revisions. */
  datatype Tables = Tables(
    ops: seq<OpRow>, revisions: seq<Revision>, counter: nat,
    tombstones: map<EntityKey, Tombstone>, replies: map<ReplyKey, StoredReply>,
    blobs: seq<BlobRow>, refs: seq<RefRow>)

  const MIN_INT64 := -0x8000_0000_0000_0000
  const MAX_INT64 := 0x7FFF_FFFF_FFFF_FFFF

  /** Nanoseconds in a second, the unit of the limiter's and the timestamps' times. */
  const SECOND: nat := 1_000_000_000

  const EMPTY_TABLES := Tables([], [], 0, map[], map[], [], [])

  datatype Limits = Limits(
    maxPushOperations: int, maxPayloadJson: int, maxPullPage: int,
    maxBlobBytes: int, maxVaultBlobBytes: int, maxUserBlobBytes: int)

  /** What `normalize` establishes for every limit a server runs with. */
  predicate Normalized(limits: Limits) {
    && 0 < limits.maxPushOperations && 0 < limits.maxPayloadJson && 0 < limits.maxPullPage
    && 0 < limits.maxBlobBytes && 0 < limits.maxVaultBlobBytes && 0 < limits.maxUserBlobBytes
  }

  predicate IsDelete(op: Operation) {
    op.opType == "delete"
  }

  function EntityOf(row: OpRow): EntityKey {
    EntityKey(row.scope, row.op.entityType, row.op.entityId)
  }

  /** The sequence of a row, 0 standing for NULL as COALESCE does; real ones start at 1. */
  function Number(row: OpRow): nat {
    match row.sequence
    case None => 0
    case Some(n) => n
  }

  function OpIds(rows: seq<OpRow>): set<string> {
    set row | row in rows :: row.op.opId
  }

  /** The elements of a table that a statement keeps. */
  function Keep<T>(rows: seq<T>, kept: T -> bool): seq<T> {
    if rows == [] then []
    else
      var before, row := Keep(rows[..|rows| - 1], kept), rows[|rows| - 1];
      if kept(row) then before + [row] else before
  }

  lemma {:induction false} KeepMember<T>(rows: seq<T>, kept: T -> bool, row: T)
    ensures row in Keep(rows, kept) <==> row in rows && kept(row)
  {
    if rows != [] {
      KeepMember(rows[..|rows| - 1], kept, row);
      assert rows == rows[..|rows| - 1] + [rows[|rows| - 1]];
    }
  }

  // ---------------------------------------------------------------- queries on server_ops

  /** The WHERE clauses over server_ops. A comparison with a NULL sequence is not true. */
  datatype Where =
    | OfUser(user: string)
    | NotOfUser(user: string)
    | InScope(scope: Scope)
    | After(scope: Scope, since: int)
    | UpTo(scope: Scope, last: int)
    | DeletesOf(entity: EntityKey)
    | Rivals(device: Device, entityType: string, entityId: string, lastSeen: int)

  predicate Matches(w: Where, row: OpRow) {
    match w
    case OfUser(u) => row.scope.user == u
    case NotOfUser(u) => row.scope.user != u
    case InScope(s) => row.scope == s
    case After(s, n) => row.scope == s && row.sequence.Some? && row.sequence.value > n
    case UpTo(s, n) => row.scope == s && row.sequence.Some? && row.sequence.value <= n
    case DeletesOf(e) => EntityOf(row) == e && IsDelete(row.op)
    case Rivals(d, ty, id, n) =>
      && row.scope == d.scope && row.op.entityType == ty && row.op.entityId == id && row.device != d.id
      && row.sequence.Some? && row.sequence.value > n && !IsDelete(row.op)
  }

  /** The matching rows in table order. SelectOrdered shows that this is ORDER BY server_sequence. */
  function Select(w: Where, rows: seq<OpRow>): seq<OpRow> {
    if rows == [] then []
    else
      var before, row := rows[..|rows| - 1], rows[|rows| - 1];
      if Matches(w, row) then Select(w, before) + [row] else Select(w, before)
  }

  lemma {:induction false} SelectAppend(w: Where, a: seq<OpRow>, b: seq<OpRow>)
    ensures Select(w, a + b) == Select(w, a) + Select(w, b)
  {
    if b == [] {
      assert a + b == a;
    } else {
      var before := b[..|b| - 1];
      assert (a + b)[..|a + b| - 1] == a + before;
      SelectAppend(w, a, before);
    }
  }

  lemma {:induction false} SelectMember(w: Where, rows: seq<OpRow>, row: OpRow)
    ensures row in Select(w, rows) <==> row in rows && Matches(w, row)
  {
    if rows != [] {
      SelectMember(w, rows[..|rows| - 1], row);
      assert rows == rows[..|rows| - 1] + [rows[|rows| - 1]];
    }
  }

  lemma {:induction false} SelectNone(w: Where, rows: seq<OpRow>)
    requires forall row | row in rows :: !Matches(w, row)
    ensures Select(w, rows) == []
  {
    if rows != [] {
      SelectNone(w, rows[..|rows| - 1]);
    }
  }

  /** A clause that implies another selects the same rows after the weaker one has been applied. */
  lemma {:induction false} SelectWithin(w: Where, outer: Where, rows: seq<OpRow>)
    requires forall row | row in rows :: Matches(w, row) ==> Matches(outer, row)
    ensures Select(w, Select(outer, rows)) == Select(w, rows)
  {
    if rows != [] {
      var before, row := rows[..|rows| - 1], rows[|rows| - 1];
      SelectWithin(w, outer, before);
      if Matches(outer, row) {
        SelectAppend(w, Select(outer, before), [row]);
        assert Select(w, [row]) == if Matches(w, row) then [row] else [] by {
          assert [row][..0] == [];
        }
      }
    }
  }

  // ---------------------------------------------------------------- order of the log

  /** Every row is numbered, in strictly ascending order, from 1 up to the counter. */
  ghost predicate Numbered(rows: seq<OpRow>, counter: nat) {
    && (forall i | 0 <= i < |rows| :: rows[i].sequence.Some? && 1 <= Number(rows[i]) <= counter)
    && (forall i, j | 0 <= i < j < |rows| :: Number(rows[i]) < Number(rows[j]))
  }

  /** op_id is the primary key of server_ops. */
  ghost predicate DistinctIds(rows: seq<OpRow>) {
    forall i, j | 0 <= i < j < |rows| :: rows[i].op.opId != rows[j].op.opId
  }

  lemma {:induction false} SelectOrdered(w: Where, rows: seq<OpRow>, counter: nat)
    requires Numbered(rows, counter)
    ensures Numbered(Select(w, rows), counter)
  {
    if rows != [] {
      var before, row := rows[..|rows| - 1], rows[|rows| - 1];
      SelectOrdered(w, before, counter);
      forall i | 0 <= i < |Select(w, before)| ensures Number(Select(w, before)[i]) < Number(row) {
        SelectMember(w, before, Select(w, before)[i]);
      }
    }
  }

  lemma {:induction false} SelectDistinct(w: Where, rows: seq<OpRow>)
    requires DistinctIds(rows)
    ensures DistinctIds(Select(w, rows))
  {
    if rows != [] {
      var before, row := rows[..|rows| - 1], rows[|rows| - 1];
      SelectDistinct(w, before);
      forall i | 0 <= i < |Select(w, before)| ensures Select(w, before)[i].op.opId != row.op.opId {
        SelectMember(w, before, Select(w, before)[i]);
      }
    }
  }

  /** Cutting a scope's log at a cursor splits it into what is held and what is still to come. */
  lemma {:induction false} SelectSplit(scope: Scope, cursor: int, rows: seq<OpRow>, counter: nat)
    requires Numbered(rows, counter)
    ensures Select(InScope(scope), rows) == Select(UpTo(scope, cursor), rows) + Select(After(scope, cursor), rows)
  {
    if rows != [] {
      var before, row := rows[..|rows| - 1], rows[|rows| - 1];
      SelectSplit(scope, cursor, before, counter);
      if row.scope == scope && Number(row) <= cursor {
        SelectNone(After(scope, cursor), before);
      }
    }
  }
}

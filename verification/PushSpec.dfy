/**
 What one push does to the tables, in closed form: the batch's new operations are
 numbered consecutively from the counter and appended; revisions, tombstones and the
 reply follow from those rows. The server's loop is proved to compute exactly this.
 */
module PushSpec {
  import opened Schema

  datatype PushResponse = Replied(reply: PushReply) | Rejected(code: string) | InternalError

  // ---------------------------------------------------------------- validation

  const MAX_OP_ID := 128
  const MAX_ENTITY_TYPE := 64
  const MAX_ENTITY_ID := 4096
  const MAX_OP_TYPE := 64
  const MAX_KEY := 128
  const MAX_DEVICE_ID := 128

  /** unicode.IsSpace, which strings.TrimSpace cuts by. */
  predicate IsSpace(c: char) {
    var n := c as int;
    9 <= n <= 13 || n == 0x20 || n == 0x85 || n == 0xA0 || n == 0x1680 || 0x2000 <= n <= 0x200A
    || n == 0x2028 || n == 0x2029 || n == 0x202F || n == 0x205F || n == 0x3000
  }

  predicate IsBlank(s: string) {
    forall i | 0 <= i < |s| :: IsSpace(s[i])
  }

  /** len(s) in Go: the number of UTF-8 bytes. */
  function ByteLength(s: string): nat {
    if s == [] then 0
    else
      var n := s[0] as int;
      (if n < 0x80 then 1 else if n < 0x800 then 2 else if n < 0x10000 then 3 else 4) + ByteLength(s[1..])
  }

  function PayloadBytes(p: Payload): nat {
    if p.Blank? then 0 else p.bytes
  }

  function CheckField(value: string, max: nat): string {
    if IsBlank(value) then "invalid_operation" else if ByteLength(value) > max then "field_too_long" else ""
  }

  /** The error code of the first failing check on one operation, "" when it passes. */
  function CheckOperation(limits: Limits, op: Operation): string {
    var id := CheckField(op.opId, MAX_OP_ID);
    var entityType := CheckField(op.entityType, MAX_ENTITY_TYPE);
    var entityId := CheckField(op.entityId, MAX_ENTITY_ID);
    var opType := CheckField(op.opType, MAX_OP_TYPE);
    if id != "" then id
    else if entityType != "" then entityType
    else if entityId != "" then entityId
    else if opType != "" then opType
    else if PayloadBytes(op.payload) > limits.maxPayloadJson then "payload_too_large"
    else if op.payload.NotJson? then "invalid_payload"
    else if op.clientSequence < 0 || op.lastSeen < 0 then "invalid_operation"
    else ""
  }

  function CheckOperations(limits: Limits, ops: seq<Operation>): string {
    if ops == [] then ""
    else
      var code := CheckOperation(limits, ops[0]);
      if code != "" then code else CheckOperations(limits, ops[1..])
  }

  function ValidateSyncPush(limits: Limits, req: PushRequest): string {
    if |req.ops| > limits.maxPushOperations then "too_many_operations"
    else if ByteLength(req.deviceId) > MAX_DEVICE_ID || ByteLength(req.key) > MAX_KEY then "field_too_long"
    else CheckOperations(limits, req.ops)
  }

  /** What every check together demands of an operation. */
  predicate IsWellFormed(limits: Limits, op: Operation) {
    && (forall s | s in [op.opId, op.entityType, op.entityId, op.opType] :: !IsBlank(s))
    && ByteLength(op.opId) <= MAX_OP_ID && ByteLength(op.entityType) <= MAX_ENTITY_TYPE
    && ByteLength(op.entityId) <= MAX_ENTITY_ID && ByteLength(op.opType) <= MAX_OP_TYPE
    && PayloadBytes(op.payload) <= limits.maxPayloadJson && !op.payload.NotJson?
    && op.clientSequence >= 0 && op.lastSeen >= 0
  }

  lemma CheckedIsWellFormed(limits: Limits, op: Operation)
    ensures CheckOperation(limits, op) == "" <==> IsWellFormed(limits, op)
  {
    forall value: string, max: nat
      ensures CheckField(value, max) == "" <==> !IsBlank(value) && ByteLength(value) <= max {}
  }

  /** A batch passes iff every operation is well formed; otherwise the first that is not decides the code. */
  lemma {:induction false} FirstBadOperationDecides(limits: Limits, ops: seq<Operation>)
    ensures var code := CheckOperations(limits, ops);
            && (code == "" <==> forall op | op in ops :: IsWellFormed(limits, op))
            && (code != "" ==> exists i | 0 <= i < |ops| ::
                  CheckOperation(limits, ops[i]) == code && forall j | 0 <= j < i :: IsWellFormed(limits, ops[j]))
  {
    if ops != [] {
      CheckedIsWellFormed(limits, ops[0]);
      FirstBadOperationDecides(limits, ops[1..]);
      assert ops == [ops[0]] + ops[1..];
      var code := CheckOperations(limits, ops[1..]);
      if CheckOperation(limits, ops[0]) == "" && code != "" {
        var i :| 0 <= i < |ops[1..]| && CheckOperation(limits, ops[1..][i]) == code
                 && forall j | 0 <= j < i :: IsWellFormed(limits, ops[1..][j]);
        forall j | 0 <= j < i + 1 ensures IsWellFormed(limits, ops[j]) {
          assert j > 0 ==> ops[j] == ops[1..][j - 1];
        }
        assert CheckOperation(limits, ops[i + 1]) == code;
      } else if code == "" && CheckOperation(limits, ops[0]) != "" {
        assert !IsWellFormed(limits, ops[0]) && ops[0] in ops;
      }
    }
  }

  /** The required text fields of an operation in the order of their checks, each with its limit in bytes. */
  function TextFields(op: Operation): seq<(string, nat)> {
    [(op.opId, 128), (op.entityType, 64), (op.entityId, 4096), (op.opType, 64)]
  }

  predicate IsFine(field: (string, nat)) {
    !IsBlank(field.0) && ByteLength(field.0) <= field.1
  }

  /** The first text field that is not fine is number `k`. */
  predicate FailsFirstAt(op: Operation, k: nat) {
    k < 4 && !IsFine(TextFields(op)[k]) && forall j | 0 <= j < k :: IsFine(TextFields(op)[j])
  }

  /** Which code an operation is refused with. The text fields come first, in order: a blank one is an invalid
      operation and a long one is too long. Then come the size of the payload, its syntax, and the sequences. */
  lemma OperationCode(limits: Limits, op: Operation)
    ensures var code, fine := CheckOperation(limits, op), forall k | 0 <= k < 4 :: IsFine(TextFields(op)[k]);
            var large := (if op.payload.Blank? then 0 else op.payload.bytes) > limits.maxPayloadJson;
            var broken := op.payload.NotJson?;
            var negative := op.clientSequence < 0 || op.lastSeen < 0;
            && (code == "" <==> fine && !large && !broken && !negative)
            && (code == "payload_too_large" <==> fine && large)
            && (code == "invalid_payload" <==> fine && !large && broken)
            && (code == "field_too_long" <==> exists k: nat :: FailsFirstAt(op, k) && !IsBlank(TextFields(op)[k].0))
            && (code == "invalid_operation" <==>
                  || (fine && !large && !broken && negative)
                  || exists k: nat :: FailsFirstAt(op, k) && IsBlank(TextFields(op)[k].0))
  {
    var f := TextFields(op);
    assert f[0] == (op.opId, 128) && f[1] == (op.entityType, 64);
    assert f[2] == (op.entityId, 4096) && f[3] == (op.opType, 64);
    FieldCode(f[0]);
    FieldCode(f[1]);
    FieldCode(f[2]);
    FieldCode(f[3]);
    if IsFine(f[0]) && IsFine(f[1]) && IsFine(f[2]) && IsFine(f[3]) {
      assert forall k: nat :: !FailsFirstAt(op, k);
    } else {
      var k: nat := if !IsFine(f[0]) then 0 else if !IsFine(f[1]) then 1 else if !IsFine(f[2]) then 2 else 3;
      assert FailsFirstAt(op, k);
      assert forall j: nat :: FailsFirstAt(op, j) ==> j == k;
    }
  }

  lemma FieldCode(field: (string, nat))
    ensures CheckField(field.0, field.1) == "" <==> IsFine(field)
    ensures CheckField(field.0, field.1) == "invalid_operation" <==> IsBlank(field.0)
    ensures CheckField(field.0, field.1) == "field_too_long" <==> !IsBlank(field.0) && !IsFine(field)
  {
    assert "" != "invalid_operation" && "" != "field_too_long" && "invalid_operation" != "field_too_long";
  }

  /** The code of a whole request: first the number of operations, then the two texts of the request, then the first
      operation that is not well formed. */
  lemma RequestCode(limits: Limits, req: PushRequest)
    ensures var code, ops, many := ValidateSyncPush(limits, req), req.ops, |req.ops| > limits.maxPushOperations;
            var long := ByteLength(req.deviceId) > 128 || ByteLength(req.key) > 128;
            && (many ==> code == "too_many_operations")
            && (!many && long ==> code == "field_too_long")
            && (code == "" <==> !many && !long && forall op | op in ops :: IsWellFormed(limits, op))
            && (!many && !long && code != "" ==> exists i | 0 <= i < |ops| ::
                  CheckOperation(limits, ops[i]) == code && forall j | 0 <= j < i :: IsWellFormed(limits, ops[j]))
  {
    FirstBadOperationDecides(limits, req.ops);
    assert "" != "too_many_operations" && "" != "field_too_long";
  }

  /** ByteLength adds up, is the number of characters for ASCII, and at most four times that. */
  lemma {:induction false} ByteLengthBounds(a: string, b: string)
    ensures ByteLength(a + b) == ByteLength(a) + ByteLength(b)
    ensures |a| <= ByteLength(a) <= 4 * |a|
    ensures (forall i | 0 <= i < |a| :: a[i] as int < 0x80) <==> ByteLength(a) == |a|
  {
    if a == [] {
      assert a + b == b;
    } else {
      ByteLengthBounds(a[1..], b);
      assert (a + b)[1..] == a[1..] + b;
      assert forall i | 1 <= i < |a| :: a[i] == a[1..][i - 1];
    }
  }

  function Pow2(n: nat): nat {
    if n == 0 then 1 else 2 * Pow2(n - 1)
  }

  /** How many code points a form of `k` bytes has room for: seven bits in one byte, and in more the 7 - k of the first
      and six of each that follows. */
  function CodePoints(k: nat): nat {
    if k == 0 then 0 else if k == 1 then Pow2(7) else Pow2(5 * k + 1)
  }

  /** A character takes the shortest form of UTF-8 that has room for it. */
  lemma ShortestForm(c: char, k: nat)
    requires 1 <= k <= 4
    ensures ByteLength([c]) == k <==> CodePoints(k - 1) <= c as int < CodePoints(k)
  {
    assert ByteLength([c][1..]) == 0;
    assert Pow2(7) == 0x80;
    assert Pow2(11) == 16 * Pow2(7);
    assert Pow2(16) == 32 * Pow2(11);
    assert Pow2(21) == 32 * Pow2(16);
  }

  // ---------------------------------------------------------------- blob references

  predicate IsRefTo(row: RefRow, scope: Scope, sha: Sha) {
    row.scope == scope && row.sha == sha
  }

  /** SELECT size FROM server_blob_refs for one scope and hash. */
  function RefSize(refs: seq<RefRow>, scope: Scope, sha: Sha): Option<nat> {
    if refs == [] then None
    else if IsRefTo(refs[|refs| - 1], scope, sha) then Some(refs[|refs| - 1].size)
    else RefSize(refs[..|refs| - 1], scope, sha)
  }

  /** The check of validateScopedBlobReferences on one operation. */
  function CheckReference(refs: seq<RefRow>, scope: Scope, op: Operation): string {
    if op.entityType != "file" || op.payload.Blank? then ""
    else if !op.payload.Fields? then "invalid_payload"
    else if op.payload.inline then "inline_binary_forbidden"
    else match op.payload.blob
      case None => ""
      case Some(claim) =>
        if !claim.sha.Digest? || claim.size < 0 then "invalid_blob_reference"
        else match RefSize(refs, scope, claim.sha)
          case None => "blob_not_owned"
          case Some(size) => if size != claim.size then "invalid_blob_reference" else ""
  }

  function CheckReferences(refs: seq<RefRow>, scope: Scope, ops: seq<Operation>): string {
    if ops == [] then ""
    else
      var code := CheckReference(refs, scope, ops[0]);
      if code != "" then code else CheckReferences(refs, scope, ops[1..])
  }

  lemma {:induction false} CheckReferencesPass(refs: seq<RefRow>, scope: Scope, ops: seq<Operation>)
    ensures CheckReferences(refs, scope, ops) == "" <==> forall op | op in ops :: CheckReference(refs, scope, op) == ""
  {
    if ops != [] {
      CheckReferencesPass(refs, scope, ops[1..]);
      assert ops == [ops[0]] + ops[1..];
    }
  }

  /** A batch is refused with the code of its first operation whose references fail. */
  lemma {:induction false} FirstBadReferenceDecides(refs: seq<RefRow>, scope: Scope, ops: seq<Operation>)
    ensures CheckReferences(refs, scope, ops) != "" ==> exists i | 0 <= i < |ops| ::
              && CheckReference(refs, scope, ops[i]) == CheckReferences(refs, scope, ops)
              && forall j | 0 <= j < i :: CheckReference(refs, scope, ops[j]) == ""
  {
    if ops != [] && CheckReferences(refs, scope, ops) != "" {
      if CheckReference(refs, scope, ops[0]) == "" {
        FirstBadReferenceDecides(refs, scope, ops[1..]);
        var i :| 0 <= i < |ops[1..]| && CheckReference(refs, scope, ops[1..][i]) == CheckReferences(refs, scope, ops)
                 && forall j | 0 <= j < i :: CheckReference(refs, scope, ops[1..][j]) == "";
        assert ops[1..][i] == ops[i + 1];
        forall j | 0 <= j < i + 1 ensures CheckReference(refs, scope, ops[j]) == "" {
          assert j > 0 ==> ops[j] == ops[1..][j - 1];
        }
      }
    }
  }

  // ---------------------------------------------------------------- the effect on the log

  /** The operations of a batch that INSERT OR IGNORE does not ignore. */
  function Fresh(log: seq<OpRow>, batch: seq<Operation>): seq<Operation> {
    if batch == [] then []
    else
      var earlier, op := Fresh(log, batch[..|batch| - 1]), batch[|batch| - 1];
      if op.opId in OpIds(log) || op.opId in Ids(earlier) then earlier else earlier + [op]
  }

  function Ids(ops: seq<Operation>): seq<string> {
    seq(|ops|, i requires 0 <= i < |ops| => ops[i].opId)
  }

  function RowOf(d: Device, key: string, now: Timestamp, n: nat, op: Operation): OpRow {
    OpRow(op, Some(n), d.scope, d.id, key, now)
  }

  /** The rows a push appends, numbered consecutively from `first`. */
  function NewRows(d: Device, key: string, now: Timestamp, first: nat, added: seq<Operation>): seq<OpRow> {
    seq(|added|, i requires 0 <= i < |added| => RowOf(d, key, now, first + i, added[i]))
  }

  function RevisionOf(row: OpRow): Revision {
    Revision(Number(row), row.op.opId, row.device)
  }

  function RevisionsOf(rows: seq<OpRow>): seq<Revision> {
    seq(|rows|, i requires 0 <= i < |rows| => RevisionOf(rows[i]))
  }

  /** INSERT OR REPLACE INTO server_tombstones for each delete among `rows`, in order. */
  function Bury(tombstones: map<EntityKey, Tombstone>, rows: seq<OpRow>): map<EntityKey, Tombstone> {
    if rows == [] then tombstones
    else
      var earlier, row := Bury(tombstones, rows[..|rows| - 1]), rows[|rows| - 1];
      if IsDelete(row.op) then earlier[EntityOf(row) := Tombstone(row.op.opId, row.pushedAt)] else earlier
  }

  /** The tables once the rows for `added` are in. */
  function Extend(t: Tables, d: Device, key: string, now: Timestamp, added: seq<Operation>): Tables {
    var rows := NewRows(d, key, now, t.counter + 1, added);
    t.(ops := t.ops + rows, revisions := t.revisions + RevisionsOf(rows), counter := t.counter + |added|,
       tombstones := Bury(t.tombstones, rows))
  }

  /** The tables after the loop has taken in `batch`. */
  function Logged(t: Tables, d: Device, key: string, now: Timestamp, batch: seq<Operation>): Tables {
    Extend(t, d, key, now, Fresh(t.ops, batch))
  }

  // ---------------------------------------------------------------- conflicts

  function ConflictOf(op: Operation, rival: OpRow): Conflict {
    Conflict(rival.op.opId, rival.device, rival.op.opType, Number(rival), op.entityType, op.entityId)
  }

  function RivalsOf(d: Device, op: Operation): Where {
    Rivals(d, op.entityType, op.entityId, op.lastSeen)
  }

  function ConflictsWith(op: Operation, rivals: seq<OpRow>): seq<Conflict> {
    seq(|rivals|, i requires 0 <= i < |rivals| => ConflictOf(op, rivals[i]))
  }

  /** The conflicts of one operation against a log; only one that names a last seen sequence has any. */
  function ConflictsOf(log: seq<OpRow>, d: Device, op: Operation): seq<Conflict> {
    if op.lastSeen > 0 then ConflictsWith(op, Select(RivalsOf(d, op), log)) else []
  }

  /** The conflicts of a whole batch, all measured against the one log given. */
  function Conflicts(log: seq<OpRow>, d: Device, batch: seq<Operation>): seq<Conflict> {
    if batch == [] then []
    else Conflicts(log, d, batch[..|batch| - 1]) + ConflictsOf(log, d, batch[|batch| - 1])
  }

  // ---------------------------------------------------------------- the whole transaction

  function KeyOf(d: Device, req: PushRequest): ReplyKey {
    ReplyKey(d.scope, req.key)
  }

  predicate IsReplay(t: Tables, d: Device, req: PushRequest) {
    req.key != "" && KeyOf(d, req) in t.replies
  }

  /** The code a push is refused with, "" when it is carried out. */
  function Refusal(limits: Limits, t: Tables, d: Device, req: PushRequest): string {
    var code := ValidateSyncPush(limits, req);
    if code != "" then code else CheckReferences(t.refs, d.scope, req.ops)
  }

  function FreshReply(t: Tables, d: Device, req: PushRequest): PushReply {
    PushReply(Ids(Fresh(t.ops, req.ops)), Conflicts(t.ops, d, req.ops))
  }

  function Committed(t: Tables, d: Device, req: PushRequest, now: Timestamp): Tables {
    var logged := Logged(t, d, req.key, now, req.ops);
    if req.key == "" then logged
    else logged.(replies := logged.replies[KeyOf(d, req) := StoredReply(FreshReply(t, d, req), now)])
  }

  function Push(limits: Limits, t: Tables, d: Device, req: PushRequest, now: Timestamp): (Tables, PushResponse) {
    var code := Refusal(limits, t, d, req);
    if code != "" then (t, Rejected(code))
    else if IsReplay(t, d, req) then (t, Replied(t.replies[KeyOf(d, req)].reply))
    else (Committed(t, d, req, now), Replied(FreshReply(t, d, req)))
  }

  // ---------------------------------------------------------------- one iteration of the loop

  lemma OpIdsAppend(a: seq<OpRow>, b: seq<OpRow>)
    ensures OpIds(a + b) == OpIds(a) + OpIds(b)
  {
    forall id | id in OpIds(a) + OpIds(b) ensures id in OpIds(a + b) {
      var row :| (row in a || row in b) && row.op.opId == id;
      assert row in a + b;
    }
  }

  lemma NewRowsIds(d: Device, key: string, now: Timestamp, first: nat, added: seq<Operation>)
    ensures OpIds(NewRows(d, key, now, first, added)) == set id | id in Ids(added)
  {
    var rows := NewRows(d, key, now, first, added);
    forall id | id in Ids(added) ensures id in OpIds(rows) {
      var i :| 0 <= i < |added| && added[i].opId == id;
      assert rows[i] in rows;
    }
    forall id | id in OpIds(rows) ensures id in Ids(added) {
      var i :| 0 <= i < |rows| && rows[i].op.opId == id;
      assert Ids(added)[i] == id;
    }
  }

  lemma RevisionsAppend(a: seq<OpRow>, b: seq<OpRow>)
    ensures RevisionsOf(a + b) == RevisionsOf(a) + RevisionsOf(b)
  {}

  lemma {:induction false} BuryAppend(tombstones: map<EntityKey, Tombstone>, a: seq<OpRow>, b: seq<OpRow>)
    ensures Bury(tombstones, a + b) == Bury(Bury(tombstones, a), b)
  {
    if b == [] {
      assert a + b == a;
    } else {
      assert (a + b)[..|a + b| - 1] == a + b[..|b| - 1];
      BuryAppend(tombstones, a, b[..|b| - 1]);
    }
  }

  /** INSERT OR IGNORE sees the rows of this push already inserted. */
  lemma LoggedIds(t: Tables, d: Device, key: string, now: Timestamp, batch: seq<Operation>, id: string)
    ensures id in OpIds(Logged(t, d, key, now, batch).ops)
       <==> id in OpIds(t.ops) || id in Ids(Fresh(t.ops, batch))
  {
    var rows := NewRows(d, key, now, t.counter + 1, Fresh(t.ops, batch));
    OpIdsAppend(t.ops, rows);
    NewRowsIds(d, key, now, t.counter + 1, Fresh(t.ops, batch));
  }

  lemma FreshStep(log: seq<OpRow>, batch: seq<Operation>, op: Operation)
    ensures Fresh(log, batch + [op]) ==
            if op.opId in OpIds(log) || op.opId in Ids(Fresh(log, batch)) then Fresh(log, batch)
            else Fresh(log, batch) + [op]
  {
    assert (batch + [op])[..|batch + [op]| - 1] == batch;
  }

  lemma ExtendStep(t: Tables, d: Device, key: string, now: Timestamp, added: seq<Operation>, op: Operation)
    ensures Extend(t, d, key, now, added + [op]) == WithRow(Extend(t, d, key, now, added), d, key, now, op)
  {
    var first := t.counter + 1;
    var rows, row := NewRows(d, key, now, first, added), RowOf(d, key, now, first + |added|, op);
    assert NewRows(d, key, now, first, added + [op]) == rows + [row];
    assert t.ops + (rows + [row]) == t.ops + rows + [row];
    assert t.revisions + RevisionsOf(rows + [row]) == t.revisions + RevisionsOf(rows) + [RevisionOf(row)];
    assert Bury(t.tombstones, rows + [row]) == WithRow(Extend(t, d, key, now, added), d, key, now, op).tombstones by {
      assert (rows + [row])[..|rows + [row]| - 1] == rows;
    }
  }

  /** One more operation is either ignored or appended as one numbered row. */
  lemma LoggedStep(t: Tables, d: Device, key: string, now: Timestamp, batch: seq<Operation>, op: Operation)
    ensures op.opId in OpIds(Logged(t, d, key, now, batch).ops) ==>
              Fresh(t.ops, batch + [op]) == Fresh(t.ops, batch)
    ensures op.opId !in OpIds(Logged(t, d, key, now, batch).ops) ==>
              && Fresh(t.ops, batch + [op]) == Fresh(t.ops, batch) + [op]
              && Logged(t, d, key, now, batch + [op]) == WithRow(Logged(t, d, key, now, batch), d, key, now, op)
  {
    FreshStep(t.ops, batch, op);
    LoggedIds(t, d, key, now, batch, op.opId);
    ExtendStep(t, d, key, now, Fresh(t.ops, batch), op);
  }

  /** The statements that take in one operation which is not ignored. */
  function WithRow(t: Tables, d: Device, key: string, now: Timestamp, op: Operation): Tables {
    var row := RowOf(d, key, now, t.counter + 1, op);
    t.(ops := t.ops + [row], revisions := t.revisions + [RevisionOf(row)], counter := t.counter + 1,
       tombstones := if IsDelete(op) then t.tombstones[EntityOf(row) := Tombstone(op.opId, now)] else t.tombstones)
  }

  /** The rows a push has itself added never conflict with it: the conflict query
      skips the pushing device, so the log before the push decides every conflict. */
  lemma ConflictsIgnoreOwnRows(t: Tables, d: Device, key: string, now: Timestamp, batch: seq<Operation>, op: Operation)
    ensures Select(RivalsOf(d, op), Logged(t, d, key, now, batch).ops) == Select(RivalsOf(d, op), t.ops)
  {
    var rows := NewRows(d, key, now, t.counter + 1, Fresh(t.ops, batch));
    SelectAppend(RivalsOf(d, op), t.ops, rows);
    SelectNone(RivalsOf(d, op), rows);
  }

  /** UPDATE server_ops SET server_sequence=? WHERE op_id=? */
  function AssignSequence(rows: seq<OpRow>, opId: string, n: nat): (r: seq<OpRow>)
    ensures |r| == |rows|
    ensures forall i | 0 <= i < |rows| ::
              r[i] == if rows[i].op.opId == opId then rows[i].(sequence := Some(n)) else rows[i]
  {
    seq(|rows|, i requires 0 <= i < |rows| =>
      if rows[i].op.opId == opId then rows[i].(sequence := Some(n)) else rows[i])
  }

  /** Inserting with a NULL sequence and then numbering by op_id appends one numbered row. */
  lemma NumberInserted(rows: seq<OpRow>, row: OpRow, n: nat)
    requires row.op.opId !in OpIds(rows)
    ensures AssignSequence(rows + [row], row.op.opId, n) == rows + [row.(sequence := Some(n))]
  {
    forall i | 0 <= i < |rows| ensures rows[i].op.opId != row.op.opId {
      assert rows[i] in rows;
    }
  }
}

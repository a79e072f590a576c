/**
 The operation log: what a push and a user deletion keep. In every committed state
 the revisions and the tombstones are functions of the log.
 */
module OpLog {
  import opened Schema
  import opened PushSpec

  /** The tombstones a log gives rise to, each entity's later deletes replacing earlier ones. */
  function TombstonesOf(log: seq<OpRow>): map<EntityKey, Tombstone> {
    Bury(map[], log)
  }

  /** The invariant of committed states. */
  ghost predicate LogInv(t: Tables) {
    && DistinctIds(t.ops)
    && Numbered(t.ops, t.counter)
    && t.revisions == RevisionsOf(t.ops)
    && t.tombstones == TombstonesOf(t.ops)
  }

  // ---------------------------------------------------------------- push

  lemma {:induction false} FreshIsNew(log: seq<OpRow>, batch: seq<Operation>)
    ensures forall op | op in Fresh(log, batch) :: op.opId !in OpIds(log)
    ensures forall i, j | 0 <= i < j < |Fresh(log, batch)| :: Fresh(log, batch)[i].opId != Fresh(log, batch)[j].opId
  {
    if batch != [] {
      var before, op := batch[..|batch| - 1], batch[|batch| - 1];
      var earlier := Fresh(log, before);
      FreshIsNew(log, before);
      FreshStep(log, before, op);
      assert batch == before + [op];
      if op.opId !in Ids(earlier) {
        forall i | 0 <= i < |earlier| ensures earlier[i].opId != op.opId {
          assert Ids(earlier)[i] == earlier[i].opId;
        }
      }
    }
  }

  /** Which operations are accepted, without following the loop: those of a batch whose id is
      neither in the log nor on an earlier operation of the batch. */
  lemma {:induction false} FreshMember(log: seq<OpRow>, batch: seq<Operation>, op: Operation)
    ensures op in Fresh(log, batch) <==>
            exists i | 0 <= i < |batch| :: batch[i] == op && op.opId !in OpIds(log) && op.opId !in Ids(batch[..i])
  {
    if batch != [] {
      var before, last := batch[..|batch| - 1], batch[|batch| - 1];
      FreshMember(log, before, op);
      FreshCovers(log, before, last.opId);
      forall i | 0 <= i < |before| ensures batch[i] == before[i] && batch[..i] == before[..i] {}
      assert batch[..|batch| - 1] == before;
      if last == op && op.opId !in OpIds(log) && op.opId !in Ids(before) {
        assert batch[|batch| - 1] == op;
      }
    }
  }

  /** A longer batch only adds operations behind those of a shorter one, so acceptance follows batch order. */
  lemma {:induction false} FreshInOrder(log: seq<OpRow>, a: seq<Operation>, b: seq<Operation>)
    ensures Fresh(log, a) <= Fresh(log, a + b)
  {
    if b == [] {
      assert a + b == a;
    } else {
      FreshInOrder(log, a, b[..|b| - 1]);
      assert (a + b)[..|a + b| - 1] == a + b[..|b| - 1];
    }
  }

  /** After a push every id of its batch is in the log or newly added. */
  lemma {:induction false} FreshCovers(log: seq<OpRow>, batch: seq<Operation>, id: string)
    ensures id in OpIds(log) || (id in Ids(Fresh(log, batch)) <==> id in Ids(batch))
  {
    if batch != [] {
      var before, last := batch[..|batch| - 1], batch[|batch| - 1];
      FreshCovers(log, before, id);
      FreshStep(log, before, last);
      assert batch == before + [last];
      assert Ids(batch) == Ids(before) + [last.opId];
      var earlier := Fresh(log, before);
      assert Ids(earlier + [last]) == Ids(earlier) + [last.opId];
    }
  }

  lemma NewRowsDistinct(t: Tables, d: Device, key: string, now: Timestamp, batch: seq<Operation>)
    requires DistinctIds(t.ops)
    ensures DistinctIds(Logged(t, d, key, now, batch).ops)
  {
    var added := Fresh(t.ops, batch);
    var rows := NewRows(d, key, now, t.counter + 1, added);
    FreshIsNew(t.ops, batch);
    forall i, j | 0 <= i < |t.ops| && 0 <= j < |rows| ensures t.ops[i].op.opId != rows[j].op.opId {
      assert t.ops[i] in t.ops && added[j] in added;
    }
  }

  lemma NewRowsNumbered(t: Tables, d: Device, key: string, now: Timestamp, added: seq<Operation>)
    requires Numbered(t.ops, t.counter)
    ensures Numbered(t.ops + NewRows(d, key, now, t.counter + 1, added), t.counter + |added|)
  {}

  lemma ExtendKeepsIndexes(t: Tables, d: Device, key: string, now: Timestamp, added: seq<Operation>)
    requires t.revisions == RevisionsOf(t.ops) && t.tombstones == TombstonesOf(t.ops)
    ensures var t' := Extend(t, d, key, now, added);
            t'.revisions == RevisionsOf(t'.ops) && t'.tombstones == TombstonesOf(t'.ops)
  {
    var rows := NewRows(d, key, now, t.counter + 1, added);
    RevisionsAppend(t.ops, rows);
    BuryAppend(map[], t.ops, rows);
  }

  lemma CommitKeepsLog(t: Tables, d: Device, req: PushRequest, now: Timestamp)
    requires LogInv(t)
    ensures LogInv(Committed(t, d, req, now))
  {
    var added := Fresh(t.ops, req.ops);
    NewRowsDistinct(t, d, req.key, now, req.ops);
    NewRowsNumbered(t, d, req.key, now, added);
    ExtendKeepsIndexes(t, d, req.key, now, added);
  }

  // ---------------------------------------------------------------- user deletion

  /** DELETE FROM server_revisions WHERE op_id IN ids */
  function RevisionsWithout(ids: set<string>, revisions: seq<Revision>): seq<Revision> {
    if revisions == [] then []
    else
      var before, last := RevisionsWithout(ids, revisions[..|revisions| - 1]), revisions[|revisions| - 1];
      if last.opId in ids then before else before + [last]
  }

  function TombstonesWithout(user: string, m: map<EntityKey, Tombstone>): map<EntityKey, Tombstone> {
    map k | k in m && k.scope.user != user :: m[k]
  }

  function RepliesWithout(user: string, m: map<ReplyKey, StoredReply>): map<ReplyKey, StoredReply> {
    map k | k in m && k.scope.user != user :: m[k]
  }

  function RefsWithout(user: string, refs: seq<RefRow>): seq<RefRow> {
    if refs == [] then []
    else
      var before, row := RefsWithout(user, refs[..|refs| - 1]), refs[|refs| - 1];
      if row.scope.user == user then before else before + [row]
  }

  /** The ordered deletes of a user deletion on these tables. The revisions are deleted
      through the operations, so they must go first. */
  function WithoutUser(t: Tables, user: string): Tables {
    t.(refs := RefsWithout(user, t.refs),
       replies := RepliesWithout(user, t.replies),
       tombstones := TombstonesWithout(user, t.tombstones),
       revisions := RevisionsWithout(OpIds(Select(OfUser(user), t.ops)), t.revisions),
       ops := Select(NotOfUser(user), t.ops))
  }

  lemma {:induction false} RevisionsFollowOps(user: string, ids: set<string>, rows: seq<OpRow>)
    requires forall row | row in rows :: row.op.opId in ids <==> row.scope.user == user
    ensures RevisionsWithout(ids, RevisionsOf(rows)) == RevisionsOf(Select(NotOfUser(user), rows))
  {
    if rows != [] {
      var before, row := rows[..|rows| - 1], rows[|rows| - 1];
      RevisionsFollowOps(user, ids, before);
      assert RevisionsOf(rows)[..|rows| - 1] == RevisionsOf(before);
      assert row in rows;
      RevisionsAppend(Select(NotOfUser(user), before), [row]);
    }
  }

  lemma BuryOne(rows: seq<OpRow>, row: OpRow)
    ensures TombstonesOf(rows + [row]) ==
            if IsDelete(row.op) then TombstonesOf(rows)[EntityOf(row) := Tombstone(row.op.opId, row.pushedAt)]
            else TombstonesOf(rows)
  {
    assert (rows + [row])[..|rows + [row]| - 1] == rows;
  }

  lemma BuriedWithout(user: string, m: map<EntityKey, Tombstone>, k: EntityKey, v: Tombstone)
    ensures TombstonesWithout(user, m[k := v]) ==
            if k.scope.user == user then TombstonesWithout(user, m) else TombstonesWithout(user, m)[k := v]
  {}

  lemma TombstonesFollowOne(user: string, before: seq<OpRow>, row: OpRow)
    requires TombstonesOf(Select(NotOfUser(user), before)) == TombstonesWithout(user, TombstonesOf(before))
    ensures TombstonesOf(Select(NotOfUser(user), before + [row]))
         == TombstonesWithout(user, TombstonesOf(before + [row]))
  {
    var kept := Select(NotOfUser(user), before);
    assert Select(NotOfUser(user), before + [row]) == if row.scope.user != user then kept + [row] else kept by {
      assert (before + [row])[..|before + [row]| - 1] == before;
    }
    BuryOne(kept, row);
    BuryOne(before, row);
    BuriedWithout(user, TombstonesOf(before), EntityOf(row), Tombstone(row.op.opId, row.pushedAt));
  }

  lemma {:induction false} TombstonesFollowOps(user: string, rows: seq<OpRow>)
    ensures TombstonesOf(Select(NotOfUser(user), rows)) == TombstonesWithout(user, TombstonesOf(rows))
  {
    if rows == [] {
      assert TombstonesWithout(user, map[]) == map[];
    } else {
      var before, row := rows[..|rows| - 1], rows[|rows| - 1];
      TombstonesFollowOps(user, before);
      TombstonesFollowOne(user, before, row);
      assert before + [row] == rows;
    }
  }

  /** op_id is unique, so the ids of a user's operations name no one else's. */
  lemma OwnersOfIds(user: string, log: seq<OpRow>)
    requires DistinctIds(log)
    ensures forall row | row in log :: row.op.opId in OpIds(Select(OfUser(user), log)) <==> row.scope.user == user
  {
    forall row | row in log
      ensures row.op.opId in OpIds(Select(OfUser(user), log)) <==> row.scope.user == user
    {
      SelectMember(OfUser(user), log, row);
      if row.op.opId in OpIds(Select(OfUser(user), log)) {
        var other :| other in Select(OfUser(user), log) && other.op.opId == row.op.opId;
        SelectMember(OfUser(user), log, other);
        var i :| 0 <= i < |log| && log[i] == row;
        var j :| 0 <= j < |log| && log[j] == other;
        assert i == j;
      }
    }
  }

  lemma DeletionKeepsLog(t: Tables, user: string)
    requires LogInv(t)
    ensures LogInv(WithoutUser(t, user))
  {
    SelectDistinct(NotOfUser(user), t.ops);
    SelectOrdered(NotOfUser(user), t.ops, t.counter);
    OwnersOfIds(user, t.ops);
    RevisionsFollowOps(user, OpIds(Select(OfUser(user), t.ops)), t.ops);
    TombstonesFollowOps(user, t.ops);
  }

  lemma {:induction false} RefsOfOthers(user: string, refs: seq<RefRow>, row: RefRow)
    ensures row in RefsWithout(user, refs) <==> row in refs && row.scope.user != user
  {
    if refs != [] {
      RefsOfOthers(user, refs[..|refs| - 1], row);
      assert refs == refs[..|refs| - 1] + [refs[|refs| - 1]];
    }
  }

  /** A revision records an operation of the log: its id is the sequence, and it names the operation and its device. */
  predicate Records(rev: Revision, row: OpRow) {
    Some(rev.id) == row.sequence && rev.opId == row.op.opId && rev.device == row.device
  }

  /** A deletion leaves nothing of the user in any table and everything of everyone else as it was. */
  lemma DeletionIsExact(t: Tables, user: string, row: OpRow, rev: Revision, ref: RefRow, entity: EntityKey,
                        key: ReplyKey)
    requires LogInv(t)
    ensures var t' := WithoutUser(t, user);
            && (row in t'.ops <==> row in t.ops && row.scope.user != user)
            && (row in t.ops && Records(rev, row) ==> (rev in t'.revisions <==> row.scope.user != user))
            && (rev in t'.revisions ==> rev in t.revisions)
            && (ref in t'.refs <==> ref in t.refs && ref.scope.user != user)
            && (entity in t'.tombstones <==> entity in t.tombstones && entity.scope.user != user)
            && (entity in t'.tombstones ==> t'.tombstones[entity] == t.tombstones[entity])
            && (key in t'.replies <==> key in t.replies && key.scope.user != user)
            && (key in t'.replies ==> t'.replies[key] == t.replies[key])
            && t'.counter == t.counter && t'.blobs == t.blobs
  {
    var t' := WithoutUser(t, user);
    DeletionKeepsLog(t, user);
    SelectMember(NotOfUser(user), t.ops, row);
    RefsOfOthers(user, t.refs, ref);
    OpRevisionBijection(t);
    OpRevisionBijection(t');
    if rev in t'.revisions {
      var other :| other in t'.ops && Records(rev, other);
      SelectMember(NotOfUser(user), t.ops, other);
      RecordedOnce(t, rev, other);
      if row in t.ops && Records(rev, row) {
        var i :| 0 <= i < |t.ops| && t.ops[i] == row;
        var j :| 0 <= j < |t.ops| && t.ops[j] == other;
        assert i == j;
      }
    }
    if row in t'.ops && Records(rev, row) {
      RecordedOnce(t', rev, row);
    }
  }

  lemma RecordedOnce(t: Tables, rev: Revision, row: OpRow)
    requires LogInv(t) && row in t.ops && Records(rev, row)
    ensures rev in t.revisions
  {
    var i :| 0 <= i < |t.ops| && t.ops[i] == row;
    assert t.revisions[i] == rev;
  }

  // ---------------------------------------------------------------- what a push writes

  /** The log and the revisions have grown at their ends by one row for each of the given operations, numbered on from
      the counter, and the blobs and the references are as they were. */
  ghost predicate HasLogged(t: Tables, t': Tables, d: Device, key: string, at: Timestamp, added: seq<Operation>) {
    && t.ops <= t'.ops && t.revisions <= t'.revisions
    && AreNewRows(t'.ops[|t.ops|..], d, key, at, t.counter + 1, added)
    && AreNewRevisions(t'.revisions[|t.revisions|..], d, t.counter + 1, added)
    && t'.counter == t.counter + |added| && t'.blobs == t.blobs && t'.refs == t.refs
  }

  ghost predicate AreNewRows(rows: seq<OpRow>, d: Device, key: string, at: Timestamp, first: nat,
                             added: seq<Operation>)
  {
    && |rows| == |added|
    && forall i | 0 <= i < |added| :: rows[i] == OpRow(added[i], Some(first + i), d.scope, d.id, key, at)
  }

  ghost predicate AreNewRevisions(revisions: seq<Revision>, d: Device, first: nat, added: seq<Operation>) {
    |revisions| == |added| && forall i | 0 <= i < |added| :: revisions[i] == Revision(first + i, added[i].opId, d.id)
  }

  /** What a push that is carried out leaves in the log. */
  lemma CommitEffect(t: Tables, d: Device, req: PushRequest, at: Timestamp)
    ensures HasLogged(t, Committed(t, d, req, at), d, req.key, at, Fresh(t.ops, req.ops))
  {
    CommitAppends(t, d, req, at);
    RowsAreLogged(t, Committed(t, d, req, at), d, req.key, at, Fresh(t.ops, req.ops));
  }

  lemma RowsAreLogged(t: Tables, t': Tables, d: Device, key: string, at: Timestamp, added: seq<Operation>)
    requires var rows := NewRows(d, key, at, t.counter + 1, added);
             && t'.ops == t.ops + rows && t'.revisions == t.revisions + RevisionsOf(rows)
             && t'.counter == t.counter + |added| && t'.blobs == t.blobs && t'.refs == t.refs
    ensures HasLogged(t, t', d, key, at, added)
  {
    var rows := NewRows(d, key, at, t.counter + 1, added);
    NewRowsEffect(d, key, at, t.counter + 1, added);
    assert t'.ops[|t.ops|..] == rows && t'.revisions[|t.revisions|..] == RevisionsOf(rows);
  }

  lemma CommitAppends(t: Tables, d: Device, req: PushRequest, at: Timestamp)
    ensures var t', rows := Committed(t, d, req, at), NewRows(d, req.key, at, t.counter + 1, Fresh(t.ops, req.ops));
            && t'.ops == t.ops + rows && t'.revisions == t.revisions + RevisionsOf(rows)
            && t'.counter == t.counter + |Fresh(t.ops, req.ops)| && t'.blobs == t.blobs && t'.refs == t.refs
  {}

  /** Its reply is stored under its scope and key, and no other stored reply changes. */
  lemma CommitStoresReply(t: Tables, d: Device, req: PushRequest, at: Timestamp, other: ReplyKey)
    ensures var t', k := Committed(t, d, req, at), ReplyKey(d.scope, req.key);
            && (other != k || req.key == "" ==> (other in t'.replies <==> other in t.replies))
            && ((other != k || req.key == "") && other in t.replies ==> t'.replies[other] == t.replies[other])
            && (req.key != "" ==> k in t'.replies && t'.replies[k] == StoredReply(FreshReply(t, d, req), at))
  {}

  lemma NewRowsEffect(d: Device, key: string, at: Timestamp, first: nat, added: seq<Operation>)
    ensures var rows := NewRows(d, key, at, first, added);
            AreNewRows(rows, d, key, at, first, added) && AreNewRevisions(RevisionsOf(rows), d, first, added)
  {}

  // ---------------------------------------------------------------- what the invariant says

  /** Op/revision bijection: every operation has exactly one revision, whose id is its sequence
      and whose device is its device, and every revision has its operation. */
  lemma OpRevisionBijection(t: Tables)
    requires LogInv(t)
    ensures |t.revisions| == |t.ops|
    ensures forall i | 0 <= i < |t.ops| :: Records(t.revisions[i], t.ops[i])
    ensures forall rev | rev in t.revisions :: exists row | row in t.ops :: Records(rev, row)
    ensures forall i, j | 0 <= i < |t.ops| && 0 <= j < |t.revisions| ::
              t.revisions[j].opId == t.ops[i].op.opId ==> i == j
  {
    forall rev | rev in t.revisions ensures exists row | row in t.ops :: Records(rev, row) {
      var i :| 0 <= i < |t.revisions| && t.revisions[i] == rev;
      assert t.ops[i] in t.ops && Records(rev, t.ops[i]);
    }
  }

  lemma {:induction false} BuriedBy(rows: seq<OpRow>, key: EntityKey)
    ensures var deletes := Select(DeletesOf(key), rows);
            && (key in TombstonesOf(rows) <==> deletes != [])
            && (deletes != [] ==>
                  var row := deletes[|deletes| - 1];
                  TombstonesOf(rows)[key] == Tombstone(row.op.opId, row.pushedAt))
  {
    if rows != [] {
      BuriedBy(rows[..|rows| - 1], key);
    }
  }

  /** A row deletes an entity of a scope. */
  predicate Deleting(row: OpRow, key: EntityKey) {
    && row.scope == key.scope && row.op.entityType == key.entityType && row.op.entityId == key.entityId
    && row.op.opType == "delete"
  }

  lemma DeletesMember(rows: seq<OpRow>, key: EntityKey, row: OpRow)
    ensures row in Select(DeletesOf(key), rows) <==> row in rows && Deleting(row, key)
  {
    SelectMember(DeletesOf(key), rows, row);
  }

  lemma LastIsHighest(rows: seq<OpRow>, counter: nat)
    requires Numbered(rows, counter) && rows != []
    ensures forall row | row in rows :: Number(row) <= Number(rows[|rows| - 1])
  {}

  /** Tombstones as an index: an entity has a tombstone iff the log deletes it, and the tombstone
      names the delete with the highest sequence. */
  lemma TombstoneIndex(t: Tables, key: EntityKey)
    requires LogInv(t)
    ensures key in t.tombstones <==> exists row | row in t.ops :: Deleting(row, key)
    ensures key in t.tombstones ==>
              exists row | row in t.ops ::
                && Deleting(row, key) && t.tombstones[key] == Tombstone(row.op.opId, row.pushedAt)
                && forall other | other in t.ops && Deleting(other, key) :: Number(other) <= Number(row)
  {
    var deletes := Select(DeletesOf(key), t.ops);
    BuriedBy(t.ops, key);
    forall row ensures row in deletes <==> row in t.ops && Deleting(row, key) {
      DeletesMember(t.ops, key, row);
    }
    if deletes != [] {
      SelectOrdered(DeletesOf(key), t.ops, t.counter);
      LastIsHighest(deletes, t.counter);
      var last := deletes[|deletes| - 1];
      assert last in deletes;
      assert t.tombstones[key] == Tombstone(last.op.opId, last.pushedAt);
    }
  }
}

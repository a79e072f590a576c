/**
 Opening a database of an earlier version: the SQL backfills give each old operation the scope
 that the server later computes for the device that pushed it. And enrolment: the vault names a
 new device may choose.
 */
module Migration {
  import opened Schema
  import opened PushSpec

  const LEGACY := "legacy:"
  const DISABLED := "disabled:"
  const MAX_VAULT_ID := 256

  /** effectiveVaultScope */
  function EffectiveVaultScope(user: string, vault: string): string {
    if vault != "" then vault else if user == "" then "" else LEGACY + user
  }

  // ---------------------------------------------------------------- the tables before and after

  /** server_ops */
  datatype OldOp = OldOp(device: string, user: Option<string>, vault: Option<string>)

  datatype OldTombstone = OldTombstone(entityType: string, entityId: string, opId: string, deletedAt: Timestamp)

  /** server_tombstones before and after it has its scoped primary key. */
  datatype TombstoneTable = Unscoped(rows: seq<OldTombstone>) | Scoped(index: map<EntityKey, Tombstone>)

  /** server_idempotency_keys likewise; the old one was global. */
  datatype ReplyTable = GlobalReplies(discarded: map<string, StoredReply>)
    | ScopedReplies(replies: map<ReplyKey, StoredReply>)

  datatype PlainToken = PlainToken(token: string, row: TokenRow)

  /** server_email_tokens likewise. */
  datatype TokenTable = PlainTokens(plain: seq<PlainToken>) | HashedTokens(hashed: map<TokenHash, TokenRow>)

  datatype Database = Database(
    devices: map<string, DeviceRow>, pairings: seq<Pairing>, ops: map<string, OldOp>,
    tombstones: TombstoneTable, replies: ReplyTable, tokens: TokenTable)

  // ---------------------------------------------------------------- the backfills

  /** The users a device is paired with. */
  function OwnersOf(pairings: seq<Pairing>, device: string): seq<string> {
    if pairings == [] then []
    else
      var rest := OwnersOf(pairings[1..], device);
      if pairings[0].device == device then [pairings[0].user] + rest else rest
  }

  function BackfilledDevice(pairings: seq<Pairing>, id: string, row: DeviceRow): DeviceRow {
    var owners := OwnersOf(pairings, id);
    if Text(row.user) == "" && |owners| == 1 then row.(user := Some(owners[0])) else row
  }

  function BackfillDeviceOwners(db: Database): Database {
    db.(devices := map id | id in db.devices :: BackfilledDevice(db.pairings, id, db.devices[id]))
  }

  function LowerAscii(c: char): char {
    if 'A' <= c <= 'Z' then c + ('a' - 'A') else c
  }

  /** api_key LIKE 'disabled:%'; LIKE ignores the case of ASCII letters. */
  predicate IsDisabledKey(key: string) {
    |key| >= |DISABLED| && forall i | 0 <= i < |DISABLED| :: LowerAscii(key[i]) == DISABLED[i]
  }

  function MigrateCredentials(db: Database): Database {
    db.(devices := map id | id in db.devices ::
      if !IsDisabledKey(db.devices[id].apiKey) then db.devices[id].(legacyKey := true) else db.devices[id])
  }

  function DeviceUser(db: Database, device: string): Option<string> {
    if device in db.devices then db.devices[device].user else None
  }

  function DeviceVault(db: Database, device: string): string {
    if device in db.devices then Text(db.devices[device].vault) else ""
  }

  /** The two updates of backfillOperationScope on one row. */
  function BackfilledOp(db: Database, op: OldOp): OldOp {
    var user := if Text(op.user) == "" then DeviceUser(db, op.device) else op.user;
    var vault :=
      if Text(op.vault) == "" && Text(user) != "" then
        Some(if DeviceVault(db, op.device) != "" then DeviceVault(db, op.device) else LEGACY + Text(user))
      else op.vault;
    op.(user := user, vault := vault)
  }

  function BackfillOperationScope(db: Database): Database {
    db.(ops := map id | id in db.ops :: BackfilledOp(db, db.ops[id]))
  }

  predicate HasScope(op: OldOp) {
    Text(op.user) != "" && Text(op.vault) != ""
  }

  function ScopedKey(op: OldOp, row: OldTombstone): EntityKey {
    EntityKey(Scope(Text(op.user), Text(op.vault)), row.entityType, row.entityId)
  }

  /** INSERT OR IGNORE ... SELECT over the old tombstones joined with their operations. */
  function ScopeTombstones(ops: map<string, OldOp>, rows: seq<OldTombstone>): map<EntityKey, Tombstone> {
    if rows == [] then map[]
    else
      var m, row := ScopeTombstones(ops, rows[..|rows| - 1]), rows[|rows| - 1];
      if row.opId in ops && HasScope(ops[row.opId]) && ScopedKey(ops[row.opId], row) !in m then
        m[ScopedKey(ops[row.opId], row) := Tombstone(row.opId, row.deletedAt)]
      else m
  }

  function MigrateTombstoneScope(db: Database): Database {
    match db.tombstones
    case Unscoped(rows) => db.(tombstones := Scoped(ScopeTombstones(db.ops, rows)))
    case Scoped(_) => db
  }

  function MigrateIdempotencyScope(db: Database): Database {
    match db.replies
    case GlobalReplies(_) => db.(replies := ScopedReplies(map[]))
    case ScopedReplies(_) => db
  }

  function HashTokens(plain: seq<PlainToken>): map<TokenHash, TokenRow> {
    if plain == [] then map[]
    else HashTokens(plain[..|plain| - 1])[HashOf(plain[|plain| - 1].token) := plain[|plain| - 1].row]
  }

  function MigrateEmailTokenHashes(db: Database): Database {
    match db.tokens
    case PlainTokens(plain) => db.(tokens := HashedTokens(HashTokens(plain)))
    case HashedTokens(_) => db
  }

  /** migrateServerSchema, in its order. */
  function Migrate(db: Database): Database {
    MigrateIdempotencyScope(MigrateTombstoneScope(BackfillOperationScope(
      MigrateEmailTokenHashes(MigrateCredentials(BackfillDeviceOwners(db))))))
  }

  /** The row loop of migrateEmailTokenHashes. */
  method RehashTokens(plain: seq<PlainToken>) returns (hashed: map<TokenHash, TokenRow>)
    requires DistinctTokens(plain)
    ensures hashed == HashTokens(plain)
    ensures forall t | t in plain :: HashOf(t.token) in hashed && hashed[HashOf(t.token)] == t.row
    ensures forall h | h in hashed :: PlainToken(h.token, hashed[h]) in plain
  {
    hashed := map[];
    var i := 0;
    while i < |plain|
      invariant 0 <= i <= |plain|
      invariant hashed == HashTokens(plain[..i])
      invariant forall j | 0 <= j < i ::
                  HashOf(plain[j].token) in hashed && hashed[HashOf(plain[j].token)] == plain[j].row
      invariant forall h | h in hashed :: PlainToken(h.token, hashed[h]) in plain
    {
      assert plain[..i + 1][..i] == plain[..i];
      assert forall j | 0 <= j < i :: HashOf(plain[j].token) != HashOf(plain[i].token);
      hashed := hashed[HashOf(plain[i].token) := plain[i].row];
      i := i + 1;
    }
    assert plain[..i] == plain;
  }

  // ---------------------------------------------------------------- what the old schema guarantees

  /** The old primary keys: one row per token, one tombstone per entity. */
  ghost predicate DistinctTokens(plain: seq<PlainToken>) {
    forall i, j | 0 <= i < j < |plain| :: plain[i].token != plain[j].token
  }

  ghost predicate DistinctEntities(rows: seq<OldTombstone>) {
    forall i, j | 0 <= i < j < |rows| ::
      rows[i].entityType != rows[j].entityType || rows[i].entityId != rows[j].entityId
  }

  /** A device without an owner gets one iff it is paired with exactly one user, and then that user. */
  lemma {:induction false} OwnerIsTheOnlyPairing(pairings: seq<Pairing>, device: string, user: string)
    requires forall i, j | 0 <= i < j < |pairings| :: pairings[i] != pairings[j]
    ensures OwnersOf(pairings, device) == [user] <==>
            Pairing(user, device) in pairings && forall p | p in pairings && p.device == device :: p.user == user
    ensures OwnersOf(pairings, device) == [] <==> forall p | p in pairings :: p.device != device
  {
    if pairings != [] {
      var first, rest := pairings[0], pairings[1..];
      OwnerIsTheOnlyPairing(rest, device, user);
      assert first !in rest by {
        assert forall j | 0 <= j < |rest| :: rest[j] == pairings[j + 1];
      }
      assert forall p :: p in pairings <==> p == first || p in rest by {
        assert pairings == [first] + rest;
      }
      var owners := OwnersOf(rest, device);
      if first.device == device {
        assert OwnersOf(pairings, device) == [first.user] + owners;
        if [first.user] + owners == [user] {
          assert |owners| == 0 && ([first.user] + owners)[0] == user;
        } else if owners == [] {
          assert [first.user] + owners == [first.user];
        }
        assert forall p | p in rest && p.device == device && p.user == first.user :: p == first;
      }
    }
  }

  /** The device is paired with this user and with no one else. */
  predicate IsOnlyOwner(pairings: seq<Pairing>, device: string, user: string) {
    Pairing(user, device) in pairings && forall p | p in pairings && p.device == device :: p.user == user
  }

  /** What migration does to a device: an owner is filled in iff there is none and exactly one pairing, a key that is
      not a disabled placeholder is marked as legacy, and the rest stays. */
  lemma {:induction false} MigratedDeviceIsExact(db: Database, id: string, user: string)
    requires id in db.devices && forall i, j | 0 <= i < j < |db.pairings| :: db.pairings[i] != db.pairings[j]
    ensures id in Migrate(db).devices && forall other | other in Migrate(db).devices :: other in db.devices
    ensures var was, row := db.devices[id], Migrate(db).devices[id];
            && (Text(was.user) != "" ==> row.user == was.user)
            && (Text(was.user) == "" && IsOnlyOwner(db.pairings, id, user) ==> row.user == Some(user))
            && (row.user != was.user ==>
                  Text(was.user) == "" && row.user.Some? && IsOnlyOwner(db.pairings, id, row.user.value))
            && row.vault == was.vault && row.apiKey == was.apiKey && row.tokenHash == was.tokenHash
            && row.revokedAt == was.revokedAt && (row.legacyKey <==> was.legacyKey || !IsDisabledKey(was.apiKey))
  {
    var owners := OwnersOf(db.pairings, id);
    MigratedTables(db);
    OwnerIsTheOnlyPairing(db.pairings, id, user);
    if |owners| == 1 {
      OwnerIsTheOnlyPairing(db.pairings, id, owners[0]);
      assert owners == [owners[0]];
    }
  }

  /** Disabled placeholders are the keys that start with `disabled:`, in any mixture of cases. */
  lemma DisabledKeys(key: string, rest: string)
    ensures IsDisabledKey("disabled:" + rest) && IsDisabledKey("DISABLED:" + rest) && IsDisabledKey("Disabled:" + rest)
    ensures |key| < 9 || key[8] != ':' || (key[0] != 'd' && key[0] != 'D') ==> !IsDisabledKey(key)
  {}

  /** A device of the new form has a placeholder for a key, and no migration marks it as one of the old form: such a
      device stays as it is and its token is the only key that opens it. */
  lemma EnrolledDeviceKeepsItsToken(db: Database, id: string, user: string, vault: string, token: string, key: string)
    requires id in db.devices && db.devices[id] == EnrolledDevice(id, user, vault, token) && user != ""
    ensures var m := Migrate(db);
            && id in m.devices && m.devices[id] == db.devices[id]
            && !AcceptsLegacyKey(m.devices[id], key)
            && (m.devices[id].tokenHash == Some(HashOf(key)) <==> key == token)
  {
    MigratedTables(db);
    assert IsDisabledKey(DISABLED + id);
  }

  /** The replies of the old table, which did not tell users apart, are dropped; scoped ones stay. */
  lemma RepliesAfterMigration(db: Database, replies: map<ReplyKey, StoredReply>)
    ensures db.replies.GlobalReplies? ==> Migrate(db).replies == ScopedReplies(map[])
    ensures db.replies == ScopedReplies(replies) ==> Migrate(db).replies == ScopedReplies(replies)
  {}

  /** Every token of an old table is found under its hash, with the row it had, and no other is. */
  lemma TokensAfterMigration(db: Database, plain: seq<PlainToken>, t: PlainToken)
    requires db.tokens == PlainTokens(plain) && DistinctTokens(plain)
    ensures var tokens := Migrate(db).tokens;
            && tokens.HashedTokens?
            && (t in plain <==> HashOf(t.token) in tokens.hashed && tokens.hashed[HashOf(t.token)] == t.row)
  {
    HashedExactly(plain, t);
  }

  lemma LastTokenIsNew(plain: seq<PlainToken>, t: PlainToken)
    requires DistinctTokens(plain) && plain != [] && t in plain[..|plain| - 1]
    ensures t.token != plain[|plain| - 1].token
  {
    var i :| 0 <= i < |plain| - 1 && plain[i] == t;
  }

  lemma HashLast(plain: seq<PlainToken>, h: TokenHash)
    requires plain != []
    ensures var before, last := HashTokens(plain[..|plain| - 1]), plain[|plain| - 1];
            && (h in HashTokens(plain) <==> h in before || h == HashOf(last.token))
            && (h in HashTokens(plain) ==>
                  HashTokens(plain)[h] == if h == HashOf(last.token) then last.row else before[h])
  {}

  lemma {:induction false} HashedExactly(plain: seq<PlainToken>, t: PlainToken)
    requires DistinctTokens(plain)
    ensures t in plain <==> HashOf(t.token) in HashTokens(plain) && HashTokens(plain)[HashOf(t.token)] == t.row
  {
    if plain != [] {
      var n := |plain| - 1;
      HashedExactly(plain[..n], t);
      HashLast(plain, HashOf(t.token));
      assert plain == plain[..n] + [plain[n]];
      if t in plain[..n] {
        LastTokenIsNew(plain, t);
      }
    }
  }

  // ---------------------------------------------------------------- scopes

  /** requireSyncScope on a device row: the scope it grants, if any. */
  function SyncScope(row: DeviceRow): Option<Scope> {
    var user := Text(row.user);
    var vault := EffectiveVaultScope(user, Text(row.vault));
    if user == "" || vault == "" then None else Some(Scope(user, vault))
  }

  function ScopeOf(op: OldOp): Option<Scope> {
    if HasScope(op) then Some(Scope(Text(op.user), Text(op.vault))) else None
  }

  /** Migration agreement: an operation that had neither user nor vault ends up with exactly the scope
      the server grants the device that pushed it, and with none when it grants none. */
  lemma MigratedOpsKeepTheirDevicesScope(db: Database, opId: string)
    requires opId in db.ops && Text(db.ops[opId].user) == "" && Text(db.ops[opId].vault) == ""
    ensures var db', device := Migrate(db), db.ops[opId].device;
            ScopeOf(db'.ops[opId]) == if device in db'.devices then SyncScope(db'.devices[device]) else None
  {
    var device := db.ops[opId].device;
    var before := MigrateEmailTokenHashes(MigrateCredentials(BackfillDeviceOwners(db)));
    assert Migrate(db).devices == before.devices;
    assert Migrate(db).ops[opId] == BackfilledOp(before, db.ops[opId]);
  }

  /** Nothing but an empty half of its scope is ever filled in, and no vault for an operation that gets no user. */
  lemma OnlyEmptyHalvesAreFilled(db: Database, opId: string)
    requires opId in db.ops
    ensures opId in Migrate(db).ops && forall other | other in Migrate(db).ops :: other in db.ops
    ensures var op, op' := db.ops[opId], Migrate(db).ops[opId];
            && op' == op.(user := op'.user, vault := op'.vault)
            && (Text(op.user) != "" ==> op'.user == op.user)
            && (Text(op.vault) != "" || Text(op'.user) == "" ==> op'.vault == op.vault)
  {
    MigratedTables(db);
  }

  /** The scope of a half-scoped operation: it keeps the half it had. With a user and no vault it takes the
      vault of its device, or the user's legacy vault, and that is the device's own scope iff the device belongs
      to that user. With a vault and no user it takes the device's user, and that is the device's own scope iff
      the vault is the device's. */
  lemma HalfScopedOpsKeepTheirHalf(db: Database, opId: string)
    requires opId in db.ops
    ensures var op, op' := db.ops[opId], Migrate(db).ops[opId];
            var user, vault := DeviceUser(Migrate(db), op.device), DeviceVault(Migrate(db), op.device);
            && (Text(op.user) != "" && Text(op.vault) == "" ==>
                  && ScopeOf(op') == Some(Scope(Text(op.user), EffectiveVaultScope(Text(op.user), vault)))
                  && (op.device in Migrate(db).devices ==>
                        (ScopeOf(op') == SyncScope(Migrate(db).devices[op.device]) <==> Text(user) == Text(op.user))))
            && (Text(op.user) == "" && Text(op.vault) != "" ==>
                  && ScopeOf(op') == (if Text(user) == "" then None else Some(Scope(Text(user), Text(op.vault))))
                  && (op.device in Migrate(db).devices && Text(user) != "" ==>
                        (ScopeOf(op') == SyncScope(Migrate(db).devices[op.device]) <==>
                           Text(op.vault) == EffectiveVaultScope(Text(user), vault))))
  {
    MigratedTables(db);
  }

  lemma {:induction false} ScopedFrom(ops: map<string, OldOp>, rows: seq<OldTombstone>, key: EntityKey)
    ensures key in ScopeTombstones(ops, rows) ==>
              exists i | 0 <= i < |rows| ::
                && rows[i].opId in ops && HasScope(ops[rows[i].opId]) && key == ScopedKey(ops[rows[i].opId], rows[i])
                && ScopeTombstones(ops, rows)[key] == Tombstone(rows[i].opId, rows[i].deletedAt)
  {
    if rows != [] {
      var before := rows[..|rows| - 1];
      ScopedFrom(ops, before, key);
      if key in ScopeTombstones(ops, before) {
        var i :| 0 <= i < |before| && before[i].opId in ops && HasScope(ops[before[i].opId])
                 && key == ScopedKey(ops[before[i].opId], before[i])
                 && ScopeTombstones(ops, before)[key] == Tombstone(before[i].opId, before[i].deletedAt);
        assert rows[i] == before[i];
      } else {
        assert rows[|rows| - 1] == rows[|rows| - 1];
      }
    }
  }

  lemma {:induction false} ScopedKept(ops: map<string, OldOp>, rows: seq<OldTombstone>, i: nat)
    requires DistinctEntities(rows) && i < |rows| && rows[i].opId in ops && HasScope(ops[rows[i].opId])
    ensures var key := ScopedKey(ops[rows[i].opId], rows[i]);
            && key in ScopeTombstones(ops, rows)
            && ScopeTombstones(ops, rows)[key] == Tombstone(rows[i].opId, rows[i].deletedAt)
  {
    var before := rows[..|rows| - 1];
    if i < |rows| - 1 {
      ScopedKept(ops, before, i);
    } else {
      ScopedFrom(ops, before, ScopedKey(ops[rows[i].opId], rows[i]));
    }
  }

  /** Every old tombstone whose operation has a scope survives under that scope, none is lost to
      OR IGNORE, and no tombstone appears that was not there. */
  lemma TombstonesSurvive(db: Database, row: OldTombstone)
    requires db.tombstones.Unscoped? && DistinctEntities(db.tombstones.rows)
    requires row in db.tombstones.rows && row.opId in db.ops
    ensures var db' := Migrate(db);
            HasScope(db'.ops[row.opId]) ==>
              && db'.tombstones.Scoped?
              && ScopedKey(db'.ops[row.opId], row) in db'.tombstones.index
              && db'.tombstones.index[ScopedKey(db'.ops[row.opId], row)] == Tombstone(row.opId, row.deletedAt)
  {
    var before := BackfillOperationScope(MigrateEmailTokenHashes(MigrateCredentials(BackfillDeviceOwners(db))));
    var i :| 0 <= i < |db.tombstones.rows| && db.tombstones.rows[i] == row;
    if HasScope(before.ops[row.opId]) {
      ScopedKept(before.ops, db.tombstones.rows, i);
    }
  }

  lemma NoTombstoneAppears(db: Database, key: EntityKey)
    requires db.tombstones.Unscoped?
    ensures var db' := Migrate(db);
            db'.tombstones.Scoped? && (key in db'.tombstones.index ==>
              exists row | row in db.tombstones.rows ::
                && row.opId in db'.ops && key == ScopedKey(db'.ops[row.opId], row)
                && db'.tombstones.index[key] == Tombstone(row.opId, row.deletedAt))
  {
    var before := BackfillOperationScope(MigrateEmailTokenHashes(MigrateCredentials(BackfillDeviceOwners(db))));
    ScopedFrom(before.ops, db.tombstones.rows, key);
  }

  // ---------------------------------------------------------------- a second migration

  function MigratedDevice(pairings: seq<Pairing>, id: string, row: DeviceRow): DeviceRow {
    var owned := BackfilledDevice(pairings, id, row);
    if !IsDisabledKey(owned.apiKey) then owned.(legacyKey := true) else owned
  }

  /** `m` has the devices and operations that migrating `db` gives. */
  ghost predicate BackfilledFrom(db: Database, m: Database) {
    && m.pairings == db.pairings
    && m.devices == (map id | id in db.devices :: MigratedDevice(db.pairings, id, db.devices[id]))
    && m.ops == (map id | id in db.ops :: BackfilledOp(m, db.ops[id]))
  }

  lemma MigratedTables(db: Database)
    ensures BackfilledFrom(db, Migrate(db))
  {
    var marked := MigrateCredentials(BackfillDeviceOwners(db));
    var before := MigrateEmailTokenHashes(marked);
    var m := Migrate(db);
    assert m.devices == marked.devices == before.devices && before.ops == db.ops;
    assert m.ops == BackfillOperationScope(before).ops;
    MarkedDevices(db);
    forall op: OldOp ensures BackfilledOp(before, op) == BackfilledOp(m, op) {
      BackfillReadsDevices(before, m, op);
    }
  }

  lemma MarkedDevices(db: Database)
    ensures MigrateCredentials(BackfillDeviceOwners(db)).devices
         == map id | id in db.devices :: MigratedDevice(db.pairings, id, db.devices[id])
  {}

  lemma DeviceAgain(pairings: seq<Pairing>, id: string, row: DeviceRow)
    ensures MigratedDevice(pairings, id, MigratedDevice(pairings, id, row)) == MigratedDevice(pairings, id, row)
  {}

  lemma OpAgain(db: Database, op: OldOp)
    ensures BackfilledOp(db, BackfilledOp(db, op)) == BackfilledOp(db, op)
  {}

  lemma BackfillReadsDevices(db: Database, db': Database, op: OldOp)
    requires db.devices == db'.devices
    ensures BackfilledOp(db, op) == BackfilledOp(db', op)
  {}

  lemma BackfillAgain(db: Database, m: Database, again: Database)
    requires BackfilledFrom(db, m) && BackfilledFrom(m, again)
    ensures again.devices == m.devices && again.ops == m.ops
  {
    forall id | id in m.devices ensures again.devices[id] == m.devices[id] {
      DeviceAgain(db.pairings, id, db.devices[id]);
    }
    assert again.devices == m.devices;
    forall id | id in m.ops ensures again.ops[id] == m.ops[id] {
      OpAgain(m, db.ops[id]);
      BackfillReadsDevices(m, again, m.ops[id]);
    }
  }

  /** Migrating again, as every start of the server does, changes nothing. */
  lemma {:induction false} MigrationIsIdempotent(db: Database)
    ensures Migrate(Migrate(db)) == Migrate(db)
  {
    MigratedTables(db);
    MigratedTables(Migrate(db));
    BackfillAgain(db, Migrate(db), Migrate(Migrate(db)));
    LaterTablesAgain(db);
  }

  lemma LaterTablesAgain(db: Database)
    ensures var m, again := Migrate(db), Migrate(Migrate(db));
            again.tombstones == m.tombstones && again.replies == m.replies && again.tokens == m.tokens
  {}

  // ---------------------------------------------------------------- credentials

  /** authenticateDevice's fallback for keys of the old form. */
  predicate AcceptsLegacyKey(row: DeviceRow, key: string) {
    row.apiKey == key && row.legacyKey
  }

  // ---------------------------------------------------------------- enrolment

  function TrimLeft(s: string): string {
    if s != [] && IsSpace(s[0]) then TrimLeft(s[1..]) else s
  }

  function TrimRight(s: string): string {
    if s != [] && IsSpace(s[|s| - 1]) then TrimRight(s[..|s| - 1]) else s
  }

  /** strings.TrimSpace */
  function TrimSpace(s: string): string {
    TrimRight(TrimLeft(s))
  }

  predicate IsReserved(vault: string) {
    LEGACY <= vault
  }

  /** The vault a pairing request gets: it is trimmed before its length is checked. */
  function PairVault(requested: string): Option<string> {
    var vault := TrimSpace(requested);
    if vault == "" || IsReserved(vault) || ByteLength(vault) > MAX_VAULT_ID then None else Some(vault)
  }

  /** The vault a registration gets: its length is checked before it is trimmed. */
  function RegisterVault(requested: string): Option<string> {
    var vault := TrimSpace(requested);
    if ByteLength(requested) > MAX_VAULT_ID || requested == "" || vault == "" || IsReserved(vault) then None
    else Some(vault)
  }

  /** Both handlers insert the device with the disabled placeholder for an API key. */
  function EnrolledDevice(id: string, user: string, vault: string, token: string): DeviceRow {
    DeviceRow(Some(user), Some(vault), DISABLED + id, false, Some(HashOf(token)), None)
  }

  lemma {:induction false} TrimRightLength(s: string)
    ensures ByteLength(TrimRight(s)) <= ByteLength(s)
  {
    if s != [] && IsSpace(s[|s| - 1]) {
      TrimRightLength(s[..|s| - 1]);
      DropLastLength(s);
    }
  }

  lemma {:induction false} DropLastLength(s: string)
    requires s != []
    ensures ByteLength(s[..|s| - 1]) <= ByteLength(s)
  {
    if |s| > 1 {
      DropLastLength(s[1..]);
      assert s[..|s| - 1][1..] == s[1..][..|s[1..]| - 1];
    }
  }

  lemma {:induction false} TrimLeftLength(s: string)
    ensures ByteLength(TrimLeft(s)) <= ByteLength(s)
  {
    if s != [] && IsSpace(s[0]) {
      TrimLeftLength(s[1..]);
    }
  }

  /** Checking before or after trimming only differs for requests that trimming shortens to the limit:
      whatever registration lets through, pairing lets through as the same vault. */
  lemma RegisterImpliesPair(requested: string)
    ensures RegisterVault(requested).Some? ==> PairVault(requested) == RegisterVault(requested)
  {
    TrimLeftLength(requested);
    TrimRightLength(TrimLeft(requested));
  }

  /** A name without space at either end. */
  predicate IsTrimmed(s: string) {
    s != "" ==> !IsSpace(s[0]) && !IsSpace(s[|s| - 1])
  }

  lemma {:induction false} TrimLeftParts(a: string, v: string)
    requires IsBlank(a) && (v != "" ==> !IsSpace(v[0]))
    ensures TrimLeft(a + v) == v
  {
    if a == "" {
      assert a + v == v;
    } else {
      assert (a + v)[1..] == a[1..] + v && (a + v)[0] == a[0];
      TrimLeftParts(a[1..], v);
    }
  }

  lemma {:induction false} TrimRightParts(v: string, b: string)
    requires IsBlank(b) && (v != "" ==> !IsSpace(v[|v| - 1]))
    ensures TrimRight(v + b) == v
  {
    if b == "" {
      assert v + b == v;
    } else {
      var n := |b| - 1;
      assert (v + b)[..|v + b| - 1] == v + b[..n] && (v + b)[|v + b| - 1] == b[n];
      TrimRightParts(v, b[..n]);
    }
  }

  /** Trimming takes the space off both ends and nothing else. */
  lemma TrimSpaceParts(a: string, v: string, b: string)
    requires IsBlank(a) && IsBlank(b) && IsTrimmed(v)
    ensures TrimSpace(a + v + b) == v
  {
    if v == "" {
      assert a + v + b == a + b;
      var all := a + b;
      assert all + "" == all;
      TrimLeftParts(all, "");
    } else {
      assert a + v + b == a + (v + b);
      TrimLeftParts(a, v + b);
      TrimRightParts(v, b);
    }
  }

  lemma {:induction false} SplitLeft(s: string) returns (a: string)
    ensures IsBlank(a) && a + TrimLeft(s) == s && (TrimLeft(s) != "" ==> !IsSpace(TrimLeft(s)[0]))
  {
    a := "";
    if s != "" && IsSpace(s[0]) {
      var rest := SplitLeft(s[1..]);
      a := [s[0]] + rest;
    }
  }

  lemma {:induction false} SplitRight(s: string) returns (b: string)
    ensures IsBlank(b) && TrimRight(s) + b == s && (TrimRight(s) != "" ==> !IsSpace(TrimRight(s)[|TrimRight(s)| - 1]))
  {
    b := "";
    if s != "" && IsSpace(s[|s| - 1]) {
      var n := |s| - 1;
      var rest := SplitRight(s[..n]);
      b := rest + [s[n]];
      assert s == s[..n] + [s[n]];
    }
  }

  /** Every text is a trimmed one between blanks. */
  lemma SplitSpace(s: string) returns (a: string, b: string)
    ensures IsBlank(a) && IsBlank(b) && IsTrimmed(TrimSpace(s)) && s == a + TrimSpace(s) + b
  {
    a := SplitLeft(s);
    b := SplitRight(TrimLeft(s));
    assert TrimSpace(s) != "" ==> TrimLeft(s)[0] == TrimSpace(s)[0];
  }

  /** A text is blank, as the checks of required fields understand it, iff trimming leaves nothing. */
  lemma BlankIsTrimmedAway(s: string)
    ensures IsBlank(s) <==> TrimSpace(s) == ""
  {
    var a, b := SplitSpace(s);
    if IsBlank(s) {
      assert s + "" + "" == s;
      TrimSpaceParts(s, "", "");
    }
  }

  /** Which vault a new device gets: the name it asks for without the space around it, unless that is empty, starts
      with the prefix of legacy scopes, or is longer than 256 bytes; for registration the space counts too. */
  lemma VaultNames(a: string, v: string, b: string)
    requires IsBlank(a) && IsBlank(b) && IsTrimmed(v)
    ensures PairVault(a + v + b) == if v == "" || "legacy:" <= v || ByteLength(v) > 256 then None else Some(v)
    ensures RegisterVault(a + v + b) ==
            if v == "" || "legacy:" <= v || ByteLength(a + v + b) > 256 then None else Some(v)
  {
    TrimSpaceParts(a, v, b);
  }

  lemma PrefixClash(vault: string, user: string)
    requires !IsReserved(vault)
    ensures vault != LEGACY + user
  {
    assert LEGACY <= LEGACY + user;
  }

  /** The scope of a newly enrolled device is the vault it asked for, and never one of the scopes that the
      server makes up for a device without a vault, of the same user or any other. */
  lemma EnrolledScopesAreNotLegacy(requested: string, vault: string, id: string, user: string, token: string,
                                   other: DeviceRow)
    requires user != "" && Text(other.vault) == ""
    requires PairVault(requested) == Some(vault) || RegisterVault(requested) == Some(vault)
    ensures SyncScope(EnrolledDevice(id, user, vault, token)) == Some(Scope(user, vault))
    ensures SyncScope(other) != Some(Scope(user, vault))
    ensures !AcceptsLegacyKey(EnrolledDevice(id, user, vault, token), DISABLED + id)
  {
    PrefixClash(vault, Text(other.user));
  }
}

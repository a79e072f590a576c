/**
 Access: a request is authenticated first and carried out later, in three separate steps. Its device row is read,
 then its user row, and then it is carried out; the database connection is given back in between, so a device may
 be revoked or removed and a user blocked or deleted there. What such a step stops, and what it does not.
 */
module Access {
  import opened Schema
  import opened PushSpec
  import opened BlobStore
  import opened Relay
  import opened ExactlyOnce
  import opened Isolation
  import A = Accounts
  import M = Migration

  // ---------------------------------------------------------------- authentication

  /** Which of the two queries for the device row fail. */
  datatype Fault = Fault(byToken: bool, byKey: bool)

  const NO_FAULT := Fault(false, false)

  /** How far a request has got: its device row has been read, it has been admitted as a device with a scope, it
      was turned away with an HTTP status, or it has been carried out. */
  datatype Grant = Identified(entry: DeviceEntry) | Open(device: Device) | Denied(status: nat) | Spent

  /** SELECT ... FROM server_devices WHERE token_hash=? */
  function ByToken(devices: seq<DeviceEntry>, key: string): Option<DeviceEntry> {
    if devices == [] then None
    else if devices[0].row.tokenHash == Some(HashOf(key)) then Some(devices[0])
    else ByToken(devices[1..], key)
  }

  /** SELECT ... FROM server_devices WHERE api_key=? AND legacy_api_key=1 */
  function ByLegacyKey(devices: seq<DeviceEntry>, key: string): Option<DeviceEntry> {
    if devices == [] then None
    else if M.AcceptsLegacyKey(devices[0].row, key) then Some(devices[0])
    else ByLegacyKey(devices[1..], key)
  }

  /** Any error of the first query, not only a missing row, leads to the second. */
  function FindDevice(devices: seq<DeviceEntry>, key: string, fault: Fault): Option<DeviceEntry> {
    var entry := if fault.byToken then None else ByToken(devices, key);
    if entry.Some? then entry else if fault.byKey then None else ByLegacyKey(devices, key)
  }

  /** authenticateDevice up to the check of revoked_at. */
  function ReadDevice(a: A.Accounts, key: string, fault: Fault): Grant {
    if key == "" then Denied(401)
    else match FindDevice(a.devices, key, fault)
      case None => Denied(401)
      case Some(entry) => if Text(entry.row.revokedAt) != "" then Denied(401) else Identified(entry)
  }

  /** The rest of it, and of requireSyncScope: the user row is read, the device row is not read again. */
  function ReadUser(a: A.Accounts, entry: DeviceEntry, fails: bool): Grant {
    var user := Text(entry.row.user);
    if fails || (user != "" && user !in a.users) then Denied(500)
    else if user != "" && a.users[user].blocked then Denied(403)
    else match M.SyncScope(entry.row)
      case None => Denied(403)
      case Some(scope) => Open(Device(entry.id, scope))
  }

  /** The key is the token of a device, or its key of the old form. */
  predicate Opens(row: DeviceRow, key: string) {
    row.tokenHash == Some(HashOf(key)) || (row.apiKey == key && row.legacyKey)
  }

  /** The key belongs to a device that is enrolled and not revoked. */
  predicate HoldsKey(a: A.Accounts, entry: DeviceEntry, key: string) {
    && entry in a.devices && Text(entry.row.revokedAt) == ""
    && key != "" && Opens(entry.row, key)
  }

  /** The user exists and is not blocked. */
  predicate InGoodStanding(a: A.Accounts, user: string) {
    user in a.users && !a.users[user].blocked
  }

  lemma {:induction false} ByTokenFound(devices: seq<DeviceEntry>, key: string)
    ensures ByToken(devices, key).Some? ==>
              ByToken(devices, key).value in devices && ByToken(devices, key).value.row.tokenHash == Some(HashOf(key))
  {
    if devices != [] {
      ByTokenFound(devices[1..], key);
    }
  }

  lemma {:induction false} ByLegacyKeyFound(devices: seq<DeviceEntry>, key: string)
    ensures ByLegacyKey(devices, key).Some? ==>
              ByLegacyKey(devices, key).value in devices && M.AcceptsLegacyKey(ByLegacyKey(devices, key).value.row, key)
  {
    if devices != [] {
      ByLegacyKeyFound(devices[1..], key);
    }
  }

  /** Only a key of an unrevoked device is identified, and only a user in good standing is admitted, as that device
      and under the scope of its row. */
  lemma OnlyTheEntitledGetIn(a: A.Accounts, key: string, fault: Fault, later: A.Accounts, fails: bool)
    requires ReadDevice(a, key, fault).Identified?
    ensures var entry := ReadDevice(a, key, fault).entry;
            var grant := ReadUser(later, entry, fails);
            && HoldsKey(a, entry, key)
            && (grant.Open? ==>
                  && InGoodStanding(later, grant.device.scope.user)
                  && grant.device.id == entry.id && M.SyncScope(entry.row) == Some(grant.device.scope))
  {
    ByTokenFound(a.devices, key);
    ByLegacyKeyFound(a.devices, key);
  }

  lemma {:induction false} ByTokenFinds(devices: seq<DeviceEntry>, key: string, entry: DeviceEntry)
    requires entry in devices && entry.row.tokenHash == Some(HashOf(key))
    ensures ByToken(devices, key).Some?
  {
    if devices[0].row.tokenHash != Some(HashOf(key)) {
      ByTokenFinds(devices[1..], key, entry);
    }
  }

  lemma {:induction false} ByLegacyKeyFinds(devices: seq<DeviceEntry>, key: string, entry: DeviceEntry)
    requires entry in devices && entry.row.apiKey == key && entry.row.legacyKey
    ensures ByLegacyKey(devices, key).Some?
  {
    if !M.AcceptsLegacyKey(devices[0].row, key) {
      ByLegacyKeyFinds(devices[1..], key, entry);
    }
  }

  /** Whoever is entitled gets in: when no query fails, a key that opens one row only, by its token or as a key of the
      old form, identifies that device if it is not revoked. */
  lemma HolderIsIdentified(a: A.Accounts, key: string, entry: DeviceEntry)
    requires key != "" && entry in a.devices && Opens(entry.row, key)
    requires forall other | other in a.devices && Opens(other.row, key) :: other == entry
    ensures ReadDevice(a, key, NO_FAULT) == if Text(entry.row.revokedAt) == "" then Identified(entry) else Denied(401)
  {
    ByTokenFound(a.devices, key);
    ByLegacyKeyFound(a.devices, key);
    if entry.row.tokenHash == Some(HashOf(key)) {
      ByTokenFinds(a.devices, key, entry);
    } else {
      ByLegacyKeyFinds(a.devices, key, entry);
    }
  }

  /** A key that opens nothing is turned away. */
  lemma StrangerIsDenied(a: A.Accounts, key: string, fault: Fault)
    requires key == "" || forall entry | entry in a.devices :: !Opens(entry.row, key)
    ensures ReadDevice(a, key, fault) == Denied(401)
  {
    ByTokenFound(a.devices, key);
    ByLegacyKeyFound(a.devices, key);
  }

  /** The vault of a device's scope: its own, or one that stands for all its user's devices without a vault. */
  function VaultOf(user: string, row: DeviceRow): string {
    if row.vault.Some? && row.vault.value != "" then row.vault.value else "legacy:" + user
  }

  /** What an identified request is answered, by its user's row. */
  lemma AdmissionIsExact(a: A.Accounts, entry: DeviceEntry, fails: bool)
    ensures var grant, user := ReadUser(a, entry, fails), Text(entry.row.user);
            && (grant.Open? <==> !fails && user != "" && user in a.users && !a.users[user].blocked)
            && (grant.Open? ==> grant == Open(Device(entry.id, Scope(user, VaultOf(user, entry.row)))))
            && (grant == Denied(500) <==> fails || (user != "" && user !in a.users))
            && (grant == Denied(403) <==> !fails && (user == "" || (user in a.users && a.users[user].blocked)))
  {
    assert entry.row.vault.Some? ==> Text(entry.row.vault) == entry.row.vault.value;
  }

  /** A devices table with exactly the rows of a migrated one. */
  ghost predicate HoldsTable(devices: seq<DeviceEntry>, table: map<string, DeviceRow>) {
    && (forall entry | entry in devices :: entry.id in table && entry.row == table[entry.id])
    && (forall id | id in table :: DeviceEntry(id, table[id]) in devices)
  }

  /** After a migration every old device still gets in with its key, under the vault it has or its user's legacy one:
      if the key is not empty, not a disabled placeholder and no other device's, and the device is not revoked and its
      user there and not blocked. */
  lemma MigratedDeviceGetsIn(db: M.Database, a: A.Accounts, id: string, key: string)
    requires id in db.devices && db.devices[id].apiKey == key != "" && !M.IsDisabledKey(key)
    requires forall other | other in db.devices && other != id ::
               db.devices[other].apiKey != key && db.devices[other].tokenHash != Some(HashOf(key))
    requires Text(db.devices[id].revokedAt) == "" && HoldsTable(a.devices, M.Migrate(db).devices)
    requires forall i, j | 0 <= i < j < |db.pairings| :: db.pairings[i] != db.pairings[j]
    requires id in M.Migrate(db).devices
    requires var user := Text(M.Migrate(db).devices[id].user); user != "" && user in a.users && !a.users[user].blocked
    ensures var row := M.Migrate(db).devices[id];
            var user, entry := Text(row.user), DeviceEntry(id, row);
            && ReadDevice(a, key, NO_FAULT) == Identified(entry)
            && ReadUser(a, entry, false) == Open(Device(id, Scope(user, VaultOf(user, row))))
            && (Text(db.devices[id].user) != "" ==> user == Text(db.devices[id].user))
            && (Text(db.devices[id].user) == "" ==> M.IsOnlyOwner(db.pairings, id, user))
  {
    var row := M.Migrate(db).devices[id];
    var entry := DeviceEntry(id, row);
    M.MigratedDeviceIsExact(db, id, "");
    forall other | other in a.devices && Opens(other.row, key) ensures other == entry {
      M.MigratedDeviceIsExact(db, other.id, "");
    }
    HolderIsIdentified(a, key, entry);
    AdmissionIsExact(a, entry, false);
  }

  // ---------------------------------------------------------------- changes to devices and users

  function Revoked(devices: seq<DeviceEntry>, id: string, at: Timestamp): (r: seq<DeviceEntry>)
    ensures |r| == |devices|
    ensures forall i | 0 <= i < |devices| ::
              r[i] == if devices[i].id == id then devices[i].(row := devices[i].row.(revokedAt := Some(at)))
                      else devices[i]
  {
    seq(|devices|, i requires 0 <= i < |devices| =>
      if devices[i].id == id then devices[i].(row := devices[i].row.(revokedAt := Some(at))) else devices[i])
  }

  function DeviceSessionsWithout(sessions: map<TokenHash, A.SessionRow>, id: string): map<TokenHash, A.SessionRow> {
    map h | h in sessions && !(sessions[h].scope == "device" && sessions[h].subject == id) :: sessions[h]
  }

  /** revokeDevice */
  function RevokeDevice(a: A.Accounts, id: string, at: Timestamp): A.Accounts {
    a.(devices := Revoked(a.devices, id, at), sessions := DeviceSessionsWithout(a.sessions, id))
  }

  /** An administrator's removal of a device. */
  function RemoveDevice(a: A.Accounts, id: string): A.Accounts {
    a.(devices := Keep(a.devices, (d: DeviceEntry) => d.id != id),
       pairings := Keep(a.pairings, (p: Pairing) => p.device != id))
  }

  predicate IsEnrolled(devices: seq<DeviceEntry>, id: string) {
    exists entry | entry in devices :: entry.id == id
  }

  /** The transaction that ends pairing and registration. The user was looked up before it began. */
  function EnrollDevice(a: A.Accounts, id: string, user: string, vault: string, token: string): Option<A.Accounts> {
    if IsEnrolled(a.devices, id) then None
    else Some(a.(devices := a.devices + [DeviceEntry(id, M.EnrolledDevice(id, user, vault, token))],
                 pairings := if Pairing(user, id) in a.pairings then a.pairings else a.pairings + [Pairing(user, id)]))
  }

  /** What revoking a device changes: its row, which gets the time, and the sessions of its own. */
  lemma RevocationIsExact(a: A.Accounts, id: string, at: Timestamp, entry: DeviceEntry, h: TokenHash)
    ensures var a' := RevokeDevice(a, id, at);
            && (entry.id != id ==> (entry in a'.devices <==> entry in a.devices))
            && (entry.id == id && entry in a.devices ==>
                  entry.(row := entry.row.(revokedAt := Some(at))) in a'.devices)
            && (entry.id == id && entry in a'.devices ==> entry.row.revokedAt == Some(at))
            && (h in a'.sessions <==>
                  h in a.sessions && !(a.sessions[h].scope == "device" && a.sessions[h].subject == id))
            && (h in a'.sessions ==> a'.sessions[h] == a.sessions[h])
            && a' == a.(devices := a'.devices, sessions := a'.sessions) && |a'.devices| == |a.devices|
  {
    var after := Revoked(a.devices, id, at);
    if entry in a.devices {
      var i :| 0 <= i < |a.devices| && a.devices[i] == entry;
      assert after[i] in after;
    }
  }

  /** Removing a device takes its row and its pairings and nothing else. */
  lemma RemovalIsExact(a: A.Accounts, id: string, entry: DeviceEntry, pairing: Pairing)
    ensures var a' := RemoveDevice(a, id);
            && (entry in a'.devices <==> entry in a.devices && entry.id != id)
            && (pairing in a'.pairings <==> pairing in a.pairings && pairing.device != id)
            && a' == a.(devices := a'.devices, pairings := a'.pairings)
  {
    KeepMember(a.devices, (d: DeviceEntry) => d.id != id, entry);
    KeepMember(a.pairings, (p: Pairing) => p.device != id, pairing);
  }

  /** An enrolment adds a device that gets in with its token, under the vault it was enrolled for; it fails iff the id
      is taken. */
  lemma EnrolledDeviceGetsIn(a: A.Accounts, id: string, user: string, vault: string, token: string, entry: DeviceEntry)
    requires user != "" && vault != "" && token != "" && forall d | d in a.devices :: !Opens(d.row, token)
    ensures var enrolled := EnrollDevice(a, id, user, vault, token);
            && (enrolled == None <==> exists d | d in a.devices :: d.id == id)
            && (enrolled.Some? ==>
                  var a' := enrolled.value;
                  var grant := ReadDevice(a', token, NO_FAULT);
                  && Pairing(user, id) in a'.pairings && a'.users == a.users && a'.sessions == a.sessions
                  && (entry.id != id ==> (entry in a'.devices <==> entry in a.devices))
                  && grant.Identified? && grant.entry.id == id
                  && (user in a.users && !a.users[user].blocked ==>
                        ReadUser(a', grant.entry, false) == Open(Device(id, Scope(user, vault)))))
  {
    if !IsEnrolled(a.devices, id) {
      var a' := EnrollDevice(a, id, user, vault, token).value;
      var added := DeviceEntry(id, M.EnrolledDevice(id, user, vault, token));
      assert a'.devices == a.devices + [added] && added in a'.devices;
      HolderIsIdentified(a', token, added);
      AdmissionIsExact(a', added, false);
    }
  }

  // ---------------------------------------------------------------- the whole site

  /** The relay with its accounts, and how far each request has got. */
  datatype Site = Site(system: System, accounts: A.Accounts, grants: seq<Grant>)

  /** What a request does once it is authenticated. */
  datatype Work =
    | Push(request: PushRequest, at: Timestamp, fails: bool)
    | Upload(content: Content, at: Timestamp, fault: UploadFault)
    | Download(sha: Sha, at: Timestamp, fails: bool)
    | Pull(since: int, pageLimit: int)               // reads only

  datatype SiteEvent =
    | AddUser(user: string, row: A.UserRow)
    | Enroll(id: string, user: string, vault: string, token: string, fails: bool)
    | Arrive(key: string, fault: Fault)              // a request's device row is read; its number is its place
    | Admit(request: nat, fails: bool)               // its user row is read
    | Perform(request: nat, work: Work)              // it is carried out
    | Revoke(id: string, at: Timestamp, fails: bool)
    | Remove(id: string, fails: bool)
    | Block(user: string, blocked: bool, fails: bool)
    | Delete(user: string, fails: bool)
    | Expire(cutoff: Timestamp, fails: bool)

  /** The transaction of the relay that some work is. */
  function Transaction(d: Device, work: Work): Event
    requires !work.Pull?
  {
    match work
    case Push(request, at, fails) => PushEvent(d, request, at, fails)
    case Upload(content, at, fault) => UploadEvent(d.scope, content, at, fault)
    case Download(sha, at, fails) => DownloadEvent(d.scope, sha, at, fails)
  }

  predicate IsOpen(s: Site, request: nat) {
    request < |s.grants| && s.grants[request].Open?
  }

  /** The transactions of the relay that an event causes. */
  function Served(s: Site, e: SiteEvent): Option<Event> {
    match e
    case Perform(request, work) =>
      if IsOpen(s, request) && !work.Pull? then Some(Transaction(s.grants[request].device, work)) else None
    case Delete(user, fails) => Some(DeleteUserEvent(user, fails))
    case Expire(cutoff, fails) => Some(ExpireRepliesEvent(cutoff, fails))
    case _ => None
  }

  function AccountsAfter(a: A.Accounts, e: SiteEvent): A.Accounts {
    match e
    case AddUser(user, row) => if user in a.users then a else a.(users := a.users[user := row])
    case Enroll(id, user, vault, token, fails) =>
      var enrolled := EnrollDevice(a, id, user, vault, token);
      if fails || enrolled.None? then a else enrolled.value
    case Revoke(id, at, fails) => if fails then a else RevokeDevice(a, id, at)
    case Remove(id, fails) => if fails then a else RemoveDevice(a, id)
    case Block(user, blocked, fails) => if fails then a else A.SetBlocked(a, user, blocked)
    case Delete(user, fails) => if fails then a else A.WithoutUser(a, user)
    case _ => a
  }

  predicate IsIdentified(s: Site, request: nat) {
    request < |s.grants| && s.grants[request].Identified?
  }

  function GrantsAfter(s: Site, e: SiteEvent): seq<Grant> {
    match e
    case Arrive(key, fault) => s.grants + [ReadDevice(s.accounts, key, fault)]
    case Admit(request, fails) =>
      if IsIdentified(s, request) then s.grants[request := ReadUser(s.accounts, s.grants[request].entry, fails)]
      else s.grants
    case Perform(request, _) => if IsOpen(s, request) then s.grants[request := Spent] else s.grants
    case _ => s.grants
  }

  function SiteNext(limits: Limits, s: Site, e: SiteEvent): Site {
    Site(match Served(s, e) case None => s.system case Some(event) => Next(limits, s.system, event),
         AccountsAfter(s.accounts, e), GrantsAfter(s, e))
  }

  /** Recursive on the last event, so that the state before each event is the run of a prefix. */
  function SiteRun(limits: Limits, s: Site, es: seq<SiteEvent>): Site {
    if es == [] then s else SiteNext(limits, SiteRun(limits, s, es[..|es| - 1]), es[|es| - 1])
  }

  /** A step one of whose statements fails. */
  predicate Fails(e: SiteEvent) {
    match e
    case Enroll(_, _, _, _, fails) => fails
    case Revoke(_, _, fails) => fails
    case Remove(_, fails) => fails
    case Block(_, _, fails) => fails
    case Delete(_, fails) => fails
    case Expire(_, fails) => fails
    case _ => false
  }

  /** A failing step has no effect, and one that adds a user never replaces one. */
  lemma FailedStepsChangeNothing(limits: Limits, s: Site, e: SiteEvent, u: string)
    ensures Fails(e) ==> SiteNext(limits, s, e) == s
    ensures e.AddUser? ==>
              var a, a' := s.accounts, SiteNext(limits, s, e).accounts;
              && (u in a'.users <==> u in a.users || u == e.user)
              && (u in a'.users ==> a'.users[u] == if u in a.users then a.users[u] else e.row)
              && a' == a.(users := a'.users)
  {}

  /** A request that is carried out acts for the device and in the scope it was granted, once, and changes no account;
      one that is not admitted does nothing. */
  lemma RequestsActForTheirDevice(limits: Limits, s: Site, g: nat, work: Work)
    ensures var s' := SiteNext(limits, s, Perform(g, work));
            if IsOpen(s, g) then
              var d := s.grants[g].device;
              && s'.accounts == s.accounts && s'.grants == s.grants[g := Spent]
              && s'.system == match work
                              case Push(request, at, fails) => Next(limits, s.system, PushEvent(d, request, at, fails))
                              case Upload(content, at, fault) =>
                                Next(limits, s.system, UploadEvent(d.scope, content, at, fault))
                              case Download(sha, at, fails) =>
                                Next(limits, s.system, DownloadEvent(d.scope, sha, at, fails))
                              case Pull(_, _) => s.system
            else s' == s
  {}

  // ---------------------------------------------------------------- the relay inside

  /** The transactions of a run, in order. */
  function Transactions(limits: Limits, s: Site, es: seq<SiteEvent>): seq<Event> {
    if es == [] then []
    else
      var before := Transactions(limits, s, es[..|es| - 1]);
      match Served(SiteRun(limits, s, es[..|es| - 1]), es[|es| - 1])
      case None => before
      case Some(event) => before + [event]
  }

  /** The relay inside a site runs through exactly the transactions of its authenticated requests, so what
      holds of every run of the relay holds of every run of a site. */
  lemma {:induction false} SiteRefinesRelay(limits: Limits, s: Site, es: seq<SiteEvent>)
    ensures SiteRun(limits, s, es).system == Run(limits, s.system, Transactions(limits, s, es))
  {
    if es != [] {
      var before := es[..|es| - 1];
      SiteRefinesRelay(limits, s, before);
      match Served(SiteRun(limits, s, before), es[|es| - 1])
      case None =>
      case Some(event) => RunLast(limits, s.system, Transactions(limits, s, before), event);
    }
  }

  // ---------------------------------------------------------------- every row was granted

  /** Event `i` read the device row `entry` for request number `g`. */
  ghost predicate IdentifiedAt(limits: Limits, s: Site, es: seq<SiteEvent>, i: nat, g: nat, entry: DeviceEntry) {
    && i < |es| && es[i].Arrive?
    && |SiteRun(limits, s, es[..i]).grants| == g
    && ReadDevice(SiteRun(limits, s, es[..i]).accounts, es[i].key, es[i].fault) == Identified(entry)
  }

  /** Event `i` read the user row for request number `g` and admitted it as `d`. */
  ghost predicate AdmittedAt(limits: Limits, s: Site, es: seq<SiteEvent>, i: nat, g: nat, entry: DeviceEntry,
                             d: Device) {
    && i < |es| && es[i].Admit? && es[i].request == g
    && ReadUser(SiteRun(limits, s, es[..i]).accounts, entry, es[i].fails) == Open(d)
  }

  lemma PrefixMoments(limits: Limits, s: Site, es: seq<SiteEvent>, n: nat, i: nat, g: nat, entry: DeviceEntry,
                      d: Device)
    requires n <= |es|
    ensures IdentifiedAt(limits, s, es[..n], i, g, entry) ==> IdentifiedAt(limits, s, es, i, g, entry)
    ensures AdmittedAt(limits, s, es[..n], i, g, entry, d) ==> AdmittedAt(limits, s, es, i, g, entry, d)
  {
    if i < n {
      assert es[..n][..i] == es[..i];
    }
  }

  lemma GrantsStep(s: Site, e: SiteEvent, g: nat)
    requires g < |s.grants|
    ensures g < |GrantsAfter(s, e)|
    ensures GrantsAfter(s, e)[g] ==
            if e.Admit? && e.request == g && s.grants[g].Identified? then
              ReadUser(s.accounts, s.grants[g].entry, e.fails)
            else if e.Perform? && e.request == g && s.grants[g].Open? then Spent
            else s.grants[g]
  {}

  /** Where an identified request comes from. */
  lemma {:induction false} OriginOfIdentified(limits: Limits, s: Site, es: seq<SiteEvent>, g: nat) returns (i: nat)
    requires |s.grants| <= g && IsIdentified(SiteRun(limits, s, es), g)
    ensures IdentifiedAt(limits, s, es, i, g, SiteRun(limits, s, es).grants[g].entry)
  {
    var n := |es| - 1;
    var before, entry := SiteRun(limits, s, es[..n]), SiteRun(limits, s, es).grants[g].entry;
    if g < |before.grants| {
      GrantsStep(before, es[n], g);
      i := OriginOfIdentified(limits, s, es[..n], g);
      PrefixMoments(limits, s, es, n, i, g, entry, Device("", Scope("", "")));
    } else {
      i := n;
    }
  }

  /** Where an open request comes from: two moments, the first for the device row and the second for the user row. */
  lemma {:induction false} OriginOfOpen(limits: Limits, s: Site, es: seq<SiteEvent>, g: nat)
    returns (i: nat, i': nat, entry: DeviceEntry)
    requires |s.grants| <= g && IsOpen(SiteRun(limits, s, es), g)
    ensures i < i' && IdentifiedAt(limits, s, es, i, g, entry)
    ensures AdmittedAt(limits, s, es, i', g, entry, SiteRun(limits, s, es).grants[g].device)
  {
    var n := |es| - 1;
    var before, d := SiteRun(limits, s, es[..n]), SiteRun(limits, s, es).grants[g].device;
    GrantsStep(before, es[n], g);
    if before.grants[g].Open? {
      i, i', entry := OriginOfOpen(limits, s, es[..n], g);
      PrefixMoments(limits, s, es, n, i', g, entry, d);
    } else {
      entry, i' := before.grants[g].entry, n;
      i := OriginOfIdentified(limits, s, es[..n], g);
    }
    PrefixMoments(limits, s, es, n, i, g, entry, d);
  }

  /** A row records a push that event `j` carried out. Event `i` had found its device enrolled and not revoked, with
      the row `entry` that gives the scope, and event `i'` its user not blocked. */
  ghost predicate GrantedRow(limits: Limits, s: Site, es: seq<SiteEvent>, row: OpRow, entry: DeviceEntry,
                             i: nat, i': nat, j: nat)
  {
    && i < i' < j < |es| && es[i].Arrive? && es[i'].Admit? && es[j].Perform? && es[j].work.Push?
    && es[j].request == es[i'].request == |SiteRun(limits, s, es[..i]).grants|
    && HoldsKey(SiteRun(limits, s, es[..i]).accounts, entry, es[i].key)
    && entry.id == row.device && M.SyncScope(entry.row) == Some(row.scope)
    && InGoodStanding(SiteRun(limits, s, es[..i']).accounts, row.scope.user)
    && RecordsPush(row, Transaction(Device(row.device, row.scope), es[j].work))
  }

  lemma GrantedRowStays(limits: Limits, s: Site, es: seq<SiteEvent>, n: nat, row: OpRow, entry: DeviceEntry,
                        i: nat, i': nat, j: nat)
    requires n <= |es| && GrantedRow(limits, s, es[..n], row, entry, i, i', j)
    ensures GrantedRow(limits, s, es, row, entry, i, i', j)
  {
    assert es[..n][..i] == es[..i] && es[..n][..i'] == es[..i'];
  }

  lemma RowIsNew(limits: Limits, s: Site, e: SiteEvent, row: OpRow) returns (event: Event)
    requires row in SiteNext(limits, s, e).system.db.ops && row !in s.system.db.ops
    ensures e.Perform? && e.work.Push? && IsOpen(s, e.request) && RecordsPush(row, event)
    ensures event == Transaction(s.grants[e.request].device, e.work)
  {
    event := Served(s, e).value;
    RowAfterStep(limits, s.system, event, row);
  }

  /** Every logged row carries the scope of a device that was enrolled and not revoked at one moment, of a user who
      was there and not blocked at a later moment, both before the push that logged it. */
  lemma {:induction false} EveryRowWasGranted(limits: Limits, s: Site, es: seq<SiteEvent>, row: OpRow)
    requires s.grants == [] && row in SiteRun(limits, s, es).system.db.ops
    ensures row in s.system.db.ops || exists entry, i, i', j :: GrantedRow(limits, s, es, row, entry, i, i', j)
  {
    if es != [] {
      var n := |es| - 1;
      var before, e := SiteRun(limits, s, es[..n]), es[n];
      if row in before.system.db.ops {
        EveryRowWasGranted(limits, s, es[..n], row);
        if row !in s.system.db.ops {
          var entry, i, i', j :| GrantedRow(limits, s, es[..n], row, entry, i, i', j);
          GrantedRowStays(limits, s, es, n, row, entry, i, i', j);
        }
      } else {
        var event := RowIsNew(limits, before, e, row);
        var i, i', entry := OriginOfOpen(limits, s, es[..n], e.request);
        NewRowWasGranted(limits, s, es, row, entry, i, i');
      }
    }
  }

  lemma NewRowWasGranted(limits: Limits, s: Site, es: seq<SiteEvent>, row: OpRow, entry: DeviceEntry, i: nat, i': nat)
    requires es != [] && es[|es| - 1].Perform? && es[|es| - 1].work.Push?
    requires i < i' && IdentifiedAt(limits, s, es[..|es| - 1], i, es[|es| - 1].request, entry)
    requires AdmittedAt(limits, s, es[..|es| - 1], i', es[|es| - 1].request, entry, Device(row.device, row.scope))
    requires RecordsPush(row, Transaction(Device(row.device, row.scope), es[|es| - 1].work))
    ensures GrantedRow(limits, s, es, row, entry, i, i', |es| - 1)
  {
    var n := |es| - 1;
    assert es[..n][..i] == es[..i] && es[..n][..i'] == es[..i'];
    OnlyTheEntitledGetIn(SiteRun(limits, s, es[..i]).accounts, es[i].key, es[i].fault,
                         SiteRun(limits, s, es[..i']).accounts, es[i'].fails);
  }

  // ---------------------------------------------------------------- what revoking and blocking stop

  /** Whom a revocation or a block is to keep out. */
  datatype Barrier = OfDevice(id: string) | OfUser(user: string)

  predicate KeepsOut(b: Barrier, d: Device) {
    match b
    case OfDevice(id) => d.id == id
    case OfUser(user) => d.scope.user == user
  }

  predicate Raises(b: Barrier, e: SiteEvent) {
    match b
    case OfDevice(id) => (e.Revoke? && e.id == id && e.at != "" && !e.fails) || (e.Remove? && e.id == id && !e.fails)
    case OfUser(user) =>
      (e.Block? && e.user == user && e.blocked && !e.fails) || (e.Delete? && e.user == user && !e.fails)
  }

  /** Only a new enrolment under the same generated id, unblocking, or a new user under the same generated id. */
  predicate Lifts(b: Barrier, e: SiteEvent) {
    match b
    case OfDevice(id) => e.Enroll? && e.id == id
    case OfUser(user) => (e.Block? && e.user == user && !e.blocked && !e.fails) || (e.AddUser? && e.user == user)
  }

  ghost predicate Stands(b: Barrier, a: A.Accounts) {
    match b
    case OfDevice(id) => forall entry | entry in a.devices && entry.id == id :: Text(entry.row.revokedAt) != ""
    case OfUser(user) => user in a.users ==> a.users[user].blocked
  }

  lemma RevokedMember(devices: seq<DeviceEntry>, id: string, at: Timestamp, entry: DeviceEntry)
    requires entry in Revoked(devices, id, at)
    ensures if entry.id == id then entry.row.revokedAt == Some(at) else entry in devices
  {}

  lemma RaisedStands(limits: Limits, s: Site, e: SiteEvent, b: Barrier)
    requires Raises(b, e)
    ensures Stands(b, SiteNext(limits, s, e).accounts)
  {
    if b.OfDevice? {
      var after := AccountsAfter(s.accounts, e);
      forall entry | entry in after.devices && entry.id == b.id ensures Text(entry.row.revokedAt) != "" {
        if e.Revoke? {
          RevokedMember(s.accounts.devices, e.id, e.at, entry);
        } else {
          KeepMember(s.accounts.devices, (d: DeviceEntry) => d.id != e.id, entry);
        }
      }
    }
  }

  lemma DevicesStayOut(a: A.Accounts, e: SiteEvent, id: string, entry: DeviceEntry)
    requires Stands(OfDevice(id), a) && !Lifts(OfDevice(id), e) && (e.Revoke? ==> e.at != "")
    requires entry in AccountsAfter(a, e).devices && entry.id == id
    ensures Text(entry.row.revokedAt) != ""
  {
    match e
    case Revoke(other, at, fails) =>
      if !fails {
        RevokedMember(a.devices, other, at, entry);
      }
    case Remove(other, fails) => KeepMember(a.devices, (d: DeviceEntry) => d.id != other, entry);
    case Delete(user, fails) => KeepMember(a.devices, (d: DeviceEntry) => d.row.user != Some(user), entry);
    case _ =>
  }

  lemma StandsUntilLifted(limits: Limits, s: Site, e: SiteEvent, b: Barrier)
    requires Stands(b, s.accounts) && !Lifts(b, e) && (e.Revoke? ==> e.at != "")
    ensures Stands(b, SiteNext(limits, s, e).accounts)
  {
    if b.OfDevice? {
      forall entry | entry in AccountsAfter(s.accounts, e).devices && entry.id == b.id
        ensures Text(entry.row.revokedAt) != "" {
        DevicesStayOut(s.accounts, e, b.id, entry);
      }
    }
  }

  /** A request that has passed the check which the barrier fails: its device row, or its user row, has been read. */
  predicate IsPast(b: Barrier, s: Site, g: nat) {
    g < |s.grants| &&
    match s.grants[g]
    case Identified(entry) => b.OfDevice? && entry.id == b.id
    case Open(d) => KeepsOut(b, d)
    case _ => false
  }

  /** A request of those kept out that can be carried out. */
  predicate Holds(b: Barrier, s: Site, g: nat) {
    IsOpen(s, g) && KeepsOut(b, s.grants[g].device)
  }

  predicate UsedBetween(es: seq<SiteEvent>, from: nat, g: nat) {
    exists i | from <= i < |es| :: es[i].Perform? && es[i].request == g
  }

  /** The clock gives every revocation a time, and nothing lifts the barrier from event `from` on. */
  predicate NotLifted(b: Barrier, es: seq<SiteEvent>, from: nat) {
    forall i | from <= i < |es| :: !Lifts(b, es[i]) && (es[i].Revoke? ==> es[i].at != "")
  }

  /** While the barrier stands, no request gets past it. */
  lemma NoneGetsPast(limits: Limits, s: Site, e: SiteEvent, b: Barrier, g: nat)
    requires Stands(b, s.accounts) && IsPast(b, SiteNext(limits, s, e), g)
    ensures IsPast(b, s, g)
  {
    if g < |s.grants| {
      GrantsStep(s, e, g);
    } else {
      ByTokenFound(s.accounts.devices, e.key);
      ByLegacyKeyFound(s.accounts.devices, e.key);
    }
  }

  lemma {:induction false} PastSinceRaised(limits: Limits, s: Site, es: seq<SiteEvent>, k: nat, b: Barrier, g: nat)
    requires k < |es| && Raises(b, es[k]) && NotLifted(b, es, k + 1)
    ensures var now := SiteRun(limits, s, es);
            && Stands(b, now.accounts)
            && (IsPast(b, now, g) ==> IsPast(b, SiteRun(limits, s, es[..k]), g))
  {
    var n := |es| - 1;
    var before := SiteRun(limits, s, es[..n]);
    if n == k {
      RaisedStands(limits, before, es[k], b);
      RaisingGrantsNothing(limits, before, es[k], b);
    } else {
      assert es[..n][..k] == es[..k];
      PastSinceRaised(limits, s, es[..n], k, b, g);
      assert !Lifts(b, es[n]);
      StandsUntilLifted(limits, before, es[n], b);
      if IsPast(b, SiteRun(limits, s, es), g) {
        NoneGetsPast(limits, before, es[n], b, g);
      }
    }
  }

  lemma RaisingGrantsNothing(limits: Limits, s: Site, e: SiteEvent, b: Barrier)
    requires Raises(b, e)
    ensures SiteNext(limits, s, e).grants == s.grants
  {}

  /** The run without event `k`. */
  function Skipping(es: seq<SiteEvent>, k: nat): seq<SiteEvent>
    requires k < |es|
  {
    es[..k] + es[k + 1..]
  }

  /** Two sites that agree on what request `g` can still read. */
  ghost predicate SameFor(b: Barrier, s: Site, t: Site, g: nat) {
    && |s.grants| == |t.grants| && g < |s.grants| && s.grants[g] == t.grants[g]
    && (b.OfDevice? ==> s.accounts.users == t.accounts.users)
    && (b.OfUser? ==> !s.grants[g].Identified?)
  }

  lemma UsersAfter(a: A.Accounts, a': A.Accounts, e: SiteEvent)
    requires a.users == a'.users
    ensures AccountsAfter(a, e).users == AccountsAfter(a', e).users
  {}

  lemma SameStepFor(limits: Limits, s: Site, t: Site, e: SiteEvent, b: Barrier, g: nat)
    requires SameFor(b, s, t, g)
    ensures SameFor(b, SiteNext(limits, s, e), SiteNext(limits, t, e), g)
  {
    GrantsStep(s, e, g);
    GrantsStep(t, e, g);
    if b.OfDevice? {
      UsersAfter(s.accounts, t.accounts, e);
    }
  }

  lemma SkippingOne(limits: Limits, s: Site, e: SiteEvent, b: Barrier, g: nat)
    requires Raises(b, e) && IsPast(b, s, g)
    ensures SameFor(b, SiteNext(limits, s, e), s, g)
  {}

  lemma SkippingLast(es: seq<SiteEvent>, k: nat)
    requires k < |es| - 1
    ensures Skipping(es, k) == Skipping(es[..|es| - 1], k) + [es[|es| - 1]]
  {}

  lemma SiteRunLast(limits: Limits, s: Site, es: seq<SiteEvent>, e: SiteEvent)
    ensures SiteRun(limits, s, es + [e]) == SiteNext(limits, SiteRun(limits, s, es), e)
  {
    assert (es + [e])[..|es + [e]| - 1] == es;
  }

  lemma PastStep(limits: Limits, s: Site, es: seq<SiteEvent>, es': seq<SiteEvent>, e: SiteEvent, b: Barrier, g: nat)
    requires SameFor(b, SiteRun(limits, s, es), SiteRun(limits, s, es'), g)
    ensures SameFor(b, SiteRun(limits, s, es + [e]), SiteRun(limits, s, es' + [e]), g)
  {
    SameStepFor(limits, SiteRun(limits, s, es), SiteRun(limits, s, es'), e, b, g);
    SiteRunLast(limits, s, es, e);
    SiteRunLast(limits, s, es', e);
  }

  lemma PastAtOnce(limits: Limits, s: Site, es: seq<SiteEvent>, e: SiteEvent, b: Barrier, g: nat)
    requires Raises(b, e) && IsPast(b, SiteRun(limits, s, es), g)
    ensures SameFor(b, SiteRun(limits, s, es + [e]), SiteRun(limits, s, es), g)
  {
    SkippingOne(limits, SiteRun(limits, s, es), e, b, g);
    SiteRunLast(limits, s, es, e);
  }

  /** A request that is past its check fares as if the barrier had never been raised. */
  lemma {:induction false} PastIsUnaffected(limits: Limits, s: Site, es: seq<SiteEvent>, k: nat, b: Barrier, g: nat)
    requires k < |es| && Raises(b, es[k]) && IsPast(b, SiteRun(limits, s, es[..k]), g)
    ensures SameFor(b, SiteRun(limits, s, es), SiteRun(limits, s, Skipping(es, k)), g)
  {
    var n := |es| - 1;
    assert es[..n] + [es[n]] == es;
    if n == k {
      PastAtOnce(limits, s, es[..k], es[k], b, g);
      assert Skipping(es, k) == es[..k];
    } else {
      assert es[..n][..k] == es[..k];
      PastIsUnaffected(limits, s, es[..n], k, b, g);
      PastStep(limits, s, es[..n], Skipping(es[..n], k), es[n], b, g);
      SkippingLast(es, k);
    }
  }

  /** After a device is revoked or removed, or a user blocked or deleted, and until that is lifted: a request of theirs
      can be carried out if and only if its device row, or its user row, had been read before, and it could be carried
      out had that never happened. */
  lemma OnlyEarlierRequestsGetThrough(limits: Limits, s: Site, es: seq<SiteEvent>, k: nat, b: Barrier, g: nat)
    requires k < |es| && Raises(b, es[k]) && NotLifted(b, es, k + 1)
    ensures var earlier, now := SiteRun(limits, s, es[..k]), SiteRun(limits, s, es);
            var without := SiteRun(limits, s, Skipping(es, k));
            && (Holds(b, now, g) <==> IsPast(b, earlier, g) && Holds(b, without, g))
            && (Holds(b, now, g) ==> now.grants[g] == without.grants[g])
  {
    PastSinceRaised(limits, s, es, k, b, g);
    if IsPast(b, SiteRun(limits, s, es[..k]), g) {
      PastIsUnaffected(limits, s, es, k, b, g);
    }
  }

  /** A request that is open stays so until it is carried out, whatever happens to its device and its user. */
  lemma {:induction false} OpenUntilCarriedOut(limits: Limits, s: Site, es: seq<SiteEvent>, k: nat, g: nat)
    requires k <= |es| && IsOpen(SiteRun(limits, s, es[..k]), g)
    ensures var start, now := SiteRun(limits, s, es[..k]), SiteRun(limits, s, es);
            && g < |now.grants|
            && now.grants[g] == if UsedBetween(es, k, g) then Spent else start.grants[g]
  {
    var n := |es| - 1;
    if k == |es| {
      assert es[..k] == es;
    } else {
      assert es[..n][..k] == es[..k];
      OpenUntilCarriedOut(limits, s, es[..n], k, g);
      GrantsStep(SiteRun(limits, s, es[..n]), es[n], g);
      UsedLast(es, k, g);
    }
  }

  lemma UsedLast(es: seq<SiteEvent>, from: nat, g: nat)
    requires from < |es|
    ensures UsedBetween(es, from, g) <==>
            UsedBetween(es[..|es| - 1], from, g) || (es[|es| - 1].Perform? && es[|es| - 1].request == g)
  {
    var n := |es| - 1;
    if i :| from <= i < |es| && es[i].Perform? && es[i].request == g {
      assert i < n ==> es[..n][i] == es[i];
    }
    if i :| from <= i < n && es[..n][i].Perform? && es[..n][i].request == g {
      assert es[i] == es[..n][i];
    }
  }

  /** An event carries out a push of a kept out device. */
  predicate Commits(limits: Limits, s: Site, e: SiteEvent, b: Barrier) {
    && e.Perform? && e.work.Push? && Holds(b, s, e.request)
    && CarriedOut(limits, s.system, Transaction(s.grants[e.request].device, e.work))
  }

  /** A push of a kept out device commits if and only if its device row, or its user row, had been read before, it
      could be carried out without the barrier, and the transaction goes through: nothing of what the barrier changed
      is looked at again. If it commits, the tables become those of the push; if not, nothing changes. */
  lemma {:induction false} CommitsIffGrantedBefore(limits: Limits, s: Site, es: seq<SiteEvent>, k: nat, b: Barrier,
                                                   e: SiteEvent)
    requires k < |es| && Raises(b, es[k]) && NotLifted(b, es, k + 1) && e.Perform? && e.work.Push?
    ensures var earlier, now := SiteRun(limits, s, es[..k]), SiteRun(limits, s, es);
            var without := SiteRun(limits, s, Skipping(es, k));
            && (Commits(limits, now, e, b) <==>
                  && IsPast(b, earlier, e.request) && Holds(b, without, e.request)
                  && CarriedOut(limits, now.system, Transaction(without.grants[e.request].device, e.work)))
            && (Commits(limits, now, e, b) ==>
                  SiteNext(limits, now, e).system.db
                  == Committed(now.system.db, without.grants[e.request].device, e.work.request, e.work.at))
            && (Holds(b, now, e.request) && !Commits(limits, now, e, b) ==>
                  SiteNext(limits, now, e).system == now.system)
  {
    OnlyEarlierRequestsGetThrough(limits, s, es, k, b, e.request);
    var now := SiteRun(limits, s, es);
    if Holds(b, now, e.request) {
      PushCases(limits, now.system, Transaction(now.grants[e.request].device, e.work));
    }
  }

  // ---------------------------------------------------------------- one such run

  const EMPTY_SITE := Site(INITIAL, A.NO_ACCOUNTS, [])

  /** The first event of a run may as well be taken before it. */
  lemma {:induction false} RunFront(limits: Limits, s: Site, e: SiteEvent, es: seq<SiteEvent>)
    ensures SiteRun(limits, s, [e] + es) == SiteRun(limits, SiteNext(limits, s, e), es)
  {
    if es == [] {
      assert [e] + es == [e] && [e][..0] == [];
    } else {
      var n := |es| - 1;
      RunFront(limits, s, e, es[..n]);
      assert ([e] + es)[..n + 1] == [e] + es[..n];
    }
  }

  lemma RunFrom(limits: Limits, s: Site, es: seq<SiteEvent>, k: nat)
    requires k < |es|
    ensures SiteRun(limits, s, es[k..]) == SiteRun(limits, SiteNext(limits, s, es[k]), es[k + 1..])
  {
    assert es[k..] == [es[k]] + es[k + 1..];
    RunFront(limits, s, es[k], es[k + 1..]);
  }

  /** The row of a device that has been enrolled. */
  function EnrolledEntry(d: Device, token: string): DeviceEntry {
    DeviceEntry(d.id, M.EnrolledDevice(d.id, d.scope.user, d.scope.vault, token))
  }

  ghost predicate IsEnrolledIn(a: A.Accounts, d: Device, token: string) {
    a.devices == [EnrolledEntry(d, token)]
  }

  lemma EnrolledIsIdentified(a: A.Accounts, d: Device, token: string)
    requires IsEnrolledIn(a, d, token) && token != ""
    ensures ReadDevice(a, token, NO_FAULT) == Identified(EnrolledEntry(d, token))
  {}

  lemma EnrolledIsAdmitted(a: A.Accounts, d: Device, token: string)
    requires d.scope.user != "" && d.scope.vault != "" && InGoodStanding(a, d.scope.user)
    ensures ReadUser(a, EnrolledEntry(d, token), false) == Open(d)
  {}

  function Carry(push: Event): SiteEvent
    requires push.PushEvent?
  {
    Perform(0, Push(push.request, push.at, push.fails))
  }

  ghost predicate IsLogged(s: Site, push: Event) {
    push.PushEvent? && |push.request.ops| > 0 && push.request.ops[0].opId in OpIds(s.system.db.ops)
  }

  lemma OpenCommits(limits: Limits, s: Site, push: Event)
    requires IsPlainPush(limits, push) && s.system == INITIAL && s.grants == [Open(push.device)]
    ensures IsLogged(SiteRun(limits, s, [Carry(push)]), push)
  {
    RunFront(limits, s, Carry(push), []);
    assert [Carry(push)] + [] == [Carry(push)];
    assert Served(s, Carry(push)) == Some(push);
    PlainPush(limits, INITIAL, push);
  }

  lemma IdentifiedCommits(limits: Limits, s: Site, push: Event, token: string)
    requires IsPlainPush(limits, push) && push.device.scope.user != "" && push.device.scope.vault != ""
    requires s.system == INITIAL && s.grants == [Identified(EnrolledEntry(push.device, token))]
    requires InGoodStanding(s.accounts, push.device.scope.user)
    ensures IsLogged(SiteRun(limits, s, [Admit(0, false), Carry(push)]), push)
  {
    RunFront(limits, s, Admit(0, false), [Carry(push)]);
    assert [Admit(0, false)] + [Carry(push)] == [Admit(0, false), Carry(push)];
    EnrolledIsAdmitted(s.accounts, push.device, token);
    OpenCommits(limits, SiteNext(limits, s, Admit(0, false)), push);
  }

  /** The failing input: a push whose device row is read before the device is revoked, and which is carried out after.
      Its operation is logged, whether the user row is read before the revocation or after. If the revocation comes
      first of all, nothing is. */
  lemma RevokedDeviceStillCommits(limits: Limits, s: Site, push: Event, token: string, at: Timestamp)
    requires IsPlainPush(limits, push) && push.device.scope.user != "" && push.device.scope.vault != "" && token != ""
    requires s.system == INITIAL && s.grants == [] && at != ""
    requires IsEnrolledIn(s.accounts, push.device, token) && InGoodStanding(s.accounts, push.device.scope.user)
    ensures var arrives, admit, revoke := Arrive(token, NO_FAULT), Admit(0, false), Revoke(push.device.id, at, false);
            && IsLogged(SiteRun(limits, s, [arrives, admit, revoke, Carry(push)]), push)
            && IsLogged(SiteRun(limits, s, [arrives, revoke, admit, Carry(push)]), push)
            && SiteRun(limits, s, [revoke, arrives, admit, Carry(push)]).system == INITIAL
  {
    var arrives, admit, revoke := Arrive(token, NO_FAULT), Admit(0, false), Revoke(push.device.id, at, false);
    EnrolledIsIdentified(s.accounts, push.device, token);
    var s1 := SiteNext(limits, s, arrives);
    assert s1.grants == [Identified(EnrolledEntry(push.device, token))];
    RunFront(limits, s, arrives, [admit, revoke, Carry(push)]);
    RunFront(limits, s, arrives, [revoke, admit, Carry(push)]);
    assert [arrives] + [admit, revoke, Carry(push)] == [arrives, admit, revoke, Carry(push)];
    assert [arrives] + [revoke, admit, Carry(push)] == [arrives, revoke, admit, Carry(push)];
    RevokedAfterAdmission(limits, s1, push, token, revoke);
    RevokedBeforeAdmission(limits, s1, push, token, revoke);
    RevokedBeforeArrival(limits, s, push, arrives, revoke);
  }

  lemma RevokedAfterAdmission(limits: Limits, s: Site, push: Event, token: string, revoke: SiteEvent)
    requires IsPlainPush(limits, push) && push.device.scope.user != "" && push.device.scope.vault != ""
    requires s.system == INITIAL && s.grants == [Identified(EnrolledEntry(push.device, token))]
    requires InGoodStanding(s.accounts, push.device.scope.user) && revoke.Revoke?
    ensures IsLogged(SiteRun(limits, s, [Admit(0, false), revoke, Carry(push)]), push)
  {
    var admitted := SiteNext(limits, s, Admit(0, false));
    EnrolledIsAdmitted(s.accounts, push.device, token);
    RunFront(limits, s, Admit(0, false), [revoke, Carry(push)]);
    RunFront(limits, admitted, revoke, [Carry(push)]);
    assert [Admit(0, false)] + [revoke, Carry(push)] == [Admit(0, false), revoke, Carry(push)];
    assert [revoke] + [Carry(push)] == [revoke, Carry(push)];
    OpenCommits(limits, SiteNext(limits, admitted, revoke), push);
  }

  lemma RevokedBeforeAdmission(limits: Limits, s: Site, push: Event, token: string, revoke: SiteEvent)
    requires IsPlainPush(limits, push) && push.device.scope.user != "" && push.device.scope.vault != ""
    requires s.system == INITIAL && s.grants == [Identified(EnrolledEntry(push.device, token))]
    requires InGoodStanding(s.accounts, push.device.scope.user) && revoke.Revoke?
    ensures IsLogged(SiteRun(limits, s, [revoke, Admit(0, false), Carry(push)]), push)
  {
    RunFront(limits, s, revoke, [Admit(0, false), Carry(push)]);
    assert [revoke] + [Admit(0, false), Carry(push)] == [revoke, Admit(0, false), Carry(push)];
    IdentifiedCommits(limits, SiteNext(limits, s, revoke), push, token);
  }

  lemma RevokedBeforeArrival(limits: Limits, s: Site, push: Event, arrives: SiteEvent, revoke: SiteEvent)
    requires push.PushEvent? && s.system == INITIAL && s.grants == [] && arrives.Arrive?
    requires revoke.Revoke? && revoke.id == push.device.id && revoke.at != "" && !revoke.fails
    requires forall entry | entry in s.accounts.devices :: entry.id == push.device.id
    ensures SiteRun(limits, s, [revoke, arrives, Admit(0, false), Carry(push)]).system == INITIAL
  {
    var s1 := SiteNext(limits, s, revoke);
    var s2 := SiteNext(limits, s1, arrives);
    var s3 := SiteNext(limits, s2, Admit(0, false));
    NoDeviceIsIdentified(s.accounts.devices, revoke.id, revoke.at, s1.accounts, arrives.key, arrives.fault);
    RunFront(limits, s, revoke, [arrives, Admit(0, false), Carry(push)]);
    RunFront(limits, s1, arrives, [Admit(0, false), Carry(push)]);
    RunFront(limits, s2, Admit(0, false), [Carry(push)]);
    RunFront(limits, s3, Carry(push), []);
    assert [revoke] + [arrives, Admit(0, false), Carry(push)] == [revoke, arrives, Admit(0, false), Carry(push)];
    assert [arrives] + [Admit(0, false), Carry(push)] == [arrives, Admit(0, false), Carry(push)];
    assert [Admit(0, false)] + [Carry(push)] == [Admit(0, false), Carry(push)] && [Carry(push)] + [] == [Carry(push)];
  }

  lemma NoDeviceIsIdentified(devices: seq<DeviceEntry>, id: string, at: Timestamp, a: A.Accounts, key: string,
                             fault: Fault)
    requires (forall entry | entry in devices :: entry.id == id) && a.devices == Revoked(devices, id, at) && at != ""
    ensures ReadDevice(a, key, fault) == Denied(401)
  {
    ByTokenFound(a.devices, key);
    ByLegacyKeyFound(a.devices, key);
    forall entry | entry in a.devices ensures entry.row.revokedAt == Some(at) {
      var i :| 0 <= i < |a.devices| && a.devices[i] == entry;
      assert devices[i] in devices;
    }
  }

  // ---------------------------------------------------------------- a torn read

  /** At this moment the device would be let in. */
  ghost predicate EntitledNow(a: A.Accounts, d: Device) {
    && InGoodStanding(a, d.scope.user)
    && exists entry | entry in a.devices :: entry.id == d.id && Text(entry.row.revokedAt) == ""
  }

  lemma StandingIsNotEntitled(a: A.Accounts, d: Device, b: Barrier)
    requires Stands(b, a) && KeepsOut(b, d)
    ensures !EntitledNow(a, d)
  {}

  /** A user is blocked while a device is enrolled for them, the device row is read, the device is revoked, the user is
      unblocked, and the user row is read. */
  function TornRun(push: Event, row: A.UserRow, token: string, at: Timestamp): seq<SiteEvent>
    requires push.PushEvent?
  {
    var d := push.device;
    [AddUser(d.scope.user, row), Block(d.scope.user, true, false),
     Enroll(d.id, d.scope.user, d.scope.vault, token, false), Arrive(token, NO_FAULT),
     Revoke(d.id, at, false), Block(d.scope.user, false, false), Admit(0, false), Carry(push)]
  }

  lemma {:induction false} StandsThrough(limits: Limits, s: Site, es: seq<SiteEvent>, b: Barrier)
    requires Stands(b, s.accounts) && NotLifted(b, es, 0)
    ensures Stands(b, SiteRun(limits, s, es).accounts)
  {
    if es != [] {
      var n := |es| - 1;
      StandsThrough(limits, s, es[..n], b);
      StandsUntilLifted(limits, SiteRun(limits, s, es[..n]), es[n], b);
    }
  }

  /** At no moment of such a run is the device entitled. */
  lemma NeverEntitled(limits: Limits, push: Event, row: A.UserRow, token: string, at: Timestamp, n: nat)
    requires push.PushEvent? && at != "" && n <= |TornRun(push, row, token, at)|
    ensures !EntitledNow(SiteRun(limits, EMPTY_SITE, TornRun(push, row, token, at)[..n]).accounts, push.device)
  {
    var d, es := push.device, TornRun(push, row, token, at)[..n];
    var now := SiteRun(limits, EMPTY_SITE, es).accounts;
    if n <= 2 {
      StandsThrough(limits, EMPTY_SITE, es, OfDevice(d.id));
      StandingIsNotEntitled(now, d, OfDevice(d.id));
    } else if n <= 5 {
      PastSinceRaised(limits, EMPTY_SITE, es, 1, Barrier.OfUser(d.scope.user), 0);
      StandingIsNotEntitled(now, d, Barrier.OfUser(d.scope.user));
    } else {
      PastSinceRaised(limits, EMPTY_SITE, es, 4, OfDevice(d.id), 0);
      StandingIsNotEntitled(now, d, OfDevice(d.id));
    }
  }

  /** And still its push is logged: the two reads of an authentication need not agree on any one moment. */
  lemma TornReadCommits(limits: Limits, push: Event, row: A.UserRow, token: string, at: Timestamp)
    requires IsPlainPush(limits, push) && push.device.scope.user != "" && push.device.scope.vault != "" && token != ""
    requires at != ""
    ensures var es := TornRun(push, row, token, at);
            && (forall n: nat | n <= |es| :: !EntitledNow(SiteRun(limits, EMPTY_SITE, es[..n]).accounts, push.device))
            && IsLogged(SiteRun(limits, EMPTY_SITE, es), push)
  {
    var es := TornRun(push, row, token, at);
    forall n: nat | n <= |es| ensures !EntitledNow(SiteRun(limits, EMPTY_SITE, es[..n]).accounts, push.device) {
      NeverEntitled(limits, push, row, token, at, n);
    }
    TornReads(limits, push, row, token, at);
  }

  lemma TornReads(limits: Limits, push: Event, row: A.UserRow, token: string, at: Timestamp)
    requires IsPlainPush(limits, push) && push.device.scope.user != "" && push.device.scope.vault != "" && token != ""
    ensures IsLogged(SiteRun(limits, EMPTY_SITE, TornRun(push, row, token, at)), push)
  {
    var d, es := push.device, TornRun(push, row, token, at);
    var s1 := SiteNext(limits, EMPTY_SITE, es[0]);
    var s2 := SiteNext(limits, s1, es[1]);
    var s3 := SiteNext(limits, s2, es[2]);
    RunFrom(limits, EMPTY_SITE, es, 0);
    RunFrom(limits, s1, es, 1);
    RunFrom(limits, s2, es, 2);
    assert es[0..] == es;
    assert s2.accounts.devices == [] && d.scope.user in s2.accounts.users;
    assert IsEnrolledIn(s3.accounts, d, token);
    assert es[3..] == [es[3]] + es[4..];
    TornFromArrival(limits, s3, push, token, es[4..]);
  }

  lemma TornFromArrival(limits: Limits, s: Site, push: Event, token: string, es: seq<SiteEvent>)
    requires IsPlainPush(limits, push) && push.device.scope.user != "" && push.device.scope.vault != "" && token != ""
    requires IsEnrolledIn(s.accounts, push.device, token) && push.device.scope.user in s.accounts.users
    requires s.system == INITIAL && s.grants == [] && |es| == 4 && es[0].Revoke?
    requires es[1] == Block(push.device.scope.user, false, false) && es[2] == Admit(0, false) && es[3] == Carry(push)
    ensures IsLogged(SiteRun(limits, s, [Arrive(token, NO_FAULT)] + es), push)
  {
    RunFront(limits, s, Arrive(token, NO_FAULT), es);
    EnrolledIsIdentified(s.accounts, push.device, token);
    Arrived(limits, s, token, EnrolledEntry(push.device, token));
    TornFromRevocation(limits, SiteNext(limits, s, Arrive(token, NO_FAULT)), push, token, es);
  }

  lemma Arrived(limits: Limits, s: Site, key: string, entry: DeviceEntry)
    requires ReadDevice(s.accounts, key, NO_FAULT) == Identified(entry) && s.grants == []
    ensures SiteNext(limits, s, Arrive(key, NO_FAULT)) == s.(grants := [Identified(entry)])
  {}

  lemma TornFromRevocation(limits: Limits, s: Site, push: Event, token: string, es: seq<SiteEvent>)
    requires IsPlainPush(limits, push) && push.device.scope.user != "" && push.device.scope.vault != ""
    requires s.system == INITIAL && s.grants == [Identified(EnrolledEntry(push.device, token))]
    requires push.device.scope.user in s.accounts.users && |es| == 4 && es[0].Revoke?
    requires es[1] == Block(push.device.scope.user, false, false) && es[2] == Admit(0, false) && es[3] == Carry(push)
    ensures IsLogged(SiteRun(limits, s, es), push)
  {
    var revoked := SiteNext(limits, s, es[0]);
    var unblocked := SiteNext(limits, revoked, es[1]);
    RunFrom(limits, s, es, 0);
    RunFrom(limits, revoked, es, 1);
    assert es[0..] == es && es[2..] == [es[2], es[3]];
    assert InGoodStanding(unblocked.accounts, push.device.scope.user);
    IdentifiedCommits(limits, unblocked, push, token);
  }
}

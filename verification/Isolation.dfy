/**
 How far tenants observe each other. Two runs are compared: one with everything, one without the transactions
 of one user. Up to a renumbering of sequences, and leaving the conflict lists of replies out, everyone else gets
 the same answers and keeps the same data exactly as long as nothing clashes: no push carried out for someone
 else holds an op id that one of the user's logged operations has. The conflict lists agree as well exactly as
 long as no last seen sequence slips between the two numberings.
 */
module Isolation {
  import opened Schema
  import opened PushSpec
  import opened OpLog
  import opened BlobStore
  import opened Relay
  import opened Replication
  import opened ExactlyOnce
  import opened Renumbering

  /** The transactions of a user's devices, and the user's deletion. */
  predicate Writes(e: Event, user: string) {
    match e
    case PushEvent(d, _, _, _) => d.scope.user == user
    case UploadEvent(scope, _, _, _) => scope.user == user
    case DownloadEvent(scope, _, _, _) => scope.user == user
    case DeleteUserEvent(u, _) => u == user
    case ExpireRepliesEvent(_, _) => false
  }

  predicate IsBy(e: WorldEvent, user: string) {
    e.Serve? && Writes(e.event, user)
  }

  /** The run without the user's transactions. */
  function Erase(user: string, es: seq<WorldEvent>): seq<WorldEvent> {
    if es == [] then []
    else if IsBy(es[0], user) then Erase(user, es[1..])
    else [es[0]] + Erase(user, es[1..])
  }

  /** The one way in which a user shows: op_id is one primary key for all users, so a push that is carried
      out for someone else silently leaves out an operation whose id the user has already logged. */
  ghost predicate Clash(limits: Limits, user: string, s: System, e: Event) {
    && CarriedOut(limits, s, e) && e.device.scope.user != user
    && exists op | op in e.request.ops :: op.opId in OpIds(Select(OfUser(user), s.db.ops))
  }

  ghost predicate ClashFree(limits: Limits, user: string, w: World, es: seq<WorldEvent>)
    decreases es
  {
    es != [] ==>
      && !(es[0].Serve? && Clash(limits, user, w.system, es[0].event))
      && ClashFree(limits, user, WorldNext(limits, w, es[0]), es[1..])
  }

  // ---------------------------------------------------------------- what is compared

  /** A push reply as far as the view compares it. */
  function Shown(v: View, r: PushReply): PushReply {
    PushReply(r.accepted, if v.Bare? then [] else Named(r.conflicts))
  }

  function ShownReplies(v: View, m: map<ReplyKey, StoredReply>): map<ReplyKey, StoredReply> {
    map k | k in m :: StoredReply(Shown(v, m[k].reply), m[k].createdAt)
  }

  function Visible(v: View, o: Outcome): Outcome {
    match o
    case Pushed(Replied(reply)) => Pushed(Replied(Shown(v, reply)))
    case _ => o
  }

  /** What an event shows to the others: the answer to a transaction, or a page without its sequences. */
  datatype Sight = Answered(outcome: Outcome) | Paged(ops: seq<OpRow>, hasMore: bool) | Nothing

  function SeenInPage(v: View, page: PullReply): Sight {
    Paged(Strip(v, page.ops), page.hasMore)
  }

  function Observe(v: View, limits: Limits, user: string, w: World, e: WorldEvent): Sight {
    match e
    case Serve(event) => Answered(Visible(v, Step(limits, w.system, event).1))
    case Join(_) => Nothing
    case Pull(i, pageLimit) =>
      var limit := PullPageLimit(limits, pageLimit);
      if i >= |w.replicas| || w.replicas[i].scope.user == user || limit < 0 then Nothing
      else
        var r := w.replicas[i];
        SeenInPage(v, Page(w.system.db.ops, r.scope, r.cursor, limit, ServerSequence(w.system.db.ops, r.scope)))
  }

  /** What everyone but the user sees, event by event. */
  function Trace(v: View, limits: Limits, user: string, w: World, es: seq<WorldEvent>): seq<Sight>
    decreases es
  {
    if es == [] then []
    else
      var rest := Trace(v, limits, user, WorldNext(limits, w, es[0]), es[1..]);
      if IsBy(es[0], user) then rest else [Observe(v, limits, user, w, es[0])] + rest
  }

  /** The log without the user. */
  function Others(user: string, t: Tables): seq<OpRow> {
    Select(NotOfUser(user), t.ops)
  }

  /** `b` is `a` without the user's data, up to renumbering. */
  ghost predicate Alike(v: View, user: string, a: Tables, b: Tables) {
    && Strip(v, Others(user, a)) == Strip(v, b.ops)
    && RefsWithout(user, a.refs) == b.refs
    && ShownReplies(v, RepliesWithout(user, a.replies)) == ShownReplies(v, b.replies)
  }

  /** Two replicas hold the same and stand at the same place of logs `a` and `b`. */
  ghost predicate AlikeReplica(v: View, user: string, a: seq<OpRow>, m: nat, b: seq<OpRow>, n: nat, r: Replica,
                               r': Replica) {
    && r.scope == r'.scope
    && (r.scope.user != user ==>
          && Strip(v, r.held) == Strip(v, r'.held)
          && SameCut(a, b, r.cursor, r'.cursor) && r.cursor <= m && r'.cursor <= n)
  }

  ghost predicate AlikeReplicas(v: View, user: string, a: seq<OpRow>, m: nat, b: seq<OpRow>, n: nat,
                                rs: seq<Replica>, rs': seq<Replica>) {
    |rs| == |rs'| && forall i | 0 <= i < |rs| :: AlikeReplica(v, user, a, m, b, n, rs[i], rs'[i])
  }

  ghost predicate AlikeWorlds(v: View, user: string, w: World, w': World) {
    && Alike(v, user, w.system.db, w'.system.db)
    && Lower(Others(user, w.system.db), w'.system.db.ops) && w'.system.db.counter <= w.system.db.counter
    && AlikeReplicas(v, user, Others(user, w.system.db), w.system.db.counter, w'.system.db.ops, w'.system.db.counter,
                     w.replicas, w'.replicas)
  }

  ghost predicate Sound(w: World, w': World) {
    SystemInv(w.system) && SystemInv(w'.system)
  }

  // ---------------------------------------------------------------- the same events in both runs

  /** The request a device makes in the other numbering. */
  function Translate(a: seq<OpRow>, b: seq<OpRow>, ops: seq<Operation>): seq<Operation> {
    seq(|ops|, i requires 0 <= i < |ops| => ops[i].(lastSeen := Renumber(a, b, ops[i].lastSeen)))
  }

  /** The same transaction in the other run, its last seen sequences translated where the view renumbers. */
  function Twin(v: View, a: seq<OpRow>, b: seq<OpRow>, e: Event): Event {
    if v.Renumbered? && e.PushEvent? then e.(request := e.request.(ops := Translate(a, b, e.request.ops))) else e
  }

  function WorldTwin(v: View, user: string, w: World, w': World, e: WorldEvent): WorldEvent {
    if e.Serve? then Serve(Twin(v, Others(user, w.system.db), w'.system.db.ops, e.event)) else e
  }

  /** The run without the user's transactions, every other event replaced by its twin. */
  function Without(v: View, limits: Limits, user: string, w: World, w': World, es: seq<WorldEvent>): seq<WorldEvent>
    decreases es
  {
    if es == [] then []
    else
      var next := WorldNext(limits, w, es[0]);
      if IsBy(es[0], user) then Without(v, limits, user, next, w', es[1..])
      else
        var e' := WorldTwin(v, user, w, w', es[0]);
        [e'] + Without(v, limits, user, next, WorldNext(limits, w', e'), es[1..])
  }

  /** A push of someone else is carried out and one of its operations is told of a conflict that it is not told of
      without the user. */
  ghost predicate Slip(v: View, limits: Limits, user: string, a: System, b: System, e: Event) {
    && CarriedOut(limits, a, e) && e.device.scope.user != user
    && var a', b' := Others(user, a.db), b.db.ops;
       BatchSlips(a', b', e.device, e.request.ops, Twin(v, a', b', e).request.ops)
  }

  /** What shows the user to someone else. */
  ghost predicate Disturbs(v: View, limits: Limits, user: string, a: System, b: System, e: Event) {
    Clash(limits, user, a, e) || (!v.Bare? && Slip(v, limits, user, a, b, e))
  }

  /** No event of the two runs disturbs in the states it meets. */
  ghost predicate Undisturbed(v: View, limits: Limits, user: string, w: World, w': World, es: seq<WorldEvent>)
    decreases es
  {
    es != [] ==>
      var next := WorldNext(limits, w, es[0]);
      if IsBy(es[0], user) then Undisturbed(v, limits, user, next, w', es[1..])
      else
        && !(es[0].Serve? && Disturbs(v, limits, user, w.system, w'.system, es[0].event))
        && Undisturbed(v, limits, user, next, WorldNext(limits, w', WorldTwin(v, user, w, w', es[0])), es[1..])
  }

  /** What a push and its twin have in common. */
  ghost predicate Resent(v: View, a: seq<OpRow>, b: seq<OpRow>, e: Event, e': Event) {
    && e.PushEvent? && e'.PushEvent?
    && e'.device == e.device && e'.at == e.at && e'.fails == e.fails
    && e'.request.deviceId == e.request.deviceId && e'.request.key == e.request.key
    && BatchResembles(v, e.request.ops, e'.request.ops)
    && (!v.Bare? ==> BatchReportsLess(a, b, e.device, e.request.ops, e'.request.ops))
  }

  lemma TwinIsResent(v: View, a: seq<OpRow>, b: seq<OpRow>, counter: nat, counter': nat, e: Event)
    requires Numbered(a, counter) && Numbered(b, counter') && Strip(v, a) == Strip(v, b) && Lower(a, b) && e.PushEvent?
    ensures Resent(v, a, b, e, Twin(v, a, b, e))
  {
    var ops, ops' := e.request.ops, Twin(v, a, b, e).request.ops;
    forall i | 0 <= i < |ops| ensures Resembles(v, ops[i], ops'[i]) {
      RenumberCuts(a, b, counter, counter', ops[i].lastSeen);
    }
    forall i | 0 <= i < |ops| ensures ReportsLess(a, b, e.device, ops[i], ops'[i]) {
      if v.Renumbered? {
        SlipsTranslated(v, a, b, counter, counter', e.device, ops[i], ops'[i]);
      } else {
        SlipsAsSent(v, a, b, counter, counter', e.device, ops[i]);
      }
    }
  }

  // ---------------------------------------------------------------- logs without the user

  lemma OthersNumbered(user: string, t: Tables)
    requires LogInv(t)
    ensures Numbered(Others(user, t), t.counter)
  {
    SelectOrdered(NotOfUser(user), t.ops, t.counter);
  }

  lemma {:induction false} SelectAll(w: Where, rows: seq<OpRow>)
    requires forall row | row in rows :: Matches(w, row)
    ensures Select(w, rows) == rows
  {
    if rows != [] {
      SelectAll(w, rows[..|rows| - 1]);
    }
  }

  lemma OwnRowsAreErased(user: string, log: seq<OpRow>, rows: seq<OpRow>)
    requires forall row | row in rows :: row.scope.user == user
    ensures Select(NotOfUser(user), log + rows) == Select(NotOfUser(user), log)
  {
    SelectAppend(NotOfUser(user), log, rows);
    SelectNone(NotOfUser(user), rows);
  }

  lemma OtherRowsStay(user: string, log: seq<OpRow>, rows: seq<OpRow>)
    requires forall row | row in rows :: row.scope.user != user
    ensures Select(NotOfUser(user), log + rows) == Select(NotOfUser(user), log) + rows
  {
    SelectAppend(NotOfUser(user), log, rows);
    SelectAll(NotOfUser(user), rows);
  }

  lemma {:induction false} EraseOpsTwice(user: string, other: string, rows: seq<OpRow>)
    ensures Select(NotOfUser(user), Select(NotOfUser(other), rows))
         == Select(NotOfUser(other), Select(NotOfUser(user), rows))
  {
    if rows != [] {
      var before, row := rows[..|rows| - 1], rows[|rows| - 1];
      EraseOpsTwice(user, other, before);
      SelectAppend(NotOfUser(user), Select(NotOfUser(other), before), [row]);
      SelectAppend(NotOfUser(other), Select(NotOfUser(user), before), [row]);
      assert [row][..0] == [];
    }
  }

  // ---------------------------------------------------------------- references without the user

  lemma OwnRefIsErased(user: string, refs: seq<RefRow>, row: RefRow)
    ensures RefsWithout(user, refs + [row]) == RefsWithout(user, refs) + if row.scope.user == user then [] else [row]
  {
    assert (refs + [row])[..|refs + [row]| - 1] == refs;
  }

  lemma {:induction false} TouchAndErase(user: string, refs: seq<RefRow>, scope: Scope, sha: Sha, at: Timestamp)
    ensures RefsWithout(user, Touch(refs, scope, sha, at)) ==
            if scope.user == user then RefsWithout(user, refs) else Touch(RefsWithout(user, refs), scope, sha, at)
  {
    if refs != [] {
      var before, row := refs[..|refs| - 1], refs[|refs| - 1];
      TouchAndErase(user, before, scope, sha, at);
      var touched := Touch(refs, scope, sha, at);
      assert touched[..|touched| - 1] == Touch(before, scope, sha, at);
      var kept := RefsWithout(user, refs);
      assert row.scope.user != user ==> kept[..|kept| - 1] == RefsWithout(user, before);
    }
  }

  lemma {:induction false} EraseTwice(user: string, other: string, refs: seq<RefRow>)
    ensures RefsWithout(user, RefsWithout(other, refs)) == RefsWithout(other, RefsWithout(user, refs))
  {
    if refs != [] {
      var before, row := refs[..|refs| - 1], refs[|refs| - 1];
      EraseTwice(user, other, before);
      OwnRefIsErased(user, RefsWithout(other, before), row);
      OwnRefIsErased(other, RefsWithout(user, before), row);
    }
  }

  lemma {:induction false} EraseAgain(user: string, refs: seq<RefRow>)
    ensures RefsWithout(user, RefsWithout(user, refs)) == RefsWithout(user, refs)
  {
    if refs != [] {
      var before, row := refs[..|refs| - 1], refs[|refs| - 1];
      EraseAgain(user, before);
      OwnRefIsErased(user, RefsWithout(user, before), row);
    }
  }

  /** An upload as a function of the references alone: the rows after it and the answer. */
  function UploadOnRefs(limits: Limits, refs: seq<RefRow>, e: Event): (seq<RefRow>, UploadResponse)
    requires e.UploadEvent?
  {
    var sha := Digest(e.content);
    if |e.content| > limits.maxBlobBytes then (refs, Refused("blob_too_large"))
    else if e.fault.Undone? then (refs, UploadFailed)
    else match RefSize(refs, e.scope, sha)
      case Some(size) =>
        if size != |e.content| || e.fault.FileLeft? then (refs, UploadFailed)
        else (Touch(refs, e.scope, sha, e.at), Stored(sha, size))
      case None =>
        if OverQuota(limits, refs, e.scope, |e.content|) then (refs, Refused("quota_exceeded"))
        else if e.fault.FileLeft? then (refs, UploadFailed)
        else (refs + [RefRow(e.scope, sha, |e.content|, e.at, e.at)], Stored(sha, |e.content|))
  }

  lemma UploadReadsRefsOnly(limits: Limits, s: System, e: Event)
    requires e.UploadEvent?
    ensures var (s', outcome) := Step(limits, s, e);
            && outcome == Uploaded(UploadOnRefs(limits, s.db.refs, e).1)
            && s'.db == s.db.(refs := UploadOnRefs(limits, s.db.refs, e).0, blobs := s'.db.blobs)
  {}

  lemma QuotaErased(limits: Limits, user: string, refs: seq<RefRow>, scope: Scope, size: nat)
    requires scope.user != user
    ensures OverQuota(limits, RefsWithout(user, refs), scope, size) == OverQuota(limits, refs, scope, size)
  {
    RefsWithoutUsed(user, refs, OfVault(scope));
    RefsWithoutUsed(user, refs, OfOwner(scope.user));
  }

  lemma UploadOnRefsErased(limits: Limits, user: string, refs: seq<RefRow>, e: Event)
    requires e.UploadEvent? && e.scope.user != user
    ensures UploadOnRefs(limits, RefsWithout(user, refs), e).0 == RefsWithout(user, UploadOnRefs(limits, refs, e).0)
    ensures UploadOnRefs(limits, RefsWithout(user, refs), e).1 == UploadOnRefs(limits, refs, e).1
  {
    var sha, size := Digest(e.content), |e.content|;
    var kept := RefsWithout(user, refs);
    RefsWithoutSize(user, refs, e.scope, sha);
    QuotaErased(limits, user, refs, e.scope, size);
    assert RefsWithout(user, Touch(refs, e.scope, sha, e.at)) == Touch(kept, e.scope, sha, e.at) by {
      TouchAndErase(user, refs, e.scope, sha, e.at);
    }
    var row := RefRow(e.scope, sha, size, e.at, e.at);
    assert RefsWithout(user, refs + [row]) == kept + [row] by {
      OwnRefIsErased(user, refs, row);
    }
  }

  // ---------------------------------------------------------------- replies without the user

  lemma OwnReplyIsErased(user: string, m: map<ReplyKey, StoredReply>, k: ReplyKey, r: StoredReply)
    requires k.scope.user == user
    ensures RepliesWithout(user, m[k := r]) == RepliesWithout(user, m)
  {}

  lemma ShownAt(v: View, user: string, m: map<ReplyKey, StoredReply>, m': map<ReplyKey, StoredReply>, k: ReplyKey)
    requires ShownReplies(v, RepliesWithout(user, m)) == ShownReplies(v, m') && k.scope.user != user
    ensures k in m <==> k in m'
    ensures k in m ==> Shown(v, m[k].reply) == Shown(v, m'[k].reply)
  {
    var shown, shown' := ShownReplies(v, RepliesWithout(user, m)), ShownReplies(v, m');
    assert k in m <==> k in shown;
    assert k in m' <==> k in shown';
    assert k in shown ==> shown[k] == shown'[k];
  }

  lemma ShownStored(v: View, m: map<ReplyKey, StoredReply>, k: ReplyKey, r: StoredReply)
    ensures ShownReplies(v, m[k := r]) == ShownReplies(v, m)[k := StoredReply(Shown(v, r.reply), r.createdAt)]
  {}

  lemma ErasedStored(user: string, m: map<ReplyKey, StoredReply>, k: ReplyKey, r: StoredReply)
    requires k.scope.user != user
    ensures RepliesWithout(user, m[k := r]) == RepliesWithout(user, m)[k := r]
  {}

  lemma StoredAlike(v: View, user: string, m: map<ReplyKey, StoredReply>, m': map<ReplyKey, StoredReply>, k: ReplyKey,
                    r: StoredReply, r': StoredReply)
    requires ShownReplies(v, RepliesWithout(user, m)) == ShownReplies(v, m') && k.scope.user != user
    requires Shown(v, r.reply) == Shown(v, r'.reply) && r.createdAt == r'.createdAt
    ensures ShownReplies(v, RepliesWithout(user, m[k := r])) == ShownReplies(v, m'[k := r'])
  {
    ErasedStored(user, m, k, r);
    ShownStored(v, RepliesWithout(user, m), k, r);
    ShownStored(v, m', k, r');
  }

  lemma RepliesErasedTwice(v: View, user: string, other: string, m: map<ReplyKey, StoredReply>,
                           m': map<ReplyKey, StoredReply>)
    requires ShownReplies(v, RepliesWithout(user, m)) == ShownReplies(v, m')
    ensures ShownReplies(v, RepliesWithout(user, RepliesWithout(other, m)))
         == ShownReplies(v, RepliesWithout(other, m'))
  {
    var shown, shown' := ShownReplies(v, RepliesWithout(user, m)), ShownReplies(v, m');
    assert ShownReplies(v, RepliesWithout(user, RepliesWithout(other, m))) == RepliesWithout(other, shown);
    assert ShownReplies(v, RepliesWithout(other, m')) == RepliesWithout(other, shown');
  }

  lemma ShownAfterExpiry(v: View, m: map<ReplyKey, StoredReply>, cutoff: Timestamp)
    ensures ShownReplies(v, WithoutOldReplies(m, cutoff)) == WithoutOldReplies(ShownReplies(v, m), cutoff)
  {}

  lemma ErasedAfterExpiry(user: string, m: map<ReplyKey, StoredReply>, cutoff: Timestamp)
    ensures RepliesWithout(user, WithoutOldReplies(m, cutoff)) == WithoutOldReplies(RepliesWithout(user, m), cutoff)
  {}

  lemma RepliesExpireAlike(v: View, user: string, m: map<ReplyKey, StoredReply>, m': map<ReplyKey, StoredReply>,
                           cutoff: Timestamp)
    requires ShownReplies(v, RepliesWithout(user, m)) == ShownReplies(v, m')
    ensures ShownReplies(v, RepliesWithout(user, WithoutOldReplies(m, cutoff)))
         == ShownReplies(v, WithoutOldReplies(m', cutoff))
  {
    ErasedAfterExpiry(user, m, cutoff);
    ShownAfterExpiry(v, RepliesWithout(user, m), cutoff);
    ShownAfterExpiry(v, m', cutoff);
  }

  // ---------------------------------------------------------------- what a transaction does to the logs

  /** What a transaction of the full run, and its counterpart in the other, do to the two logs compared. */
  datatype OthersChange = Kept | Grown(rows: seq<OpRow>, rows': seq<OpRow>) | Shrunk(user: string)

  ghost predicate Carries(c: OthersChange, a: seq<OpRow>, m: nat, b: seq<OpRow>, n: nat,
                          after: seq<OpRow>, m': nat, after': seq<OpRow>, n': nat)
  {
    match c
    case Kept => after == a && after' == b && m <= m' && n' == n
    case Grown(rows, rows') =>
      && after == a + rows && after' == b + rows' && |rows| == |rows'| && m' == m + |rows| && n' == n + |rows|
      && (forall j | 0 <= j < |rows| :: Number(rows[j]) == m + 1 + j)
      && (forall j | 0 <= j < |rows'| :: Number(rows'[j]) == n + 1 + j)
    case Shrunk(other) =>
      after == Select(NotOfUser(other), a) && after' == Select(NotOfUser(other), b) && m' == m && n' == n
  }

  lemma LowerFollows(v: View, c: OthersChange, a: seq<OpRow>, m: nat, b: seq<OpRow>, n: nat,
                     after: seq<OpRow>, m': nat, after': seq<OpRow>, n': nat)
    requires Lower(a, b) && n <= m && Carries(c, a, m, b, n, after, m', after', n') && Strip(v, a) == Strip(v, b)
    ensures Lower(after, after') && n' <= m'
  {
    if c.Shrunk? {
      StripAt(v, a, b);
      forall i | 0 <= i < |a| ensures a[i].scope == b[i].scope {
        SameBesidesNumber(v, a[i], b[i]);
      }
      var at := SelectAligned(NotOfUser(c.user), NotOfUser(c.user), a, b);
    }
  }

  lemma ReplicasFollow(v: View, user: string, c: OthersChange, a: seq<OpRow>, m: nat, b: seq<OpRow>, n: nat,
                       after: seq<OpRow>, m': nat, after': seq<OpRow>, n': nat, rs: seq<Replica>, rs': seq<Replica>)
    requires AlikeReplicas(v, user, a, m, b, n, rs, rs') && Carries(c, a, m, b, n, after, m', after', n')
    requires Strip(v, a) == Strip(v, b)
    ensures AlikeReplicas(v, user, after, m', after', n', rs, rs')
  {
    forall i | 0 <= i < |rs| ensures AlikeReplica(v, user, after, m', after', n', rs[i], rs'[i]) {
      assert AlikeReplica(v, user, a, m, b, n, rs[i], rs'[i]);
      if rs[i].scope.user != user {
        CutFollows(v, c, a, m, b, n, after, m', after', n', rs[i].cursor, rs'[i].cursor);
      }
    }
  }

  lemma CutFollows(v: View, c: OthersChange, a: seq<OpRow>, m: nat, b: seq<OpRow>, n: nat,
                   after: seq<OpRow>, m': nat, after': seq<OpRow>, n': nat, cursor: int, cursor': int)
    requires SameCut(a, b, cursor, cursor') && cursor <= m && cursor' <= n
    requires Carries(c, a, m, b, n, after, m', after', n') && Strip(v, a) == Strip(v, b)
    ensures SameCut(after, after', cursor, cursor')
  {
    match c
    case Kept =>
    case Grown(rows, rows') =>
      forall row | row in rows ensures Number(row) > cursor {
        var j :| 0 <= j < |rows| && rows[j] == row;
      }
      forall row | row in rows' ensures Number(row) > cursor' {
        var j :| 0 <= j < |rows'| && rows'[j] == row;
      }
      CutAppend(a, b, cursor, cursor', rows, rows');
    case Shrunk(other) =>
      StripAt(v, a, b);
      forall i | 0 <= i < |a| ensures a[i].scope == b[i].scope {
        SameBesidesNumber(v, a[i], b[i]);
      }
      CutSelect(NotOfUser(other), a, b, cursor, cursor');
  }

  // ---------------------------------------------------------------- the user's own transactions

  ghost predicate Unnoticed(v: View, user: string, a: Tables, after: Tables, b: Tables) {
    && Alike(v, user, after, b)
    && Others(user, after) == Others(user, a) && a.counter <= after.counter
  }

  lemma OwnPush(v: View, limits: Limits, user: string, a: System, b: System, e: Event)
    requires Alike(v, user, a.db, b.db) && e.PushEvent? && e.device.scope.user == user
    ensures Unnoticed(v, user, a.db, Next(limits, a, e).db, b.db)
  {
    var after := Next(limits, a, e).db;
    if after != a.db {
      assert after == Committed(a.db, e.device, e.request, e.at);
      OwnCommit(v, user, a.db, b.db, e);
    }
  }

  lemma CommittedTables(t: Tables, d: Device, req: PushRequest, at: Timestamp)
    ensures var added := Fresh(t.ops, req.ops);
            var after := Committed(t, d, req, at);
            && after.ops == t.ops + NewRows(d, req.key, at, t.counter + 1, added)
            && after.counter == t.counter + |added| && after.refs == t.refs
            && after.replies == if req.key == "" then t.replies
                                else t.replies[KeyOf(d, req) := StoredReply(FreshReply(t, d, req), at)]
  {}

  lemma NewRowsOf(d: Device, key: string, at: Timestamp, first: nat, added: seq<Operation>)
    ensures forall row | row in NewRows(d, key, at, first, added) :: row.scope == d.scope && Number(row) >= first
  {
    forall row | row in NewRows(d, key, at, first, added) ensures row.scope == d.scope && Number(row) >= first {
      NewRowsMember(d, key, at, first, added, row);
    }
  }

  lemma OwnCommit(v: View, user: string, a: Tables, b: Tables, e: Event)
    requires Alike(v, user, a, b) && e.PushEvent? && e.device.scope.user == user
    ensures Unnoticed(v, user, a, Committed(a, e.device, e.request, e.at), b)
  {
    var added := Fresh(a.ops, e.request.ops);
    CommittedTables(a, e.device, e.request, e.at);
    NewRowsOf(e.device, e.request.key, e.at, a.counter + 1, added);
    OwnRowsAreErased(user, a.ops, NewRows(e.device, e.request.key, e.at, a.counter + 1, added));
    OwnReplyIsErased(user, a.replies, KeyOf(e.device, e.request),
                     StoredReply(FreshReply(a, e.device, e.request), e.at));
  }

  lemma UploadOnOwnRefs(limits: Limits, user: string, refs: seq<RefRow>, e: Event)
    requires e.UploadEvent? && e.scope.user == user
    ensures RefsWithout(user, UploadOnRefs(limits, refs, e).0) == RefsWithout(user, refs)
  {
    TouchAndErase(user, refs, e.scope, Digest(e.content), e.at);
    OwnRefIsErased(user, refs, RefRow(e.scope, Digest(e.content), |e.content|, e.at, e.at));
  }

  lemma OwnUpload(v: View, limits: Limits, user: string, a: System, b: System, e: Event)
    requires Alike(v, user, a.db, b.db) && e.UploadEvent? && e.scope.user == user
    ensures Unnoticed(v, user, a.db, Next(limits, a, e).db, b.db)
  {
    UploadReadsRefsOnly(limits, a, e);
    UploadOnOwnRefs(limits, user, a.db.refs, e);
  }

  lemma OwnDeletion(v: View, limits: Limits, user: string, a: System, b: System, e: Event)
    requires Alike(v, user, a.db, b.db) && e.DeleteUserEvent? && e.user == user
    ensures Unnoticed(v, user, a.db, Next(limits, a, e).db, b.db)
  {
    if !e.fails {
      var after := WithoutUser(a.db, user);
      SelectWithin(NotOfUser(user), NotOfUser(user), a.db.ops);
      EraseAgain(user, a.db.refs);
      assert RepliesWithout(user, after.replies) == RepliesWithout(user, a.db.replies);
    }
  }

  lemma OwnEvent(v: View, limits: Limits, user: string, a: System, b: System, e: Event)
    requires Alike(v, user, a.db, b.db) && Writes(e, user)
    ensures Unnoticed(v, user, a.db, Next(limits, a, e).db, b.db)
  {
    match e
    case PushEvent(_, _, _, _) => OwnPush(v, limits, user, a, b, e);
    case UploadEvent(_, _, _, _) => OwnUpload(v, limits, user, a, b, e);
    case DownloadEvent(_, _, _, _) => TouchAndErase(user, a.db.refs, e.scope, e.sha, e.at);
    case DeleteUserEvent(_, _) => OwnDeletion(v, limits, user, a, b, e);
  }

  // ---------------------------------------------------------------- everyone else's transactions

  ghost predicate SameStep(v: View, limits: Limits, user: string, a: System, b: System, e: Event, e': Event,
                           c: OthersChange) {
    var after, after' := Next(limits, a, e).db, Next(limits, b, e').db;
    && Visible(v, Step(limits, a, e).1) == Visible(v, Step(limits, b, e').1)
    && Alike(v, user, after, after')
    && Carries(c, Others(user, a.db), a.db.counter, b.db.ops, b.db.counter,
               Others(user, after), after.counter, after'.ops, after'.counter)
  }

  /** Whether a push is refused, replayed or carried out does not depend on the user, whatever the ids. */
  lemma SameDecision(v: View, limits: Limits, user: string, a: Tables, b: Tables, e: Event, e': Event)
    requires Alike(v, user, a, b) && Resent(v, Others(user, a), b.ops, e, e') && e.device.scope.user != user
    ensures Refusal(limits, a, e.device, e.request) == Refusal(limits, b, e'.device, e'.request)
    ensures IsReplay(a, e.device, e.request) <==> IsReplay(b, e'.device, e'.request)
    ensures IsReplay(a, e.device, e.request) ==>
              Shown(v, a.replies[KeyOf(e.device, e.request)].reply)
              == Shown(v, b.replies[KeyOf(e'.device, e'.request)].reply)
  {
    forall h: Sha ensures RefSize(a.refs, e.device.scope, h) == RefSize(b.refs, e.device.scope, h) {
      RefsWithoutSize(user, a.refs, e.device.scope, h);
    }
    ChecksResemble(limits, v, e.request.ops, e'.request.ops);
    ReferencesResemble(v, a.refs, b.refs, e.device.scope, e.request.ops, e'.request.ops);
    ShownAt(v, user, a.replies, b.replies, KeyOf(e.device, e.request));
  }

  /** The ids of the log with the user's rows are those of the log without, and the user's. */
  lemma AlikeIds(v: View, user: string, a: Tables, b: Tables, id: string)
    requires Alike(v, user, a, b)
    ensures id in OpIds(a.ops) <==> id in OpIds(b.ops) || id in OpIds(Select(OfUser(user), a.ops))
  {
    var others, own := Others(user, a), Select(OfUser(user), a.ops);
    StripIds(v, others);
    StripIds(v, b.ops);
    assert OpIds(others) == OpIds(b.ops);
    forall row ensures row in a.ops <==> row in others || row in own {
      SelectMember(NotOfUser(user), a.ops, row);
      SelectMember(OfUser(user), a.ops, row);
    }
  }

  /** Without a clash the same operations of a batch are new in both runs. */
  lemma FreshWithoutClash(v: View, user: string, a: Tables, b: Tables, ops: seq<Operation>, ops': seq<Operation>)
    requires Alike(v, user, a, b) && BatchResembles(v, ops, ops')
    requires forall op | op in ops :: op.opId !in OpIds(Select(OfUser(user), a.ops))
    ensures Blanks(v, Fresh(a.ops, ops)) == Blanks(v, Fresh(b.ops, ops'))
  {
    forall op | op in ops ensures op.opId in OpIds(a.ops) <==> op.opId in OpIds(b.ops) {
      AlikeIds(v, user, a, b, op.opId);
    }
    FreshResembles(v, a.ops, b.ops, ops, ops');
  }

  /** The user's rows never show in the conflicts of someone else. */
  lemma {:induction false} ConflictsOfOthers(user: string, log: seq<OpRow>, d: Device, ops: seq<Operation>)
    requires d.scope.user != user
    ensures Conflicts(Select(NotOfUser(user), log), d, ops) == Conflicts(log, d, ops)
  {
    if ops != [] {
      var op := ops[|ops| - 1];
      ConflictsOfOthers(user, log, d, ops[..|ops| - 1]);
      RivalsAreOthers(user, log, d, op);
      assert ConflictsOf(Select(NotOfUser(user), log), d, op) == ConflictsOf(log, d, op);
    }
  }

  lemma RivalsAreOthers(user: string, log: seq<OpRow>, d: Device, op: Operation)
    requires d.scope.user != user
    ensures Select(RivalsOf(d, op), Select(NotOfUser(user), log)) == Select(RivalsOf(d, op), log)
  {
    SelectWithin(RivalsOf(d, op), NotOfUser(user), log);
  }

  lemma FreshRepliesAlike(v: View, user: string, a: Tables, b: Tables, e: Event, e': Event)
    requires LogInv(a) && LogInv(b) && Alike(v, user, a, b)
    requires Resent(v, Others(user, a), b.ops, e, e') && e.device.scope.user != user
    requires Blanks(v, Fresh(a.ops, e.request.ops)) == Blanks(v, Fresh(b.ops, e'.request.ops))
    requires !v.Bare? ==> !BatchSlips(Others(user, a), b.ops, e.device, e.request.ops, e'.request.ops)
    ensures Shown(v, FreshReply(a, e.device, e.request)) == Shown(v, FreshReply(b, e'.device, e'.request))
  {
    BlankIds(v, Fresh(a.ops, e.request.ops), Fresh(b.ops, e'.request.ops));
    if !v.Bare? {
      ConflictsOfOthers(user, a.ops, e.device, e.request.ops);
      ConflictsAlike(v, Others(user, a), b.ops, e.device, e.request.ops, e'.request.ops);
    }
  }

  lemma CommittedLog(t: Tables, d: Device, req: PushRequest, at: Timestamp)
    ensures var added, after := Fresh(t.ops, req.ops), Committed(t, d, req, at);
            after.ops == t.ops + NewRows(d, req.key, at, t.counter + 1, added) && after.counter == t.counter + |added|
  {}

  lemma NewRowsAscend(d: Device, key: string, at: Timestamp, first: nat, added: seq<Operation>)
    ensures var rows := NewRows(d, key, at, first, added);
            |rows| == |added| && forall j | 0 <= j < |rows| :: Number(rows[j]) == first + j
  {}

  lemma BlanksSize(v: View, ops: seq<Operation>)
    ensures |Blanks(v, ops)| == |ops|
  {}

  /** New rows for the others extend both logs alike. */
  lemma RowsExtend(v: View, user: string, d: Device, key: string, at: Timestamp, a: seq<OpRow>, m: nat,
                   b: seq<OpRow>, n: nat, added: seq<Operation>, added': seq<Operation>) returns (c: OthersChange)
    requires Strip(v, Select(NotOfUser(user), a)) == Strip(v, b) && Blanks(v, added) == Blanks(v, added')
    requires d.scope.user != user
    ensures var after := Select(NotOfUser(user), a + NewRows(d, key, at, m + 1, added));
            var after' := b + NewRows(d, key, at, n + 1, added');
            && Strip(v, after) == Strip(v, after')
            && Carries(c, Select(NotOfUser(user), a), m, b, n, after, m + |added|, after', n + |added'|)
  {
    var rows, rows' := NewRows(d, key, at, m + 1, added), NewRows(d, key, at, n + 1, added');
    c := Grown(rows, rows');
    NewRowsAscend(d, key, at, m + 1, added);
    NewRowsAscend(d, key, at, n + 1, added');
    BlanksSize(v, added);
    BlanksSize(v, added');
    NewRowsOf(d, key, at, m + 1, added);
    OtherRowsStay(user, a, rows);
    StripNewRows(v, d, key, at, m + 1, n + 1, added, added');
    StripAppend(v, Select(NotOfUser(user), a), rows);
    StripAppend(v, b, rows');
  }

  lemma LogsAfterCommit(v: View, user: string, a: Tables, b: Tables, e: Event, e': Event) returns (c: OthersChange)
    requires Alike(v, user, a, b) && Resent(v, Others(user, a), b.ops, e, e') && e.device.scope.user != user
    requires Blanks(v, Fresh(a.ops, e.request.ops)) == Blanks(v, Fresh(b.ops, e'.request.ops))
    ensures var after, after' := Committed(a, e.device, e.request, e.at), Committed(b, e'.device, e'.request, e'.at);
            && Strip(v, Others(user, after)) == Strip(v, after'.ops)
            && Carries(c, Others(user, a), a.counter, b.ops, b.counter,
                       Others(user, after), after.counter, after'.ops, after'.counter)
  {
    CommittedLog(a, e.device, e.request, e.at);
    CommittedLog(b, e'.device, e'.request, e'.at);
    c := RowsExtend(v, user, e.device, e.request.key, e.at, a.ops, a.counter, b.ops, b.counter,
                    Fresh(a.ops, e.request.ops), Fresh(b.ops, e'.request.ops));
  }

  lemma AlikeAfterCommit(v: View, user: string, a: Tables, b: Tables, e: Event, e': Event) returns (c: OthersChange)
    requires LogInv(a) && LogInv(b) && Alike(v, user, a, b)
    requires Resent(v, Others(user, a), b.ops, e, e') && e.device.scope.user != user
    requires Blanks(v, Fresh(a.ops, e.request.ops)) == Blanks(v, Fresh(b.ops, e'.request.ops))
    requires !v.Bare? ==> !BatchSlips(Others(user, a), b.ops, e.device, e.request.ops, e'.request.ops)
    ensures var after, after' := Committed(a, e.device, e.request, e.at), Committed(b, e'.device, e'.request, e'.at);
            && Alike(v, user, after, after')
            && Carries(c, Others(user, a), a.counter, b.ops, b.counter,
                       Others(user, after), after.counter, after'.ops, after'.counter)
  {
    c := LogsAfterCommit(v, user, a, b, e, e');
    FreshRepliesAlike(v, user, a, b, e, e');
    CommittedTables(a, e.device, e.request, e.at);
    CommittedTables(b, e'.device, e'.request, e'.at);
    StoredAlike(v, user, a.replies, b.replies, KeyOf(e.device, e.request),
                StoredReply(FreshReply(a, e.device, e.request), e.at),
                StoredReply(FreshReply(b, e'.device, e'.request), e.at));
  }

  /** The two ways a push can go. */
  lemma PushCases(limits: Limits, s: System, e: Event)
    requires e.PushEvent?
    ensures CarriedOut(limits, s, e) ==>
              && Next(limits, s, e) == s.(db := Committed(s.db, e.device, e.request, e.at))
              && Step(limits, s, e).1 == Pushed(Replied(FreshReply(s.db, e.device, e.request)))
    ensures !CarriedOut(limits, s, e) ==>
              && Next(limits, s, e) == s
              && Step(limits, s, e).1 == Pushed(
                   if e.fails then InternalError
                   else if Refusal(limits, s.db, e.device, e.request) != ""
                     then Rejected(Refusal(limits, s.db, e.device, e.request))
                   else Replied(s.db.replies[KeyOf(e.device, e.request)].reply))
  {}

  lemma SameCarriedOut(v: View, limits: Limits, user: string, a: System, b: System, e: Event, e': Event)
    requires Alike(v, user, a.db, b.db)
    requires Resent(v, Others(user, a.db), b.db.ops, e, e') && e.device.scope.user != user
    ensures CarriedOut(limits, a, e) <==> CarriedOut(limits, b, e')
  {
    SameDecision(v, limits, user, a.db, b.db, e, e');
  }

  lemma CarriedOutAnswer(limits: Limits, s: System, e: Event)
    requires CarriedOut(limits, s, e)
    ensures Next(limits, s, e) == s.(db := Committed(s.db, e.device, e.request, e.at))
    ensures Step(limits, s, e).1 == Pushed(Replied(FreshReply(s.db, e.device, e.request)))
  {}

  lemma NotCarriedOutAlike(v: View, limits: Limits, user: string, a: System, b: System, e: Event, e': Event)
    requires Alike(v, user, a.db, b.db) && Resent(v, Others(user, a.db), b.db.ops, e, e')
    requires e.device.scope.user != user && !CarriedOut(limits, a, e)
    ensures Next(limits, a, e) == a && Next(limits, b, e') == b
    ensures Visible(v, Step(limits, a, e).1) == Visible(v, Step(limits, b, e').1)
  {
    SameDecision(v, limits, user, a.db, b.db, e, e');
    PushCases(limits, a, e);
    PushCases(limits, b, e');
  }

  lemma OtherPush(v: View, limits: Limits, user: string, a: System, b: System, e: Event, e': Event)
    returns (c: OthersChange)
    requires SystemInv(a) && SystemInv(b) && Alike(v, user, a.db, b.db)
    requires Resent(v, Others(user, a.db), b.db.ops, e, e') && e' == Twin(v, Others(user, a.db), b.db.ops, e)
    requires e.device.scope.user != user && !Disturbs(v, limits, user, a, b, e)
    ensures SameStep(v, limits, user, a, b, e, e', c)
  {
    if CarriedOut(limits, a, e) {
      SameCarriedOut(v, limits, user, a, b, e, e');
      CarriedOutAnswer(limits, a, e);
      CarriedOutAnswer(limits, b, e');
      c := CarriedOutAlike(v, limits, user, a.db, b.db, e, e');
    } else {
      c := Kept;
      NotCarriedOutAlike(v, limits, user, a, b, e, e');
    }
  }

  lemma CarriedOutAlike(v: View, limits: Limits, user: string, a: Tables, b: Tables, e: Event, e': Event)
    returns (c: OthersChange)
    requires LogInv(a) && LogInv(b) && Alike(v, user, a, b)
    requires Resent(v, Others(user, a), b.ops, e, e') && e.device.scope.user != user
    requires forall op | op in e.request.ops :: op.opId !in OpIds(Select(OfUser(user), a.ops))
    requires !v.Bare? ==> !BatchSlips(Others(user, a), b.ops, e.device, e.request.ops, e'.request.ops)
    ensures var after, after' := Committed(a, e.device, e.request, e.at), Committed(b, e'.device, e'.request, e'.at);
            && Shown(v, FreshReply(a, e.device, e.request)) == Shown(v, FreshReply(b, e'.device, e'.request))
            && Alike(v, user, after, after')
            && Carries(c, Others(user, a), a.counter, b.ops, b.counter,
                       Others(user, after), after.counter, after'.ops, after'.counter)
  {
    FreshWithoutClash(v, user, a, b, e.request.ops, e'.request.ops);
    FreshRepliesAlike(v, user, a, b, e, e');
    c := AlikeAfterCommit(v, user, a, b, e, e');
  }

  /** A clash shows at once: the operation is accepted without the user and ignored with the user. */
  lemma ClashShows(v: View, limits: Limits, user: string, a: System, b: System, e: Event, e': Event)
    requires SystemInv(a) && SystemInv(b) && Alike(v, user, a.db, b.db)
    requires Resent(v, Others(user, a.db), b.db.ops, e, e') && Clash(limits, user, a, e)
    ensures Visible(v, Step(limits, a, e).1) != Visible(v, Step(limits, b, e').1)
  {
    var op :| op in e.request.ops && op.opId in OpIds(Select(OfUser(user), a.db.ops));
    SameCarriedOut(v, limits, user, a, b, e, e');
    CarriedOutAnswer(limits, a, e);
    CarriedOutAnswer(limits, b, e');
    AcceptedDiffers(v, user, a.db, b.db, e, e', op);
    DifferentAnswers(v, FreshReply(a.db, e.device, e.request), FreshReply(b.db, e'.device, e'.request));
  }

  /** So does a slip: a conflict is reported with the user and not without. */
  lemma SlipShows(v: View, limits: Limits, user: string, a: System, b: System, e: Event, e': Event)
    requires Alike(v, user, a.db, b.db) && !v.Bare? && Slip(v, limits, user, a, b, e)
    requires Resent(v, Others(user, a.db), b.db.ops, e, e') && e' == Twin(v, Others(user, a.db), b.db.ops, e)
    ensures Visible(v, Step(limits, a, e).1) != Visible(v, Step(limits, b, e').1)
  {
    SameCarriedOut(v, limits, user, a, b, e, e');
    CarriedOutAnswer(limits, a, e);
    CarriedOutAnswer(limits, b, e');
    ConflictsOfOthers(user, a.db.ops, e.device, e.request.ops);
    ConflictsAlike(v, Others(user, a.db), b.db.ops, e.device, e.request.ops, e'.request.ops);
    DifferentAnswers(v, FreshReply(a.db, e.device, e.request), FreshReply(b.db, e'.device, e'.request));
  }

  lemma DifferentAnswers(v: View, r: PushReply, r': PushReply)
    requires r.accepted != r'.accepted || (!v.Bare? && Named(r.conflicts) != Named(r'.conflicts))
    ensures Visible(v, Pushed(Replied(r))) != Visible(v, Pushed(Replied(r')))
  {}

  lemma AcceptedDiffers(v: View, user: string, a: Tables, b: Tables, e: Event, e': Event, op: Operation)
    requires LogInv(a) && Alike(v, user, a, b) && Resent(v, Others(user, a), b.ops, e, e')
    requires op in e.request.ops && op.opId in OpIds(Select(OfUser(user), a.ops))
    ensures FreshReply(a, e.device, e.request).accepted != FreshReply(b, e'.device, e'.request).accepted
  {
    AlikeIds(v, user, a, b, op.opId);
    UsersIdsDiffer(v, user, a, b, op.opId);
    SameIds(v, e.request.ops, e'.request.ops);
    var i :| 0 <= i < |e.request.ops| && e.request.ops[i] == op;
    assert Ids(e.request.ops)[i] == op.opId;
    AcceptedAreTheNewIds(a, e.device, e.request, op.opId);
    AcceptedAreTheNewIds(b, e'.device, e'.request, op.opId);
  }

  lemma SameIds(v: View, ops: seq<Operation>, ops': seq<Operation>)
    requires BatchResembles(v, ops, ops')
    ensures Ids(ops) == Ids(ops')
  {
    forall i | 0 <= i < |ops| ensures ops[i].opId == ops'[i].opId {
      ResemblesFields(v, ops[i], ops'[i]);
    }
  }

  lemma UsersIdsDiffer(v: View, user: string, a: Tables, b: Tables, id: string)
    requires LogInv(a) && Alike(v, user, a, b) && id in OpIds(Select(OfUser(user), a.ops))
    ensures id !in OpIds(b.ops)
  {
    StripIds(v, Others(user, a));
    StripIds(v, b.ops);
    if id in OpIds(Others(user, a)) {
      var row :| row in Others(user, a) && row.op.opId == id;
      SelectMember(NotOfUser(user), a.ops, row);
      OwnersOfIds(user, a.ops);
    }
  }

  lemma OtherUpload(v: View, limits: Limits, user: string, a: System, b: System, e: Event)
    requires Alike(v, user, a.db, b.db) && e.UploadEvent? && e.scope.user != user
    ensures SameStep(v, limits, user, a, b, e, e, Kept)
  {
    UploadReadsRefsOnly(limits, a, e);
    UploadReadsRefsOnly(limits, b, e);
    UploadOnRefsErased(limits, user, a.db.refs, e);
  }

  /** A download depends on the reference alone, since a referenced file has the content its hash names. */
  lemma DownloadIsByRef(s: System, scope: Scope, sha: Sha)
    requires SystemInv(s)
    ensures Download(s.db, s.files, scope, sha)
         == if RefSize(s.db.refs, scope, sha).Some? && sha.Digest? then Some(sha.content) else None
  {
    RefSizeFound(s.db.refs, scope, sha);
  }

  predicate CanFetch(refs: seq<RefRow>, e: Event)
    requires e.DownloadEvent?
  {
    !e.fails && RefSize(refs, e.scope, e.sha).Some? && e.sha.Digest?
  }

  lemma DownloadCases(limits: Limits, s: System, e: Event)
    requires SystemInv(s) && e.DownloadEvent?
    ensures CanFetch(s.db.refs, e) ==>
              && Next(limits, s, e).db == s.db.(refs := Touch(s.db.refs, e.scope, e.sha, e.at))
              && Step(limits, s, e).1 == Downloaded(Some(e.sha.content))
    ensures !CanFetch(s.db.refs, e) ==>
              Next(limits, s, e) == s && Step(limits, s, e).1 == if e.fails then Done(true) else Downloaded(None)
  {
    DownloadIsByRef(s, e.scope, e.sha);
  }

  lemma OtherDownload(v: View, limits: Limits, user: string, a: System, b: System, e: Event)
    requires SystemInv(a) && SystemInv(b) && Alike(v, user, a.db, b.db) && e.DownloadEvent? && e.scope.user != user
    ensures SameStep(v, limits, user, a, b, e, e, Kept)
  {
    DownloadCases(limits, a, e);
    DownloadCases(limits, b, e);
    RefsWithoutSize(user, a.db.refs, e.scope, e.sha);
    if CanFetch(a.db.refs, e) {
      TouchAndErase(user, a.db.refs, e.scope, e.sha, e.at);
    }
  }

  lemma OtherDeletion(v: View, limits: Limits, user: string, a: System, b: System, e: Event) returns (c: OthersChange)
    requires Alike(v, user, a.db, b.db) && e.DeleteUserEvent? && e.user != user
    ensures SameStep(v, limits, user, a, b, e, e, c)
  {
    c := Kept;
    if !e.fails {
      c := Shrunk(e.user);
      EraseOpsTwice(user, e.user, a.db.ops);
      SelectStripped(v, NotOfUser(e.user), Others(user, a.db), b.db.ops);
      EraseTwice(user, e.user, a.db.refs);
      RepliesErasedTwice(v, user, e.user, a.db.replies, b.db.replies);
    }
  }

  lemma SharedRetention(v: View, limits: Limits, user: string, a: System, b: System, e: Event)
    requires Alike(v, user, a.db, b.db) && e.ExpireRepliesEvent?
    ensures SameStep(v, limits, user, a, b, e, e, Kept)
  {
    RepliesExpireAlike(v, user, a.db.replies, b.db.replies, e.cutoff);
  }

  lemma OtherEvent(v: View, limits: Limits, user: string, a: System, b: System, e: Event) returns (c: OthersChange)
    requires SystemInv(a) && SystemInv(b) && Alike(v, user, a.db, b.db) && Lower(Others(user, a.db), b.db.ops)
    requires !Writes(e, user) && !Disturbs(v, limits, user, a, b, e)
    ensures SameStep(v, limits, user, a, b, e, Twin(v, Others(user, a.db), b.db.ops, e), c)
  {
    c := Kept;
    match e
    case PushEvent(_, _, _, _) =>
      OthersNumbered(user, a.db);
      TwinIsResent(v, Others(user, a.db), b.db.ops, a.db.counter, b.db.counter, e);
      c := OtherPush(v, limits, user, a, b, e, Twin(v, Others(user, a.db), b.db.ops, e));
    case UploadEvent(_, _, _, _) => OtherUpload(v, limits, user, a, b, e);
    case DownloadEvent(_, _, _, _) => OtherDownload(v, limits, user, a, b, e);
    case DeleteUserEvent(_, _) => c := OtherDeletion(v, limits, user, a, b, e);
    case ExpireRepliesEvent(_, _) => SharedRetention(v, limits, user, a, b, e);
  }

  // ---------------------------------------------------------------- steps of the two worlds

  lemma OwnWorldStep(v: View, limits: Limits, user: string, w: World, w': World, e: WorldEvent)
    requires AlikeWorlds(v, user, w, w') && IsBy(e, user)
    ensures AlikeWorlds(v, user, WorldNext(limits, w, e), w')
  {
    var a, after := w.system.db, Next(limits, w.system, e.event).db;
    OwnEvent(v, limits, user, w.system, w'.system, e.event);
    ReplicasFollow(v, user, Kept, Others(user, a), a.counter, w'.system.db.ops, w'.system.db.counter,
                   Others(user, after), after.counter, w'.system.db.ops, w'.system.db.counter, w.replicas, w'.replicas);
  }

  ghost predicate SameWorldStep(v: View, limits: Limits, user: string, w: World, w': World, e: WorldEvent,
                                e': WorldEvent) {
    && Observe(v, limits, user, w, e) == Observe(v, limits, user, w', e')
    && AlikeWorlds(v, user, WorldNext(limits, w, e), WorldNext(limits, w', e'))
  }

  lemma ServeAlike(v: View, limits: Limits, user: string, w: World, w': World, e: WorldEvent)
    requires Sound(w, w') && AlikeWorlds(v, user, w, w')
    requires e.Serve? && !Writes(e.event, user) && !Disturbs(v, limits, user, w.system, w'.system, e.event)
    ensures SameWorldStep(v, limits, user, w, w', e, WorldTwin(v, user, w, w', e))
  {
    var a, b := w.system.db, w'.system.db;
    var e' := Twin(v, Others(user, a), b.ops, e.event);
    var c := OtherEvent(v, limits, user, w.system, w'.system, e.event);
    var after, after' := Next(limits, w.system, e.event).db, Next(limits, w'.system, e').db;
    ReplicasFollow(v, user, c, Others(user, a), a.counter, b.ops, b.counter,
                   Others(user, after), after.counter, after'.ops, after'.counter, w.replicas, w'.replicas);
    LowerFollows(v, c, Others(user, a), a.counter, b.ops, b.counter,
                 Others(user, after), after.counter, after'.ops, after'.counter);
  }

  lemma PageOfOthers(user: string, log: seq<OpRow>, scope: Scope, since: int, limit: nat, n: nat)
    requires scope.user != user
    ensures Page(Select(NotOfUser(user), log), scope, since, limit, n) == Page(log, scope, since, limit, n)
  {
    SelectWithin(After(scope, since), NotOfUser(user), log);
  }

  /** Pulls at the same place give the same rows up to their sequences and stay at the same place. */
  lemma PullsAlike(v: View, limits: Limits, user: string, a: System, b: System, r: Replica, r': Replica, pageLimit: int)
    requires SystemInv(a) && SystemInv(b) && Alike(v, user, a.db, b.db)
    requires AlikeReplica(v, user, Others(user, a.db), a.db.counter, b.db.ops, b.db.counter, r, r')
    requires r.scope.user != user && PullPageLimit(limits, pageLimit) >= 0
    ensures var limit := PullPageLimit(limits, pageLimit);
            SeenInPage(v, Page(a.db.ops, r.scope, r.cursor, limit, ServerSequence(a.db.ops, r.scope)))
            == SeenInPage(v, Page(b.db.ops, r.scope, r'.cursor, limit, ServerSequence(b.db.ops, r.scope)))
    ensures AlikeReplica(v, user, Others(user, a.db), a.db.counter, b.db.ops, b.db.counter,
                         PullInto(limits, a, r, pageLimit), PullInto(limits, b, r', pageLimit))
  {
    var limit := PullPageLimit(limits, pageLimit);
    var n, n' := ServerSequence(a.db.ops, r.scope), ServerSequence(b.db.ops, r.scope);
    OthersNumbered(user, a.db);
    PageOfOthers(user, a.db.ops, r.scope, r.cursor, limit, n);
    PagesAlike(v, Others(user, a.db), b.db.ops, a.db.counter, b.db.counter, r.scope, r.cursor, r'.cursor, limit, n, n');
    StripAppend(v, r.held, Page(a.db.ops, r.scope, r.cursor, limit, n).ops);
    StripAppend(v, r'.held, Page(b.db.ops, r.scope, r'.cursor, limit, n').ops);
  }

  lemma PullStep(v: View, limits: Limits, user: string, w: World, w': World, e: WorldEvent)
    requires Sound(w, w') && AlikeWorlds(v, user, w, w') && e.Pull?
    ensures SameWorldStep(v, limits, user, w, w', e, e)
  {
    var i := e.replica;
    if i < |w.replicas| {
      var r, r' := w.replicas[i], w'.replicas[i];
      assert AlikeReplica(v, user, Others(user, w.system.db), w.system.db.counter,
                          w'.system.db.ops, w'.system.db.counter, r, r');
      if r.scope.user != user && PullPageLimit(limits, e.pageLimit) >= 0 {
        PullsAlike(v, limits, user, w.system, w'.system, r, r', e.pageLimit);
      }
    }
  }

  lemma JoinStep(v: View, limits: Limits, user: string, w: World, w': World, e: WorldEvent)
    requires Sound(w, w') && AlikeWorlds(v, user, w, w') && e.Join?
    ensures SameWorldStep(v, limits, user, w, w', e, e)
  {
    OthersNumbered(user, w.system.db);
    StripAt(v, Others(user, w.system.db), w'.system.db.ops);
  }

  lemma OtherWorldStep(v: View, limits: Limits, user: string, w: World, w': World, e: WorldEvent)
    requires Sound(w, w') && AlikeWorlds(v, user, w, w') && !IsBy(e, user)
    requires !(e.Serve? && Disturbs(v, limits, user, w.system, w'.system, e.event))
    ensures SameWorldStep(v, limits, user, w, w', e, WorldTwin(v, user, w, w', e))
  {
    match e
    case Serve(_) => ServeAlike(v, limits, user, w, w', e);
    case Join(_) => JoinStep(v, limits, user, w, w', e);
    case Pull(_, _) => PullStep(v, limits, user, w, w', e);
  }

  lemma DisturbanceShows(v: View, limits: Limits, user: string, w: World, w': World, e: WorldEvent)
    requires Sound(w, w') && AlikeWorlds(v, user, w, w')
    requires e.Serve? && Disturbs(v, limits, user, w.system, w'.system, e.event)
    ensures Observe(v, limits, user, w, e) != Observe(v, limits, user, w', WorldTwin(v, user, w, w', e))
  {
    var a, b := w.system.db, w'.system.db;
    var e' := Twin(v, Others(user, a), b.ops, e.event);
    OthersNumbered(user, a);
    TwinIsResent(v, Others(user, a), b.ops, a.counter, b.counter, e.event);
    if Clash(limits, user, w.system, e.event) {
      ClashShows(v, limits, user, w.system, w'.system, e.event, e');
    } else {
      SlipShows(v, limits, user, w.system, w'.system, e.event, e');
    }
  }

  lemma NextIsSound(limits: Limits, w: World, e: WorldEvent)
    requires SystemInv(w.system)
    ensures SystemInv(WorldNext(limits, w, e).system)
  {
    if e.Serve? {
      StepKeepsInv(limits, w.system, e.event);
    }
  }

  // ---------------------------------------------------------------- the two runs

  /** Noninterference, exactly: from any two worlds that agree on the others' data, the others see the same in both
      runs if and only if no event disturbs in the states it meets; and then they are left with the same data and
      the same replicas. */
  lemma {:induction false} RunsAlike(v: View, limits: Limits, user: string, w: World, w': World, es: seq<WorldEvent>)
    requires Sound(w, w') && AlikeWorlds(v, user, w, w')
    ensures var es' := Without(v, limits, user, w, w', es);
            && (Undisturbed(v, limits, user, w, w', es) <==>
                  Trace(v, limits, user, w, es) == Trace(v, limits, user, w', es'))
            && (Undisturbed(v, limits, user, w, w', es) ==>
                  AlikeWorlds(v, user, WorldRun(limits, w, es), WorldRun(limits, w', es')))
    decreases es
  {
    if es != [] {
      var e, rest, next := es[0], es[1..], WorldNext(limits, w, es[0]);
      NextIsSound(limits, w, e);
      if IsBy(e, user) {
        OwnWorldStep(v, limits, user, w, w', e);
        RunsAlike(v, limits, user, next, w', rest);
      } else {
        var e' := WorldTwin(v, user, w, w', e);
        var next' := WorldNext(limits, w', e');
        var es', rest' := Without(v, limits, user, w, w', es), Without(v, limits, user, next, next', rest);
        assert es' == [e'] + rest' && es'[0] == e' && es'[1..] == rest';
        NextIsSound(limits, w', e');
        TraceStep(v, limits, user, w, es);
        TraceStep(v, limits, user, w', es');
        if e.Serve? && Disturbs(v, limits, user, w.system, w'.system, e.event) {
          DisturbanceShows(v, limits, user, w, w', e);
          assert Trace(v, limits, user, w, es)[0] != Trace(v, limits, user, w', es')[0];
        } else {
          OtherWorldStep(v, limits, user, w, w', e);
          RunsAlike(v, limits, user, next, next', rest);
          SameHead(Observe(v, limits, user, w, e), Trace(v, limits, user, next, rest),
                   Trace(v, limits, user, next', rest'));
        }
      }
    }
  }

  lemma TraceStep(v: View, limits: Limits, user: string, w: World, es: seq<WorldEvent>)
    requires es != [] && !IsBy(es[0], user)
    ensures Trace(v, limits, user, w, es)
         == [Observe(v, limits, user, w, es[0])] + Trace(v, limits, user, WorldNext(limits, w, es[0]), es[1..])
  {}

  lemma SameHead(head: Sight, a: seq<Sight>, b: seq<Sight>)
    ensures [head] + a == [head] + b <==> a == b
  {
    assert ([head] + a)[1..] == a && ([head] + b)[1..] == b;
  }

  // ---------------------------------------------------------------- the same requests without the user

  const START := World(INITIAL, [])

  lemma StartAlike(v: View, user: string)
    ensures Sound(START, START) && AlikeWorlds(v, user, START, START)
  {}

  /** Without a translation the run is just the erased one. */
  lemma {:induction false} WithoutIsErase(v: View, limits: Limits, user: string, w: World, w': World,
                                          es: seq<WorldEvent>)
    requires !v.Renumbered?
    ensures Without(v, limits, user, w, w', es) == Erase(user, es)
    decreases es
  {
    if es != [] {
      var next := WorldNext(limits, w, es[0]);
      WithoutIsErase(v, limits, user, next, if IsBy(es[0], user) then w' else WorldNext(limits, w', es[0]), es[1..]);
      assert WorldTwin(v, user, w, w', es[0]) == es[0];
    }
  }

  /** Leaving conflicts out, only clashes disturb. */
  lemma {:induction false} BareIsClashFree(limits: Limits, user: string, w: World, w': World, es: seq<WorldEvent>)
    ensures Undisturbed(Bare, limits, user, w, w', es) <==> ClashFree(limits, user, w, es)
    decreases es
  {
    if es != [] {
      var next := WorldNext(limits, w, es[0]);
      BareIsClashFree(limits, user, next,
                      if IsBy(es[0], user) then w' else WorldNext(limits, w', WorldTwin(Bare, user, w, w', es[0])),
                      es[1..]);
    }
  }

  /** For every run from an empty store: erasing one user's transactions changes no page, no download and no answer
      of anyone else, up to sequences and leaving the conflict lists of push replies out, if and only if no event of
      the run clashes in the state it meets. */
  lemma {:induction false} UnobservableIffClashFree(limits: Limits, user: string, es: seq<WorldEvent>)
    ensures Trace(Bare, limits, user, START, es) == Trace(Bare, limits, user, START, Erase(user, es))
       <==> ClashFree(limits, user, START, es)
  {
    StartAlike(Bare, user);
    WithoutIsErase(Bare, limits, user, START, START, es);
    BareIsClashFree(limits, user, START, START, es);
    RunsAlike(Bare, limits, user, START, START, es);
  }

  /** With the conflict lists: up to sequences, erasing a user changes nothing that anyone else sees if and only if
      no event clashes and none slips. SlipIsBetweenNumbers says what slipping is. */
  lemma {:induction false} UnobservableIffUndisturbed(limits: Limits, user: string, es: seq<WorldEvent>)
    ensures Trace(AsSent, limits, user, START, es) == Trace(AsSent, limits, user, START, Erase(user, es))
       <==> Undisturbed(AsSent, limits, user, START, START, es)
  {
    StartAlike(AsSent, user);
    WithoutIsErase(AsSent, limits, user, START, START, es);
    RunsAlike(AsSent, limits, user, START, START, es);
  }

  /** The last seen sequence of an operation lies between a rival's sequence and the lower one that the rival has
      without the user. */
  predicate Overtaken(a: seq<OpRow>, b: seq<OpRow>, d: Device, op: Operation) {
    exists i | 0 <= i < |a| && i < |b| :: IsRival(d, op, a[i]) && Number(b[i]) <= op.lastSeen < Number(a[i])
  }

  /** Erasing only lowers sequences, so requests as sent slip exactly when they are carried out for someone else and
      an operation of theirs is overtaken. */
  lemma SlipIsBetweenNumbers(limits: Limits, user: string, w: World, w': World, e: Event)
    requires Sound(w, w') && AlikeWorlds(AsSent, user, w, w')
    ensures Slip(AsSent, limits, user, w.system, w'.system, e) <==>
            && CarriedOut(limits, w.system, e) && e.device.scope.user != user
            && exists op | op in e.request.ops :: Overtaken(Others(user, w.system.db), w'.system.db.ops, e.device, op)
  {
    if CarriedOut(limits, w.system, e) {
      var a, b, ops := Others(user, w.system.db), w'.system.db.ops, e.request.ops;
      OthersNumbered(user, w.system.db);
      forall j | 0 <= j < |ops| ensures Slips(a, b, e.device, ops[j], ops[j]) <==> Overtaken(a, b, e.device, ops[j]) {
        SlipsAsSent(AsSent, a, b, w.system.db.counter, w'.system.db.counter, e.device, ops[j]);
      }
      if op :| op in ops && Overtaken(a, b, e.device, op) {
        var j :| 0 <= j < |ops| && ops[j] == op;
        assert Slips(a, b, e.device, ops[j], ops[j]);
      }
    }
  }

  /** The others' data after both runs: their logs agree row by row up to the sequences, which ascend in both,
      a strictly increasing renumbering; their tombstones and references are the same; and each of their
      devices holds the same rows up to sequences. */
  ghost predicate SameData(v: View, user: string, w: World, w': World) {
    && Strip(v, Others(user, w.system.db)) == Strip(v, w'.system.db.ops)
    && Numbered(Others(user, w.system.db), w.system.db.counter) && Numbered(w'.system.db.ops, w'.system.db.counter)
    && TombstonesWithout(user, w.system.db.tombstones) == w'.system.db.tombstones
    && RefsWithout(user, w.system.db.refs) == w'.system.db.refs
    && |w.replicas| == |w'.replicas|
    && forall i | 0 <= i < |w.replicas| && w.replicas[i].scope.user != user ::
         w.replicas[i].scope == w'.replicas[i].scope && Strip(v, w.replicas[i].held) == Strip(v, w'.replicas[i].held)
  }

  lemma AlikeMeansSameData(v: View, user: string, w: World, w': World)
    requires Sound(w, w') && AlikeWorlds(v, user, w, w')
    ensures SameData(v, user, w, w')
  {
    var a, b := w.system.db, w'.system.db;
    OthersNumbered(user, a);
    TombstonesFollowOps(user, a.ops);
    BuryStripped(v, map[], Others(user, a), b.ops);
    forall i | 0 <= i < |w.replicas| && w.replicas[i].scope.user != user
      ensures w.replicas[i].scope == w'.replicas[i].scope
              && Strip(v, w.replicas[i].held) == Strip(v, w'.replicas[i].held)
    {
      assert AlikeReplica(v, user, Others(user, a), a.counter, b.ops, b.counter, w.replicas[i], w'.replicas[i]);
    }
  }

  lemma {:induction false} WorldRunIsSound(limits: Limits, w: World, es: seq<WorldEvent>)
    requires SystemInv(w.system)
    ensures SystemInv(WorldRun(limits, w, es).system)
    decreases es
  {
    if es != [] {
      NextIsSound(limits, w, es[0]);
      WorldRunIsSound(limits, WorldNext(limits, w, es[0]), es[1..]);
    }
  }

  /** And if no event clashes, everyone else is left with the same data. */
  lemma {:induction false} ClashFreeKeepsData(limits: Limits, user: string, es: seq<WorldEvent>)
    requires ClashFree(limits, user, START, es)
    ensures SameData(Bare, user, WorldRun(limits, START, es), WorldRun(limits, START, Erase(user, es)))
  {
    StartAlike(Bare, user);
    WithoutIsErase(Bare, limits, user, START, START, es);
    BareIsClashFree(limits, user, START, START, es);
    RunsAlike(Bare, limits, user, START, START, es);
    WorldRunIsSound(limits, START, es);
    WorldRunIsSound(limits, START, Erase(user, es));
    AlikeMeansSameData(Bare, user, WorldRun(limits, START, es), WorldRun(limits, START, Erase(user, es)));
  }

  // ---------------------------------------------------------------- disjoint ids

  /** `ids` separates the user's op ids from those of everyone else. */
  predicate Separates(ids: set<string>, user: string, e: WorldEvent) {
    e.Serve? && e.event.PushEvent? ==>
      forall op | op in e.event.request.ops :: op.opId in ids <==> e.event.device.scope.user == user
  }

  ghost predicate OwnIdsIn(ids: set<string>, user: string, t: Tables) {
    forall row | row in t.ops && row.scope.user == user :: row.op.opId in ids
  }

  lemma {:induction false} SeparatedNeverClash(limits: Limits, ids: set<string>, user: string, w: World,
                                               es: seq<WorldEvent>)
    requires OwnIdsIn(ids, user, w.system.db) && forall e | e in es :: Separates(ids, user, e)
    ensures ClashFree(limits, user, w, es)
    decreases es
  {
    if es != [] {
      var e, next := es[0], WorldNext(limits, w, es[0]);
      if e.Serve? {
        forall row | row in Select(OfUser(user), w.system.db.ops) ensures row.op.opId in ids {
          SelectMember(OfUser(user), w.system.db.ops, row);
        }
        assert Separates(ids, user, e);
        assert !Clash(limits, user, w.system, e.event);
        forall row | row in next.system.db.ops && row.scope.user == user ensures row.op.opId in ids {
          RowAfterStep(limits, w.system, e.event, row);
        }
      }
      SeparatedNeverClash(limits, ids, user, next, es[1..]);
    }
  }

  /** When the user's op ids are disjoint from everyone else's, erasing the user changes nobody's data, and nothing
      that anyone sees but for conflict lists, which agree too, up to sequences, if and only if nothing slips. */
  lemma {:induction false} ErasingAUserIsUnobservable(limits: Limits, ids: set<string>, user: string,
                                                      es: seq<WorldEvent>)
    requires forall e | e in es :: Separates(ids, user, e)
    ensures Trace(Bare, limits, user, START, es) == Trace(Bare, limits, user, START, Erase(user, es))
    ensures SameData(Bare, user, WorldRun(limits, START, es), WorldRun(limits, START, Erase(user, es)))
    ensures Trace(AsSent, limits, user, START, es) == Trace(AsSent, limits, user, START, Erase(user, es))
       <==> SlipFree(limits, user, START, START, es)
  {
    SeparatedNeverClash(limits, ids, user, START, es);
    UnobservableIffClashFree(limits, user, es);
    ClashFreeKeepsData(limits, user, es);
    UnobservableIffUndisturbed(limits, user, es);
    ClashesAndSlips(limits, user, START, START, es);
  }

  /** No request as sent slips in the states it meets. */
  ghost predicate SlipFree(limits: Limits, user: string, w: World, w': World, es: seq<WorldEvent>)
    decreases es
  {
    es != [] ==>
      && !(es[0].Serve? && Slip(AsSent, limits, user, w.system, w'.system, es[0].event))
      && SlipFree(limits, user, WorldNext(limits, w, es[0]),
                  if IsBy(es[0], user) then w' else WorldNext(limits, w', es[0]), es[1..])
  }

  lemma {:induction false} ClashesAndSlips(limits: Limits, user: string, w: World, w': World, es: seq<WorldEvent>)
    ensures Undisturbed(AsSent, limits, user, w, w', es) <==>
            ClashFree(limits, user, w, es) && SlipFree(limits, user, w, w', es)
    decreases es
  {
    if es != [] {
      assert WorldTwin(AsSent, user, w, w', es[0]) == es[0];
      ClashesAndSlips(limits, user, WorldNext(limits, w, es[0]),
                      if IsBy(es[0], user) then w' else WorldNext(limits, w', es[0]), es[1..]);
    }
  }

  // ---------------------------------------------------------------- a shared id

  /** A push of one operation, under no key, that passes on an empty store. */
  predicate IsSinglePush(limits: Limits, e: Event) {
    && e.PushEvent? && !e.fails && e.request.key == ""
    && |e.request.ops| == 1 && e.request.ops[0].entityType != "file"
    && ValidateSyncPush(limits, e.request) == ""
  }

  /** And without a last seen sequence. */
  predicate IsPlainPush(limits: Limits, e: Event) {
    IsSinglePush(limits, e) && e.request.ops[0].lastSeen == 0
  }

  lemma PlainPush(limits: Limits, s: System, e: Event)
    requires IsPlainPush(limits, e)
    ensures var op := e.request.ops[0];
            var (s', outcome) := Step(limits, s, e);
            && outcome == Pushed(Replied(PushReply(if op.opId in OpIds(s.db.ops) then [] else [op.opId], [])))
            && op.opId in OpIds(s'.db.ops)
  {
    var op := e.request.ops[0];
    assert e.request.ops == [op] && e.request.ops[..0] == [] && e.request.ops[1..] == [];
    assert CheckReferences(s.db.refs, e.device.scope, e.request.ops) == "";
    assert Fresh(s.db.ops, e.request.ops) == if op.opId in OpIds(s.db.ops) then [] else [op];
    assert Conflicts(s.db.ops, e.device, e.request.ops) == [];
    assert Ids([op]) == [op.opId] && Ids([]) == [];
    assert Ids(e.request.ops) == [op.opId];
    FreshCovers(s.db.ops, e.request.ops, op.opId);
    LoggedIds(s.db, e.device, e.request.key, e.at, e.request.ops, op.opId);
  }

  /** With a shared id, the order decides: after their push ours is left out, before it nothing shows. */
  lemma SharedIdsInterfere(limits: Limits, theirs: Event, ours: Event)
    requires IsPlainPush(limits, theirs) && IsPlainPush(limits, ours)
    requires theirs.device.scope.user != ours.device.scope.user
    requires theirs.request.ops[0].opId == ours.request.ops[0].opId
    ensures var user, first, second := theirs.device.scope.user,
              [Serve(theirs), Serve(ours)], [Serve(ours), Serve(theirs)];
            && Trace(Bare, limits, user, START, first) != Trace(Bare, limits, user, START, Erase(user, first))
            && Trace(Bare, limits, user, START, second) == Trace(Bare, limits, user, START, Erase(user, second))
  {
    var user, first, second := theirs.device.scope.user, [Serve(theirs), Serve(ours)], [Serve(ours), Serve(theirs)];
    PlainPushClashes(limits, user, theirs, ours);
    ClashFreeOfTwo(limits, user, theirs, ours);
    ClashFreeOfTwo(limits, user, ours, theirs);
    UnobservableIffClashFree(limits, user, first);
    UnobservableIffClashFree(limits, user, second);
  }

  lemma ClashFreeOfTwo(limits: Limits, user: string, first: Event, second: Event)
    ensures ClashFree(limits, user, START, [Serve(first), Serve(second)])
       <==> !Clash(limits, user, INITIAL, first) && !Clash(limits, user, Next(limits, INITIAL, first), second)
  {
    var next := WorldNext(limits, START, Serve(first));
    assert next.system == Next(limits, INITIAL, first);
    assert [Serve(first), Serve(second)][1..] == [Serve(second)];
    assert ClashFree(limits, user, next, [Serve(second)]) <==> !Clash(limits, user, next.system, second) by {
      assert [Serve(second)][1..] == [];
      assert ClashFree(limits, user, WorldNext(limits, next, Serve(second)), []);
    }
  }

  lemma PlainPushClashes(limits: Limits, user: string, theirs: Event, ours: Event)
    requires IsPlainPush(limits, theirs) && IsPlainPush(limits, ours)
    requires theirs.device.scope.user == user != ours.device.scope.user
    requires theirs.request.ops[0].opId == ours.request.ops[0].opId
    ensures Clash(limits, user, Next(limits, INITIAL, theirs), ours)
    ensures !Clash(limits, user, INITIAL, ours)
  {
    var s := Next(limits, INITIAL, theirs);
    PlainPush(limits, INITIAL, theirs);
    PlainPush(limits, s, ours);
    var row :| row in s.db.ops && row.op.opId == theirs.request.ops[0].opId;
    RowAfterStep(limits, INITIAL, theirs, row);
    SelectMember(OfUser(user), s.db.ops, row);
    assert ours.request.ops[0] in ours.request.ops;
  }

  // ---------------------------------------------------------------- a sequence in between

  ghost predicate AppendsRow(s: System, s': System, e: Event) {
    && e.PushEvent? && |e.request.ops| == 1
    && s'.db.ops == s.db.ops + [RowOf(e.device, "", e.at, s.db.counter + 1, e.request.ops[0])]
    && s'.db.counter == s.db.counter + 1
  }

  /** A single push with a new id is carried out and appends one row. */
  lemma SinglePush(limits: Limits, s: System, e: Event)
    requires IsSinglePush(limits, e) && e.request.ops[0].opId !in OpIds(s.db.ops)
    ensures CarriedOut(limits, s, e) && AppendsRow(s, Next(limits, s, e), e)
  {
    var op := e.request.ops[0];
    assert e.request.ops == [op] && e.request.ops[..0] == [] && e.request.ops[1..] == [];
    assert CheckReferences(s.db.refs, e.device.scope, e.request.ops) == "";
    assert Fresh(s.db.ops, e.request.ops) == [op];
    CarriedOutAnswer(limits, s, e);
    CommittedTables(s.db, e.device, e.request, e.at);
    assert NewRows(e.device, "", e.at, s.db.counter + 1, [op]) == [RowOf(e.device, "", e.at, s.db.counter + 1, op)];
  }

  /** Two devices of someone else push on one entity, the second after it has seen sequence 1. */
  predicate ArePushesOnOneEntity(limits: Limits, first: Event, second: Event) {
    && IsPlainPush(limits, first) && IsSinglePush(limits, second)
    && second.device.scope == first.device.scope && second.device.id != first.device.id
    && var op, op' := first.request.ops[0], second.request.ops[0];
       op'.lastSeen == 1 && op.entityType == op'.entityType && op.entityId == op'.entityId && !IsDelete(op)
  }

  /** A user can show with all op ids different: their push moves the first operation from sequence 1 to 2, past what
      the second has seen, and the second is told of a conflict. */
  lemma LastSeenInterferes(limits: Limits, theirs: Event, first: Event, second: Event)
    requires IsPlainPush(limits, theirs) && ArePushesOnOneEntity(limits, first, second)
    requires theirs.device.scope.user != first.device.scope.user
    requires var a, b, c := theirs.request.ops[0].opId, first.request.ops[0].opId, second.request.ops[0].opId;
             a != b && a != c && b != c
    ensures var user, es := theirs.device.scope.user, [Serve(theirs), Serve(first), Serve(second)];
            && ClashFree(limits, user, START, es)
            && Trace(AsSent, limits, user, START, es) != Trace(AsSent, limits, user, START, Erase(user, es))
  {
    var user, es := theirs.device.scope.user, [Serve(theirs), Serve(first), Serve(second)];
    ThreeIdsNeverClash(limits, theirs, first, second);
    TheirPushMovesFirst(limits, theirs, first, second);
    ThirdDisturbs(limits, user, theirs, first, second);
    UnobservableIffUndisturbed(limits, user, es);
  }

  lemma TheirPushMovesFirst(limits: Limits, theirs: Event, first: Event, second: Event)
    requires IsPlainPush(limits, theirs) && ArePushesOnOneEntity(limits, first, second)
    requires theirs.device.scope.user != first.device.scope.user
    requires var a, b, c := theirs.request.ops[0].opId, first.request.ops[0].opId, second.request.ops[0].opId;
             a != b && a != c && b != c
    ensures Slip(AsSent, limits, theirs.device.scope.user, Next(limits, Next(limits, INITIAL, theirs), first),
                 Next(limits, INITIAL, first), second)
  {
    SinglePush(limits, INITIAL, theirs);
    SinglePush(limits, INITIAL, first);
    NextPush(limits, Next(limits, INITIAL, theirs), theirs, first);
    MovedFirst(limits, Next(limits, INITIAL, theirs), Next(limits, Next(limits, INITIAL, theirs), first),
               Next(limits, INITIAL, first), theirs, first, second);
  }

  lemma NextPush(limits: Limits, s: System, theirs: Event, first: Event)
    requires AppendsRow(INITIAL, s, theirs) && IsSinglePush(limits, first)
    requires theirs.request.ops[0].opId != first.request.ops[0].opId
    ensures AppendsRow(s, Next(limits, s, first), first)
  {
    OneRowsIds(INITIAL, s, theirs);
    SinglePush(limits, s, first);
  }

  lemma MovedFirst(limits: Limits, s1: System, s2: System, t: System, theirs: Event, first: Event, second: Event)
    requires AppendsRow(INITIAL, s1, theirs) && AppendsRow(s1, s2, first) && AppendsRow(INITIAL, t, first)
    requires ArePushesOnOneEntity(limits, first, second) && theirs.device.scope.user != first.device.scope.user
    requires second.request.ops[0].opId != theirs.request.ops[0].opId
    requires second.request.ops[0].opId != first.request.ops[0].opId
    ensures Slip(AsSent, limits, theirs.device.scope.user, s2, t, second)
  {
    LogsOfTwo(s1, s2, t, theirs, first);
    SecondSlips(limits, theirs.device.scope.user, s2, t, first, second);
  }

  lemma ThreeIdsNeverClash(limits: Limits, theirs: Event, first: Event, second: Event)
    requires forall e | e in [theirs, first, second] :: e.PushEvent? && |e.request.ops| == 1
    requires theirs.device.scope.user != first.device.scope.user && theirs.device.scope.user != second.device.scope.user
    requires theirs.request.ops[0].opId != first.request.ops[0].opId
    requires theirs.request.ops[0].opId != second.request.ops[0].opId
    ensures ClashFree(limits, theirs.device.scope.user, START, [Serve(theirs), Serve(first), Serve(second)])
  {
    var user, es := theirs.device.scope.user, [Serve(theirs), Serve(first), Serve(second)];
    var ids := {theirs.request.ops[0].opId};
    forall e | e in es ensures Separates(ids, user, e) {
      assert e.event in [theirs, first, second];
    }
    SeparatedNeverClash(limits, ids, user, START, es);
  }

  lemma SecondSlips(limits: Limits, user: string, s: System, t: System, first: Event, second: Event)
    requires ArePushesOnOneEntity(limits, first, second) && user != first.device.scope.user
    requires Others(user, s.db) == [RowOf(first.device, "", first.at, 2, first.request.ops[0])]
    requires t.db.ops == [RowOf(first.device, "", first.at, 1, first.request.ops[0])]
    requires second.request.ops[0].opId !in OpIds(s.db.ops)
    ensures Slip(AsSent, limits, user, s, t, second)
  {
    var op, late, early := second.request.ops[0], Others(user, s.db), t.db.ops;
    SinglePush(limits, s, second);
    LaterIsReported(second.device, first.device, first.at, first.request.ops[0], op);
    assert Reports(second.device, op, late[0]) && !Reports(second.device, op, early[0]);
    assert Slips(late, early, second.device, second.request.ops[0], second.request.ops[0]);
  }

  lemma OneRowsIds(s: System, s': System, e: Event)
    requires s.db.ops == [] && AppendsRow(s, s', e)
    ensures OpIds(s'.db.ops) == {e.request.ops[0].opId}
  {
    assert s'.db.ops == [RowOf(e.device, "", e.at, s.db.counter + 1, e.request.ops[0])];
  }

  /** The log of two pushes, and of the second of them alone. */
  lemma LogsOfTwo(s1: System, s2: System, t: System, theirs: Event, first: Event)
    requires AppendsRow(INITIAL, s1, theirs) && AppendsRow(s1, s2, first) && AppendsRow(INITIAL, t, first)
    requires theirs.device.scope.user != first.device.scope.user
    ensures Others(theirs.device.scope.user, s2.db) == [RowOf(first.device, "", first.at, 2, first.request.ops[0])]
    ensures OpIds(s2.db.ops) == {theirs.request.ops[0].opId, first.request.ops[0].opId}
    ensures t.db.ops == [RowOf(first.device, "", first.at, 1, first.request.ops[0])]
  {
    var row := RowOf(theirs.device, "", theirs.at, 1, theirs.request.ops[0]);
    var late := RowOf(first.device, "", first.at, 2, first.request.ops[0]);
    assert s2.db.ops == [row] + [late];
    TwoRows(theirs.device.scope.user, row, late);
  }

  lemma TwoRows(user: string, row: OpRow, late: OpRow)
    requires row.scope.user == user != late.scope.user
    ensures Select(NotOfUser(user), [row] + [late]) == [late]
    ensures OpIds([row] + [late]) == {row.op.opId, late.op.opId}
  {
    SelectAppend(NotOfUser(user), [row], [late]);
    SelectNone(NotOfUser(user), [row]);
    SelectAll(NotOfUser(user), [late]);
    OpIdsAppend([row], [late]);
    assert OpIds([row]) == {row.op.opId} && OpIds([late]) == {late.op.opId};
  }

  lemma LaterIsReported(d: Device, other: Device, at: Timestamp, op: Operation, op': Operation)
    requires d.scope == other.scope && d.id != other.id && !IsDelete(op) && op'.lastSeen == 1
    requires op.entityType == op'.entityType && op.entityId == op'.entityId
    ensures Reports(d, op', RowOf(other, "", at, 2, op)) && !Reports(d, op', RowOf(other, "", at, 1, op))
  {}

  lemma ThirdDisturbs(limits: Limits, user: string, first: Event, second: Event, third: Event)
    requires Writes(first, user) && !Writes(second, user)
    requires Slip(AsSent, limits, user, Next(limits, Next(limits, INITIAL, first), second),
                  Next(limits, INITIAL, second), third)
    ensures !Undisturbed(AsSent, limits, user, START, START, [Serve(first), Serve(second), Serve(third)])
  {
    var es := [Serve(first), Serve(second), Serve(third)];
    var w1 := WorldNext(limits, START, es[0]);
    var w2, w2' := WorldNext(limits, w1, es[1]), WorldNext(limits, START, es[1]);
    assert es[1..] == [es[1], es[2]] && [es[1], es[2]][1..] == [es[2]];
    assert WorldTwin(AsSent, user, w1, START, es[1]) == es[1];
    assert !Writes(third, user);
    assert !Undisturbed(AsSent, limits, user, w2, w2', [es[2]]);
    assert !Undisturbed(AsSent, limits, user, w1, START, [es[1], es[2]]);
  }

  // ---------------------------------------------------------------- renumbered requests

  /** Every last seen sequence that someone else sends is 0 or reaches a row that is not the user's. */
  predicate NamesRows(limits: Limits, user: string, w: World, es: seq<WorldEvent>)
    decreases es
  {
    es != [] ==>
      && (es[0].Serve? && es[0].event.PushEvent? && es[0].event.device.scope.user != user ==>
            forall op | op in es[0].event.request.ops :: NamesARow(Others(user, w.system.db), op.lastSeen))
      && NamesRows(limits, user, WorldNext(limits, w, es[0]), es[1..])
  }

  lemma NoSlipWhenRowsAreNamed(limits: Limits, user: string, w: World, w': World, e: Event)
    requires Sound(w, w') && AlikeWorlds(View.Renumbered, user, w, w')
    requires e.PushEvent? && e.device.scope.user != user ==>
               forall op | op in e.request.ops :: NamesARow(Others(user, w.system.db), op.lastSeen)
    ensures !Slip(View.Renumbered, limits, user, w.system, w'.system, e)
  {
    if CarriedOut(limits, w.system, e) && e.device.scope.user != user {
      var a, b, ops := Others(user, w.system.db), w'.system.db.ops, e.request.ops;
      var ops' := Translate(a, b, ops);
      OthersNumbered(user, w.system.db);
      TwinIsResent(View.Renumbered, a, b, w.system.db.counter, w'.system.db.counter, e);
      forall j | 0 <= j < |ops| ensures !Slips(a, b, e.device, ops[j], ops'[j]) {
        assert ops[j] in ops && Resembles(View.Renumbered, ops[j], ops'[j]);
        SlipsTranslated(View.Renumbered, a, b, w.system.db.counter, w'.system.db.counter, e.device, ops[j], ops'[j]);
      }
    }
  }

  lemma {:induction false} NamedRowsNeverSlip(limits: Limits, user: string, w: World, w': World, es: seq<WorldEvent>)
    requires Sound(w, w') && AlikeWorlds(View.Renumbered, user, w, w') && NamesRows(limits, user, w, es)
    ensures Undisturbed(View.Renumbered, limits, user, w, w', es) <==> ClashFree(limits, user, w, es)
    decreases es
  {
    if es != [] {
      var e, rest, next := es[0], es[1..], WorldNext(limits, w, es[0]);
      NextIsSound(limits, w, e);
      if IsBy(e, user) {
        OwnWorldStep(View.Renumbered, limits, user, w, w', e);
        NamedRowsNeverSlip(limits, user, next, w', rest);
      } else {
        var e' := WorldTwin(View.Renumbered, user, w, w', e);
        NextIsSound(limits, w', e');
        if e.Serve? {
          NoSlipWhenRowsAreNamed(limits, user, w, w', e.event);
        }
        if !(e.Serve? && Clash(limits, user, w.system, e.event)) {
          OtherWorldStep(View.Renumbered, limits, user, w, w', e);
          NamedRowsNeverSlip(limits, user, next, WorldNext(limits, w', e'), rest);
        }
      }
    }
  }

  /** If the others' last seen sequences are translated to the numbering of the run without the user, everything
      they see is the same, conflict lists up to their sequences, if and only if nothing clashes or slips. As long as
      every last seen sequence is 0 or reaches a row of someone else, as those that a pull hands out do, nothing
      slips, and clashes alone decide. */
  lemma {:induction false} ConflictsAreUnobservable(limits: Limits, user: string, es: seq<WorldEvent>)
    ensures var es' := Without(View.Renumbered, limits, user, START, START, es);
            && (Undisturbed(View.Renumbered, limits, user, START, START, es) <==>
                  Trace(View.Renumbered, limits, user, START, es) == Trace(View.Renumbered, limits, user, START, es'))
            && (Undisturbed(View.Renumbered, limits, user, START, START, es) ==>
                  SameData(View.Renumbered, user, WorldRun(limits, START, es), WorldRun(limits, START, es')))
    ensures NamesRows(limits, user, START, es) ==>
              (Undisturbed(View.Renumbered, limits, user, START, START, es) <==> ClashFree(limits, user, START, es))
  {
    var es' := Without(View.Renumbered, limits, user, START, START, es);
    StartAlike(View.Renumbered, user);
    RunsAlike(View.Renumbered, limits, user, START, START, es);
    if NamesRows(limits, user, START, es) {
      NamedRowsNeverSlip(limits, user, START, START, es);
    }
    if Undisturbed(View.Renumbered, limits, user, START, START, es) {
      WorldRunIsSound(limits, START, es);
      WorldRunIsSound(limits, START, es');
      AlikeMeansSameData(View.Renumbered, user, WorldRun(limits, START, es), WorldRun(limits, START, es'));
    }
  }
}

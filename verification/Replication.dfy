/**
 Pulling: pages of a scope's log, and the replicas that devices build from them while
 other devices push.
 */
module Replication {
  import opened Schema
  import opened Relay

  datatype PullReply = PullReply(serverSequence: nat, pageLast: int, hasMore: bool, ops: seq<OpRow>)

  function PullPageLimit(limits: Limits, requested: int): int {
    if requested <= 0 || requested > limits.maxPullPage then limits.maxPullPage else requested
  }

  /** SELECT COALESCE(MAX(server_sequence), 0) over some rows. */
  function MaxSequence(rows: seq<OpRow>): nat {
    if rows == [] then 0
    else
      var earlier, last := MaxSequence(rows[..|rows| - 1]), Number(rows[|rows| - 1]);
      if last > earlier then last else earlier
  }

  /** The first read of a pull. */
  function ServerSequence(log: seq<OpRow>, scope: Scope): nat {
    MaxSequence(Select(InScope(scope), log))
  }

  function Take(rows: seq<OpRow>, n: nat): seq<OpRow> {
    if n <= |rows| then rows[..n] else rows
  }

  /** The second read: one row more than the page is asked for, to see whether there is more. */
  function Page(log: seq<OpRow>, scope: Scope, since: int, limit: nat, serverSequence: nat): PullReply {
    var fetched := Take(Select(After(scope, since), log), limit + 1);
    var hasMore := |fetched| > limit;
    var ops := if hasMore then fetched[..limit] else fetched;
    PullReply(serverSequence, if ops == [] then since else Number(ops[|ops| - 1]), hasMore, ops)
  }

  // ---------------------------------------------------------------- one page

  lemma {:induction false} CutAt(rows: seq<OpRow>, scope: Scope, cursor: int, k: nat)
    requires k <= |rows| && forall i | 0 <= i < |rows| :: rows[i].scope == scope && rows[i].sequence.Some?
    requires forall i | 0 <= i < |rows| :: Number(rows[i]) <= cursor <==> i < k
    ensures Select(UpTo(scope, cursor), rows) == rows[..k]
    ensures Select(After(scope, cursor), rows) == rows[k..]
  {
    if rows != [] {
      var before, row := rows[..|rows| - 1], rows[|rows| - 1];
      CutAt(before, scope, cursor, if k == |rows| then k - 1 else k);
      assert rows == before + [row];
    }
  }

  lemma ScopeLogShape(log: seq<OpRow>, counter: nat, scope: Scope)
    requires Numbered(log, counter)
    ensures var rows := Select(InScope(scope), log);
            && Numbered(rows, counter)
            && forall i | 0 <= i < |rows| :: rows[i].scope == scope
  {
    var rows := Select(InScope(scope), log);
    SelectOrdered(InScope(scope), log, counter);
    forall i | 0 <= i < |rows| ensures rows[i].scope == scope {
      SelectMember(InScope(scope), log, rows[i]);
    }
  }

  /** Where a cursor cuts a scope's log. */
  lemma CutOfLog(log: seq<OpRow>, counter: nat, scope: Scope, cursor: int) returns (k: nat)
    requires Numbered(log, counter)
    ensures var rows := Select(InScope(scope), log);
            && k <= |rows|
            && Select(UpTo(scope, cursor), log) == rows[..k]
            && Select(After(scope, cursor), log) == rows[k..]
            && (forall i | 0 <= i < |rows| :: Number(rows[i]) <= cursor <==> i < k)
  {
    var rows := Select(InScope(scope), log);
    ScopeLogShape(log, counter, scope);
    k := 0;
    while k < |rows| && Number(rows[k]) <= cursor
      invariant k <= |rows| && forall i | 0 <= i < k :: Number(rows[i]) <= cursor
    {
      k := k + 1;
    }
    CutAt(rows, scope, cursor, k);
    SelectWithin(UpTo(scope, cursor), InScope(scope), log);
    SelectWithin(After(scope, cursor), InScope(scope), log);
  }

  /** A page is the next stretch of the scope's log, with nothing skipped and nothing repeated:
      what was held up to the old cursor and the page together are the log up to the new one.
      A page that promises more has moved the cursor forward. */
  lemma PageExtends(log: seq<OpRow>, counter: nat, scope: Scope, since: int, limit: nat, n: nat)
    requires Numbered(log, counter)
    ensures var page := Page(log, scope, since, limit, n);
            && Select(UpTo(scope, page.pageLast), log) == Select(UpTo(scope, since), log) + page.ops
            && since <= page.pageLast
            && (page.ops != [] ==> since < page.pageLast <= counter)
            && (page.hasMore <==> |Select(After(scope, since), log)| > limit)
            && (page.hasMore ==> |page.ops| == limit)
            && (!page.hasMore ==> Select(After(scope, page.pageLast), log) == [])
  {
    var rest := Select(After(scope, since), log);
    PageOfRest(log, scope, since, limit, n, rest);
    PrefixExtends(log, counter, scope, since, |Page(log, scope, since, limit, n).ops|);
  }

  lemma SliceOfSlice<T>(s: seq<T>, k: nat, m: nat)
    requires k + m <= |s|
    ensures s[..k + m] == s[..k] + s[k..][..m] && s[k..][m..] == s[k + m..]
  {}

  /** Moving the cursor over the first m rows that remain. */
  lemma PrefixExtends(log: seq<OpRow>, counter: nat, scope: Scope, since: int, m: nat)
    requires Numbered(log, counter) && m <= |Select(After(scope, since), log)|
    ensures var rest := Select(After(scope, since), log);
            var last := if m == 0 then since else Number(rest[m - 1]);
            && Select(UpTo(scope, last), log) == Select(UpTo(scope, since), log) + rest[..m]
            && Select(After(scope, last), log) == rest[m..]
            && since <= last && (m > 0 ==> since < last <= counter)
  {
    var rows := Select(InScope(scope), log);
    ScopeLogShape(log, counter, scope);
    var k := CutOfLog(log, counter, scope, since);
    if m > 0 {
      assert rows[k..][m - 1] == rows[k + m - 1];
      CutAtRow(log, counter, scope, k + m);
      SliceOfSlice(rows, k, m);
    }
  }

  /** Taking a row's own sequence as the cursor cuts the scope's log right behind that row. */
  lemma CutAtRow(log: seq<OpRow>, counter: nat, scope: Scope, k: nat)
    requires Numbered(log, counter) && 0 < k <= |Select(InScope(scope), log)|
    ensures var rows := Select(InScope(scope), log);
            && Select(UpTo(scope, Number(rows[k - 1])), log) == rows[..k]
            && Select(After(scope, Number(rows[k - 1])), log) == rows[k..]
  {
    var rows := Select(InScope(scope), log);
    ScopeLogShape(log, counter, scope);
    var j := CutOfLog(log, counter, scope, Number(rows[k - 1]));
    CutIsUnique(rows, counter, Number(rows[k - 1]), j, k);
  }

  lemma CutIsUnique(rows: seq<OpRow>, counter: nat, cursor: int, j: nat, k: nat)
    requires Numbered(rows, counter) && j <= |rows| && 0 < k <= |rows| && Number(rows[k - 1]) == cursor
    requires forall i | 0 <= i < |rows| :: Number(rows[i]) <= cursor <==> i < j
    ensures j == k
  {
    assert k < |rows| ==> Number(rows[k]) > cursor;
  }

  lemma PageOfRest(log: seq<OpRow>, scope: Scope, since: int, limit: nat, n: nat, rest: seq<OpRow>)
    requires Select(After(scope, since), log) == rest
    ensures var page := Page(log, scope, since, limit, n);
            && (page.hasMore <==> |rest| > limit)
            && page.ops == rest[..if |rest| > limit then limit else |rest|]
            && page.pageLast == if page.ops == [] then since else Number(page.ops[|page.ops| - 1])
  {}

  /** The rows of a scope after a cursor. */
  function RowsAfter(log: seq<OpRow>, scope: Scope, since: int): set<OpRow> {
    set row | row in log && row.scope == scope && Number(row) > since
  }

  lemma OneMoreAfter(before: seq<OpRow>, row: OpRow, scope: Scope, since: int)
    requires row !in before
    ensures |RowsAfter(before + [row], scope, since)| ==
            |RowsAfter(before, scope, since)| + if row.scope == scope && Number(row) > since then 1 else 0
  {
    var rest := RowsAfter(before, scope, since);
    assert RowsAfter(before + [row], scope, since) ==
      if row.scope == scope && Number(row) > since then rest + {row} else rest;
  }

  lemma LastIsNew(log: seq<OpRow>, counter: nat)
    requires Numbered(log, counter) && log != []
    ensures log[|log| - 1] !in log[..|log| - 1]
  {}

  lemma {:induction false} AfterCount(log: seq<OpRow>, counter: nat, scope: Scope, since: int)
    requires Numbered(log, counter)
    ensures |Select(After(scope, since), log)| == |RowsAfter(log, scope, since)|
  {
    if log != [] {
      var before, row := log[..|log| - 1], log[|log| - 1];
      AfterCount(before, counter, scope, since);
      LastIsNew(log, counter);
      OneMoreAfter(before, row, scope, since);
      assert before + [row] == log;
    }
  }

  function Min(a: int, b: int): int {
    if a <= b then a else b
  }

  /** How long a page is. A page limit that is absent, negative or above the maximum means the maximum; the page has
      that many rows, or all that are left, and says whether more are. */
  lemma PageSize(log: seq<OpRow>, counter: nat, limits: Limits, scope: Scope, since: int, requested: int, n: nat)
    requires Numbered(log, counter) && limits.maxPullPage > 0
    ensures var page := Page(log, scope, since, PullPageLimit(limits, requested), n);
            var left := |RowsAfter(log, scope, since)|;
            && page.serverSequence == n
            && (requested <= 0 || requested > limits.maxPullPage ==>
                  |page.ops| == Min(left, limits.maxPullPage) && (page.hasMore <==> left > limits.maxPullPage))
            && (0 < requested <= limits.maxPullPage ==>
                  |page.ops| == Min(left, requested) && (page.hasMore <==> left > requested))
  {
    AfterCount(log, counter, scope, since);
    PageOfRest(log, scope, since, PullPageLimit(limits, requested), n, Select(After(scope, since), log));
  }

  // ---------------------------------------------------------------- replicas

  /** What a device has applied so far and the cursor it will pull from next. */
  datatype Replica = Replica(scope: Scope, cursor: int, held: seq<OpRow>)

  datatype World = World(system: System, replicas: seq<Replica>)

  datatype WorldEvent =
    | Serve(event: Event)                    // any transaction of the relay
    | Join(scope: Scope)                     // a newly paired device starts at cursor 0
    | Pull(replica: nat, pageLimit: int)     // a device applies one page and feeds back page_last_sequence

  function PullInto(limits: Limits, system: System, r: Replica, pageLimit: int): Replica {
    var limit := PullPageLimit(limits, pageLimit);
    if limit < 0 then r
    else
      var page := Page(system.db.ops, r.scope, r.cursor, limit, ServerSequence(system.db.ops, r.scope));
      Replica(r.scope, page.pageLast, r.held + page.ops)
  }

  function WorldNext(limits: Limits, w: World, e: WorldEvent): World {
    match e
    case Serve(event) => w.(system := Next(limits, w.system, event))
    case Join(scope) => w.(replicas := w.replicas + [Replica(scope, 0, [])])
    case Pull(i, pageLimit) =>
      if i >= |w.replicas| then w
      else w.(replicas := w.replicas[i := PullInto(limits, w.system, w.replicas[i], pageLimit)])
  }

  function WorldRun(limits: Limits, w: World, es: seq<WorldEvent>): World
    decreases es
  {
    if es == [] then w else WorldRun(limits, WorldNext(limits, w, es[0]), es[1..])
  }

  predicate UserStays(es: seq<WorldEvent>, user: string) {
    forall e | e in es :: e.Serve? ==> !Deletes(e.event, user)
  }

  /** A replica is the log of its scope up to its cursor. */
  ghost predicate InStep(w: World, r: Replica) {
    && r.cursor <= w.system.db.counter
    && r.held == Select(UpTo(r.scope, r.cursor), w.system.db.ops)
  }

  ghost predicate AllInStep(w: World, user: string) {
    forall r | r in w.replicas && r.scope.user == user :: InStep(w, r)
  }

  lemma ServeKeepsStep(limits: Limits, w: World, e: Event, r: Replica)
    requires SystemInv(w.system) && InStep(w, r) && !Deletes(e, r.scope.user)
    ensures InStep(w.(system := Next(limits, w.system, e)), r)
  {
    var before, after := w.system.db, Next(limits, w.system, e).db;
    var more := StepAppends(limits, w.system, e, r.scope);
    StepContinues(limits, w.system, e);
    var upTo := UpTo(r.scope, r.cursor);
    SelectWithin(upTo, InScope(r.scope), before.ops);
    SelectWithin(upTo, InScope(r.scope), after.ops);
    SelectAppend(upTo, Select(InScope(r.scope), before.ops), more);
    SelectNone(upTo, more);
  }

  lemma PullKeepsStep(limits: Limits, w: World, r: Replica, pageLimit: int)
    requires SystemInv(w.system) && InStep(w, r)
    ensures InStep(w, PullInto(limits, w.system, r, pageLimit))
  {
    var limit := PullPageLimit(limits, pageLimit);
    if limit >= 0 {
      PageExtends(w.system.db.ops, w.system.db.counter, r.scope, r.cursor, limit,
                  ServerSequence(w.system.db.ops, r.scope));
    }
  }

  lemma JoinInStep(w: World, scope: Scope)
    requires SystemInv(w.system)
    ensures InStep(w, Replica(scope, 0, []))
  {
    SelectNone(UpTo(scope, 0), w.system.db.ops);
  }

  lemma WorldStep(limits: Limits, w: World, e: WorldEvent, user: string)
    requires SystemInv(w.system) && AllInStep(w, user) && UserStays([e], user)
    ensures SystemInv(WorldNext(limits, w, e).system) && AllInStep(WorldNext(limits, w, e), user)
  {
    var w' := WorldNext(limits, w, e);
    assert e in [e];
    match e
    case Serve(event) =>
      StepKeepsInv(limits, w.system, event);
      forall r | r in w'.replicas && r.scope.user == user ensures InStep(w', r) {
        ServeKeepsStep(limits, w, event, r);
      }
    case Join(scope) =>
      JoinInStep(w, scope);
    case Pull(i, pageLimit) =>
      if i < |w.replicas| && w.replicas[i].scope.user == user {
        PullKeepsStep(limits, w, w.replicas[i], pageLimit);
      }
  }

  lemma {:induction false} WorldKeepsStep(limits: Limits, w: World, es: seq<WorldEvent>, user: string)
    requires SystemInv(w.system) && AllInStep(w, user) && UserStays(es, user)
    ensures var w' := WorldRun(limits, w, es); SystemInv(w'.system) && AllInStep(w', user)
    decreases es
  {
    if es != [] {
      WorldStep(limits, w, es[0], user);
      WorldKeepsStep(limits, WorldNext(limits, w, es[0]), es[1..], user);
    }
  }

  /** Replication: however pushes from any devices, uploads, other users' deletions, retention and
      pulls interleave, each replica holds exactly its scope's operations up to its cursor, in order. */
  lemma ReplicasFollowTheLog(limits: Limits, es: seq<WorldEvent>, r: Replica)
    requires UserStays(es, r.scope.user)
    requires r in WorldRun(limits, World(INITIAL, []), es).replicas
    ensures var log := WorldRun(limits, World(INITIAL, []), es).system.db.ops;
            && r.held == Select(UpTo(r.scope, r.cursor), log)
            && r.held <= Select(InScope(r.scope), log)
            && (forall row :: row in r.held <==> row in log && row.scope == r.scope && Number(row) <= r.cursor)
            && (forall i, j | 0 <= i < j < |r.held| :: Number(r.held[i]) < Number(r.held[j]))
  {
    var w := World(INITIAL, []);
    WorldKeepsStep(limits, w, es, r.scope.user);
    var db := WorldRun(limits, w, es).system.db;
    SelectSplit(r.scope, r.cursor, db.ops, db.counter);
    SelectOrdered(UpTo(r.scope, r.cursor), db.ops, db.counter);
    forall row ensures row in r.held <==> row in db.ops && row.scope == r.scope && Number(row) <= r.cursor {
      SelectMember(UpTo(r.scope, r.cursor), db.ops, row);
    }
  }

  /** Any two replicas of one scope agree as far as the shorter one goes. */
  lemma ReplicasArePrefixRelated(limits: Limits, es: seq<WorldEvent>, a: Replica, b: Replica)
    requires a.scope == b.scope && UserStays(es, a.scope.user)
    requires a in WorldRun(limits, World(INITIAL, []), es).replicas
    requires b in WorldRun(limits, World(INITIAL, []), es).replicas
    ensures if a.cursor <= b.cursor then a.held <= b.held else b.held <= a.held
  {
    var w := World(INITIAL, []);
    WorldKeepsStep(limits, w, es, a.scope.user);
    var db := WorldRun(limits, w, es).system.db;
    if a.cursor <= b.cursor {
      CutsNest(db.ops, db.counter, a.scope, a.cursor, b.cursor);
    } else {
      CutsNest(db.ops, db.counter, a.scope, b.cursor, a.cursor);
    }
  }

  lemma CutsNest(log: seq<OpRow>, counter: nat, scope: Scope, low: int, high: int)
    requires Numbered(log, counter) && low <= high
    ensures Select(UpTo(scope, low), log) <= Select(UpTo(scope, high), log)
  {
    var i := CutOfLog(log, counter, scope, low);
    var j := CutOfLog(log, counter, scope, high);
    var rows := Select(InScope(scope), log);
    assert j < |rows| ==> Number(rows[j]) > low;
    assert rows[..j][..i] == rows[..i];
  }

  // ---------------------------------------------------------------- draining

  /** The client loop: pull from page_last_sequence until has_more is false. */
  function Drain(log: seq<OpRow>, counter: nat, scope: Scope, since: int, limit: nat): seq<OpRow>
    requires Numbered(log, counter) && limit > 0
    decreases |Select(After(scope, since), log)|
  {
    var page := Page(log, scope, since, limit, 0);
    PageShrinksRemainder(log, counter, scope, since, limit);
    if page.hasMore then page.ops + Drain(log, counter, scope, page.pageLast, limit) else page.ops
  }

  /** Each page takes exactly its operations off what remains, so draining ends. */
  lemma PageShrinksRemainder(log: seq<OpRow>, counter: nat, scope: Scope, since: int, limit: nat)
    requires Numbered(log, counter)
    ensures var page := Page(log, scope, since, limit, 0);
            Select(After(scope, since), log) == page.ops + Select(After(scope, page.pageLast), log)
  {
    var page := Page(log, scope, since, limit, 0);
    PageOfRest(log, scope, since, limit, 0, Select(After(scope, since), log));
    PrefixExtends(log, counter, scope, since, |page.ops|);
  }

  /** Draining a fixed log returns everything after the cursor, whatever the page size. */
  lemma {:induction false} DrainIsComplete(log: seq<OpRow>, counter: nat, scope: Scope, since: int, limit: nat)
    requires Numbered(log, counter) && limit > 0
    ensures Drain(log, counter, scope, since, limit) == Select(After(scope, since), log)
    decreases |Select(After(scope, since), log)|
  {
    var page := Page(log, scope, since, limit, 0);
    PageShrinksRemainder(log, counter, scope, since, limit);
    PageExtends(log, counter, scope, since, limit, 0);
    if page.hasMore {
      DrainIsComplete(log, counter, scope, page.pageLast, limit);
    }
  }

  // ---------------------------------------------------------------- the two reads of one pull

  lemma {:induction false} MaxIsReached(rows: seq<OpRow>)
    ensures forall row | row in rows :: Number(row) <= MaxSequence(rows)
    ensures MaxSequence(rows) == 0 || exists row | row in rows :: Number(row) == MaxSequence(rows)
  {
    if rows != [] {
      MaxIsReached(rows[..|rows| - 1]);
      assert rows == rows[..|rows| - 1] + [rows[|rows| - 1]];
    }
  }

  /** The page is read after server_sequence, and transactions may commit in between. As long as they
      do not delete the user, a last page has caught up with the server_sequence it is reported with. */
  lemma LastPageCatchesUp(limits: Limits, s: System, es: seq<Event>, scope: Scope, since: nat, limit: nat)
    requires SystemInv(s) && NeverDeletes(es, scope.user)
    ensures var reply := Page(Run(limits, s, es).db.ops, scope, since, limit, ServerSequence(s.db.ops, scope));
            !reply.hasMore ==> reply.pageLast >= reply.serverSequence
  {
    var db := Run(limits, s, es).db;
    var n := ServerSequence(s.db.ops, scope);
    var reply := Page(db.ops, scope, since, limit, n);
    RunKeepsInv(limits, s, es);
    PageExtends(db.ops, db.counter, scope, since, limit, n);
    var more := RunAppends(limits, s, es, scope);
    MaxIsReached(Select(InScope(scope), s.db.ops));
    if !reply.hasMore && n > reply.pageLast {
      var row :| row in Select(InScope(scope), s.db.ops) && Number(row) == n;
      assert row in Select(InScope(scope), db.ops);
      SelectMember(InScope(scope), db.ops, row);
      SelectMember(After(scope, reply.pageLast), db.ops, row);
    }
  }
}
